// The hash-chained audit log of crates/blackbag-core/src/audit.rs.
//
// SHA-256 is an arbitrary function here. Nothing is assumed about it: a result
// that needs collision resistance says instead that the alternative exhibits a
// collision, or an entry whose digest is the all-zero genesis value.
module AuditLog {
  import opened Wrappers
  import opened Bytes

  type Text = seq<byte>

  // 32 raw digest bytes, before they are written as hexadecimal.
  type Block = b: seq<byte> | |b| == 32 witness Repeat(0, 32)

  type Sha = seq<byte> -> Block

  type u32 = n: int | 0 <= n < 0x1_0000_0000

  type i32 = n: int | -0x8000_0000 <= n < 0x8000_0000

  const GENESIS: Text := Repeat(48, 64)

  datatype Surface = Socket | Passkey | SecretService | SshAgent {
    function AsStr(): Text {
      match this
      case Socket => Ascii("socket")
      case Passkey => Ascii("passkey")
      case SecretService => Ascii("secret-service")
      case SshAgent => Ascii("ssh-agent")
    }
  }

  datatype Decision = Approved | Refused | Remembered | Blocked | Lapsed | Revoked {
    function AsStr(): Text {
      match this
      case Approved => Ascii("approved")
      case Refused => Ascii("refused")
      case Remembered => Ascii("remembered")
      case Blocked => Ascii("blocked")
      case Lapsed => Ascii("lapsed")
      case Revoked => Ascii("revoked")
    }
  }

  datatype Who = Who(uid: u32, pid: i32, program: Option<Text>)

  // `at` is the RFC 3339 rendering of the time, which is all the digest sees.
  datatype Entry = Entry(
    at: Text, who: Who, surface: Surface, decision: Decision,
    subject: Text, detail: Option<Text>, prev: Text, digest: Text)

  // ----- the digest of one entry -----

  function OrEmpty(t: Option<Text>): Text {
    match t case Some(v) => v case None => []
  }

  function Parts(e: Entry): seq<Text> {
    [ e.at,
      SignedDecimal(e.who.uid),
      SignedDecimal(e.who.pid),
      OrEmpty(e.who.program),
      e.surface.AsStr(),
      e.decision.AsStr(),
      e.subject,
      OrEmpty(e.detail),
      e.prev ]
  }

  function Preimage(e: Entry): seq<byte> {
    Absorbed(Parts(e))
  }

  function Compute(sha: Sha, e: Entry): Text {
    Hex(sha(Preimage(e)))
  }

  // Every string an entry can hold has a length that fits the 64-bit prefix.
  ghost predicate Fits(e: Entry) {
    && |e.at| < U64
    && |OrEmpty(e.who.program)| < U64
    && |e.subject| < U64
    && |OrEmpty(e.detail)| < U64
    && |e.prev| < U64
  }

  ghost predicate AllFit(es: seq<Entry>) {
    forall i :: 0 <= i < |es| ==> Fits(es[i])
  }

  // Equal except that an absent program or detail equals an empty one.
  ghost predicate SameContent(e: Entry, f: Entry) {
    && e.at == f.at
    && e.who.uid == f.who.uid
    && e.who.pid == f.who.pid
    && OrEmpty(e.who.program) == OrEmpty(f.who.program)
    && e.surface == f.surface
    && e.decision == f.decision
    && e.subject == f.subject
    && OrEmpty(e.detail) == OrEmpty(f.detail)
    && e.prev == f.prev
  }

  ghost predicate Same(e: Entry, f: Entry) {
    SameContent(e, f) && e.digest == f.digest
  }

  lemma SurfaceTextInjective(a: Surface, b: Surface)
    requires a.AsStr() == b.AsStr()
    ensures a == b
  {
    assert |a.AsStr()| == |b.AsStr()|;
  }

  lemma DecisionTextInjective(a: Decision, b: Decision)
    requires a.AsStr() == b.AsStr()
    ensures a == b
  {
    assert |a.AsStr()| == |b.AsStr()|;
    assert a.AsStr()[0] == b.AsStr()[0] && a.AsStr()[2] == b.AsStr()[2];
  }

  // What is hashed is nine parts, each after its length, and they can be read
  // back in this order.
  lemma PreimageReadsBack(e: Entry)
    requires Fits(e)
    ensures Unframed(Preimage(e)) == Some([
      e.at, SignedDecimal(e.who.uid), SignedDecimal(e.who.pid), OrEmpty(e.who.program),
      e.surface.AsStr(), e.decision.AsStr(), e.subject, OrEmpty(e.detail), e.prev])
  {
    hide Absorbed;
    hide Unframed;
    hide SignedDecimal;
    assert |e.surface.AsStr()| <= 14 && |e.decision.AsStr()| <= 10;
    UnframedUndoesAbsorbed(Parts(e));
  }

  // The digest covers everything, and only an absent field and an empty one
  // are told apart by nothing.
  lemma PreimageIdentifiesContent(e: Entry, f: Entry)
    requires Fits(e) && Fits(f)
    ensures Preimage(e) == Preimage(f) <==> SameContent(e, f)
  {
    var p, q := Parts(e), Parts(f);
    if Preimage(e) == Preimage(f) {
      assert forall d: Decision :: |d.AsStr()| <= 10;
      assert forall s: Surface :: |s.AsStr()| <= 14;
      assert Fit(p) && Fit(q);
      AbsorbedInjective(p, q);
      assert p[0] == q[0] && p[1] == q[1] && p[2] == q[2] && p[3] == q[3] && p[4] == q[4]
          && p[5] == q[5] && p[6] == q[6] && p[7] == q[7] && p[8] == q[8];
      SignedDecimalInjective(e.who.uid, f.who.uid);
      SignedDecimalInjective(e.who.pid, f.who.pid);
      SurfaceTextInjective(e.surface, f.surface);
      DecisionTextInjective(e.decision, f.decision);
    }
    if SameContent(e, f) {
      assert p == q;
    }
  }

  lemma SameContentSameDigest(sha: Sha, e: Entry, f: Entry)
    requires SameContent(e, f)
    ensures Compute(sha, e) == Compute(sha, f)
  {
    assert Parts(e) == Parts(f);
  }

  // ----- verification -----

  datatype Why = DoesNotFollow | ContentsDoNotMatch

  datatype Verdict =
    | Intact(entries: nat, head: Text)
    | Broken(at: nat, why: Why)
    | Truncated(entries: nat)

  function PrevOf(es: seq<Entry>, i: nat): Text
    requires i <= |es|
  {
    if i == 0 then GENESIS else es[i - 1].digest
  }

  function HeadOf(es: seq<Entry>): Text {
    PrevOf(es, |es|)
  }

  ghost predicate Holds(sha: Sha, es: seq<Entry>, i: nat)
    requires i < |es|
  {
    es[i].prev == PrevOf(es, i) && es[i].digest == Compute(sha, es[i])
  }

  ghost predicate Chain(sha: Sha, es: seq<Entry>) {
    forall i :: 0 <= i < |es| ==> Holds(sha, es, i)
  }

  ghost predicate Mentions(es: seq<Entry>, want: Text) {
    exists i :: 0 <= i < |es| && es[i].digest == want
  }

  // What `verify` must say, entry list and recorded head being arbitrary.
  ghost predicate Judges(sha: Sha, es: seq<Entry>, want: Option<Text>, v: Verdict) {
    match v
    case Broken(at, why) =>
      && 1 <= at <= |es|
      && Chain(sha, es[..at - 1])
      && !Holds(sha, es, at - 1)
      && (why == DoesNotFollow <==> es[at - 1].prev != PrevOf(es, at - 1))
    case Truncated(n) =>
      && n == |es| && Chain(sha, es)
      && want.Some? && want.value != HeadOf(es) && !Mentions(es, want.value)
    case Intact(n, head) =>
      && n == |es| && head == HeadOf(es) && Chain(sha, es)
      && (want.Some? ==> want.value == HeadOf(es) || Mentions(es, want.value))
  }

  lemma ChainPrefix(sha: Sha, es: seq<Entry>, n: nat)
    requires n <= |es|
    ensures Chain(sha, es[..n]) <==> forall i :: 0 <= i < n ==> Holds(sha, es, i)
  {
    forall i | 0 <= i < n ensures Holds(sha, es[..n], i) <==> Holds(sha, es, i) {
      assert PrevOf(es[..n], i) == PrevOf(es, i);
    }
  }

  // There is exactly one verdict, so `Judges` pins `verify` down.
  lemma VerdictIsUnique(sha: Sha, es: seq<Entry>, want: Option<Text>, v: Verdict, w: Verdict)
    requires Judges(sha, es, want, v) && Judges(sha, es, want, w)
    ensures v == w
  {
    hide Holds;
    hide Mentions;
    hide PrevOf;
    if v.Broken? { ChainPrefix(sha, es, v.at - 1); }
    if w.Broken? { ChainPrefix(sha, es, w.at - 1); }
  }

  lemma ChainIsNotBroken(sha: Sha, es: seq<Entry>, want: Option<Text>, v: Verdict)
    requires Judges(sha, es, want, v)
    ensures v.Broken? <==> !Chain(sha, es)
  {
    assert v.Broken? ==> !Holds(sha, es, v.at - 1);
  }

  // ----- what an intact verdict is evidence of -----

  ghost predicate Collide(sha: Sha, e: Entry, f: Entry) {
    Preimage(e) != Preimage(f) && sha(Preimage(e)) == sha(Preimage(f))
  }

  // The only ways out: two inputs with one digest, or an input hashing to zeros.
  ghost predicate HashBroken(sha: Sha, es: seq<Entry>, fs: seq<Entry>) {
    || (exists e, f :: e in es && f in fs && Collide(sha, e, f))
    || (exists e :: (e in es || e in fs) && Compute(sha, e) == GENESIS)
  }

  ghost predicate AgreeThrough(es: seq<Entry>, fs: seq<Entry>, k: nat) {
    k < |es| && k < |fs| && forall i :: 0 <= i <= k ==> Same(es[i], fs[i])
  }

  lemma EqualDigests(sha: Sha, e: Entry, f: Entry)
    requires Fits(e) && Fits(f) && e.digest == f.digest
    requires e.digest == Compute(sha, e) && f.digest == Compute(sha, f)
    ensures Same(e, f) || Collide(sha, e, f)
  {
    HexInjective(sha(Preimage(e)), sha(Preimage(f)));
    PreimageIdentifiesContent(e, f);
  }

  // Two chains that share one digest share everything before it.
  lemma {:induction false} SharedDigestSharesHistory(sha: Sha, es: seq<Entry>, fs: seq<Entry>, k: nat, j: nat)
    requires Chain(sha, es) && Chain(sha, fs) && AllFit(es) && AllFit(fs)
    requires k < |es| && j < |fs| && es[k].digest == fs[j].digest
    ensures (k == j && AgreeThrough(es, fs, k)) || HashBroken(sha, es, fs)
  {
    hide Preimage;
    hide Compute;
    hide GENESIS;
    assert Holds(sha, es, k) && Holds(sha, fs, j) && es[k] in es && fs[j] in fs;
    EqualDigests(sha, es[k], fs[j]);
    if Same(es[k], fs[j]) {
      assert PrevOf(es, k) == PrevOf(fs, j);
      if k > 0 && j > 0 {
        SharedDigestSharesHistory(sha, es, fs, k - 1, j - 1);
      } else if k > 0 {
        assert Holds(sha, es, k - 1) && es[k - 1] in es;
      } else if j > 0 {
        assert Holds(sha, fs, j - 1) && fs[j - 1] in fs;
      }
    }
  }

  // Prefix authentication. `es` is a chain whose entry `k` was recorded as the
  // head; any list judged intact against that head still begins with
  // es[..k + 1], up to absent = empty -- or the hash is broken.
  lemma TamperEvidence(sha: Sha, es: seq<Entry>, k: nat, fs: seq<Entry>, v: Verdict)
    requires Chain(sha, es) && AllFit(es) && AllFit(fs) && k < |es|
    requires Judges(sha, fs, Some(es[k].digest), v)
    ensures v.Intact? ==> AgreeThrough(es, fs, k) || HashBroken(sha, es, fs)
    ensures Chain(sha, fs) && AgreeThrough(es, fs, k) ==> v.Intact?
  {
    var want := es[k].digest;
    assert Holds(sha, es, k) && es[k] in es;
    if v.Intact? {
      if fs == [] {
        assert Compute(sha, es[k]) == GENESIS;
      } else {
        assert HeadOf(fs) == fs[|fs| - 1].digest;
        var j :| 0 <= j < |fs| && fs[j].digest == want;
        SharedDigestSharesHistory(sha, es, fs, k, j);
      }
    }
    ChainIsNotBroken(sha, fs, Some(want), v);
    if AgreeThrough(es, fs, k) {
      assert fs[k].digest == want;
    }
  }

  // Cutting the recorded entry off is seen.
  lemma TruncationIsReported(sha: Sha, es: seq<Entry>, k: nat, n: nat, v: Verdict)
    requires Chain(sha, es) && AllFit(es) && n <= k < |es|
    requires Judges(sha, es[..n], Some(es[k].digest), v)
    ensures v == Truncated(n) || HashBroken(sha, es, es)
  {
    ChainPrefix(sha, es, n);
    TamperEvidence(sha, es, k, es[..n], v);
    ChainIsNotBroken(sha, es[..n], Some(es[k].digest), v);
    if HashBroken(sha, es, es[..n]) {
      assert forall e :: e in es[..n] ==> e in es;
    }
  }

  ghost predicate SameLists(es: seq<Entry>, fs: seq<Entry>) {
    |es| == |fs| && forall i :: 0 <= i < |es| ==> Same(es[i], fs[i])
  }

  lemma SameListsHoldAlike(sha: Sha, es: seq<Entry>, fs: seq<Entry>, i: nat)
    requires SameLists(es, fs) && i < |es|
    ensures Holds(sha, es, i) <==> Holds(sha, fs, i)
    ensures es[i].prev == PrevOf(es, i) <==> fs[i].prev == PrevOf(fs, i)
    ensures es[i].digest == fs[i].digest
  {
    hide GENESIS;
    assert Same(es[i], fs[i]) && (i > 0 ==> Same(es[i - 1], fs[i - 1]));
    SameContentSameDigest(sha, es[i], fs[i]);
  }

  lemma SameListsChainAlike(sha: Sha, es: seq<Entry>, fs: seq<Entry>, n: nat)
    requires SameLists(es, fs) && n <= |es|
    ensures Chain(sha, es[..n]) <==> Chain(sha, fs[..n])
    ensures PrevOf(es, n) == PrevOf(fs, n)
  {
    hide Holds;
    hide GENESIS;
    forall i | 0 <= i < n ensures Holds(sha, es, i) <==> Holds(sha, fs, i) {
      SameListsHoldAlike(sha, es, fs, i);
    }
    ChainPrefix(sha, es, n);
    ChainPrefix(sha, fs, n);
    if n > 0 {
      SameListsHoldAlike(sha, es, fs, n - 1);
    }
  }

  lemma SameListsMentionAlike(es: seq<Entry>, fs: seq<Entry>, w: Text)
    requires SameLists(es, fs)
    ensures Mentions(es, w) <==> Mentions(fs, w)
  {
    assert forall i :: 0 <= i < |es| ==> es[i].digest == fs[i].digest;
  }

  // The limit of it: editing an absent field into an empty one, or back, is
  // invisible to every check.
  lemma BlankEditsAreInvisible(sha: Sha, es: seq<Entry>, fs: seq<Entry>, want: Option<Text>, v: Verdict)
    requires SameLists(es, fs)
    requires Judges(sha, es, want, v)
    ensures Judges(sha, fs, want, v)
  {
    hide Chain;
    hide Mentions;
    hide Holds;
    hide PrevOf;
    if want.Some? {
      SameListsMentionAlike(es, fs, want.value);
    }
    SameListsChainAlike(sha, es, fs, |es|);
    assert es[..|es|] == es && fs[..|fs|] == fs;
    if v.Broken? {
      SameListsChainAlike(sha, es, fs, v.at - 1);
      SameListsHoldAlike(sha, es, fs, v.at - 1);
    }
  }

  // ----- the log on disk -----

  predicate IsSpace(b: byte) {
    b == 32 || 9 <= b <= 13
  }

  function TrimStart(t: Text): Text {
    if t != [] && IsSpace(t[0]) then TrimStart(t[1..]) else t
  }

  function TrimEnd(t: Text): Text {
    if t != [] && IsSpace(t[|t| - 1]) then TrimEnd(t[..|t| - 1]) else t
  }

  // The head file's contents as a recorded head.
  function Recorded(raw: Option<Text>): Option<Text> {
    match raw
    case None => None
    case Some(t) => var head := TrimEnd(TrimStart(t)); if head == [] then None else Some(head)
  }

  // Spaces, tabs and line ends.
  ghost predicate AllSpace(t: Text) {
    forall i :: 0 <= i < |t| ==> t[i] in {9, 10, 11, 12, 13, 32}
  }

  // `core` is what is left of `raw` without the white space around it.
  ghost predicate IsCore(core: Text, raw: Text) {
    && core != [] && core[0] !in {9, 10, 11, 12, 13, 32} && core[|core| - 1] !in {9, 10, 11, 12, 13, 32}
    && exists i :: 0 <= i && i + |core| <= |raw| && raw[i..i + |core|] == core
                && AllSpace(raw[..i]) && AllSpace(raw[i + |core|..])
  }

  lemma {:induction false} TrimStartCuts(t: Text)
    ensures var s := TrimStart(t);
            && |s| <= |t| && s == t[|t| - |s|..] && AllSpace(t[..|t| - |s|]) && (s != [] ==> !IsSpace(s[0]))
  {
    if t != [] && IsSpace(t[0]) {
      TrimStartCuts(t[1..]);
      var s := TrimStart(t);
      assert t[..|t| - |s|] == [t[0]] + t[1..][..|t| - 1 - |s|];
    }
  }

  lemma {:induction false} TrimEndCuts(t: Text)
    ensures var s := TrimEnd(t);
            && |s| <= |t| && s == t[..|s|] && AllSpace(t[|s|..]) && (s != [] ==> !IsSpace(s[|s| - 1]))
  {
    if t != [] && IsSpace(t[|t| - 1]) {
      TrimEndCuts(t[..|t| - 1]);
      var s := TrimEnd(t);
      assert t[|s|..] == t[..|t| - 1][|s|..] + [t[|t| - 1]];
    }
  }

  lemma CoreStandsOut(a: Text, core: Text, b: Text)
    requires AllSpace(a) && AllSpace(b)
    requires core != [] ==> !IsSpace(core[0]) && !IsSpace(core[|core| - 1])
    ensures core == [] <==> AllSpace(a + core + b)
    ensures core != [] ==> IsCore(core, a + core + b)
  {
    var raw := a + core + b;
    if core != [] {
      assert raw[|a|] == core[0];
      assert raw[..|a|] == a && raw[|a|..|a| + |core|] == core && raw[|a| + |core|..] == b;
    }
  }

  lemma RecordedIsCore(raw: Text)
    ensures var head := Recorded(Some(raw));
            (head.None? <==> AllSpace(raw)) && (head.Some? ==> IsCore(head.value, raw))
  {
    hide TrimStart;
    hide TrimEnd;
    hide AllSpace;
    hide IsCore;
    hide IsSpace;
    var s := TrimStart(raw);
    TrimStartCuts(raw);
    TrimEndCuts(s);
    var a, core := raw[..|raw| - |s|], TrimEnd(s);
    var b := s[|core|..];
    assert raw == a + core + b;
    assert core != [] ==> core[0] == s[0];
    CoreStandsOut(a, core, b);
  }

  // One request to append, and whether its head write survived.
  datatype Request = Request(
    at: Text, who: Who, surface: Surface, decision: Decision,
    subject: Text, detail: Option<Text>, headLands: bool)

  datatype Disk = Disk(entries: seq<Entry>, headFile: Option<Text>)

  function Made(sha: Sha, prev: Text, r: Request): Entry {
    var e := Entry(r.at, r.who, r.surface, r.decision, r.subject, r.detail, prev, []);
    e.(digest := Compute(sha, e))
  }

  function After(sha: Sha, d: Disk, r: Request): Disk {
    var e := Made(sha, HeadOf(d.entries), r);
    Disk(d.entries + [e], if r.headLands then Some(e.digest) else d.headFile)
  }

  function RunOf(sha: Sha, rs: seq<Request>): Disk {
    if rs == [] then Disk([], None)
    else After(sha, RunOf(sha, rs[..|rs| - 1]), rs[|rs| - 1])
  }

  // The entry holds the request, word for word.
  ghost predicate Records(e: Entry, r: Request) {
    && e.at == r.at && e.who == r.who && e.surface == r.surface
    && e.decision == r.decision && e.subject == r.subject && e.detail == r.detail
  }

  class Log {
    const sha: Sha
    var entries: seq<Entry>
    var headFile: Option<Text>

    function State(): Disk
      reads this
    {
      Disk(entries, headFile)
    }

    constructor (sha: Sha)
      ensures this.sha == sha && State() == RunOf(sha, [])
    {
      this.sha := sha;
      entries, headFile := [], None;
    }

    method Head() returns (head: Text)
      ensures head == HeadOf(entries)
    {
      head := if entries == [] then GENESIS else entries[|entries| - 1].digest;
    }

    method WriteHead(head: Text)
      modifies this`headFile
      ensures headFile == Some(head)
    {
      headFile := Some(head);
    }

    method RecordedHead() returns (head: Option<Text>)
      ensures head == Recorded(headFile)
      ensures head.None? <==> headFile.None? || AllSpace(headFile.value)
      ensures head.Some? ==> IsCore(head.value, headFile.value)
    {
      if headFile.Some? {
        RecordedIsCore(headFile.value);
      }
      if headFile.None? {
        return None;
      }
      var raw := TrimEnd(TrimStart(headFile.value));
      head := if raw == [] then None else Some(raw);
    }

    // The entry is durable first; a crash or an error may then lose the head
    // write, which is what `headLands` says.
    method Append(r: Request) returns (digest: Text)
      modifies this
      ensures State() == After(sha, old(State()), r)
      ensures digest == HeadOf(entries)
      ensures |entries| == |old(entries)| + 1 && entries[..|old(entries)|] == old(entries)
      ensures Records(entries[|old(entries)|], r)
      ensures digest == entries[|old(entries)|].digest == Compute(sha, entries[|old(entries)|])
    {
      var prev := Head();
      var entry := Entry(r.at, r.who, r.surface, r.decision, r.subject, r.detail, prev, []);
      entry := entry.(digest := Compute(sha, entry));
      entries := entries + [entry];
      if r.headLands {
        WriteHead(entry.digest);
      }
      digest := entry.digest;
    }

    // Checks every link and digest in turn, then looks for the wanted head.
    method Verify(expectedHead: Option<Text>) returns (v: Verdict)
      ensures Judges(sha, entries, expectedHead, v)
    {
      hide Compute;
      hide GENESIS;
      var prev := GENESIS;
      for i := 0 to |entries|
        invariant prev == PrevOf(entries, i)
        invariant forall j :: 0 <= j < i ==> Holds(sha, entries, j)
      {
        var entry := entries[i];
        ChainPrefix(sha, entries, i);
        if entry.prev != prev {
          return Broken(i + 1, DoesNotFollow);
        }
        if entry.digest != Compute(sha, entry) {
          return Broken(i + 1, ContentsDoNotMatch);
        }
        prev := entry.digest;
      }
      if expectedHead.Some? && expectedHead.value != prev {
        var grewPast := exists i :: 0 <= i < |entries| && entries[i].digest == expectedHead.value;
        if !grewPast {
          return Truncated(|entries|);
        }
      }
      v := Intact(|entries|, prev);
    }
  }

  // ----- whole runs, with any head write lost -----

  lemma {:induction false} TrimKeepsHex(h: Text)
    requires h != [] && forall i :: 0 <= i < |h| ==> !IsSpace(h[i])
    ensures Recorded(Some(h)) == Some(h)
  {
  }

  ghost predicate RecordsEntry(d: Disk, k: nat) {
    k < |d.entries| && Recorded(d.headFile) == Some(d.entries[k].digest)
  }

  // The last append whose head write survived.
  predicate LastLandingAt(rs: seq<Request>, k: nat) {
    k < |rs| && rs[k].headLands && forall m :: k < m < |rs| ==> !rs[m].headLands
  }

  lemma AppendKeepsChain(sha: Sha, p: Disk, r: Request)
    requires Chain(sha, p.entries)
    ensures Chain(sha, After(sha, p, r).entries)
    ensures r.headLands ==> RecordsEntry(After(sha, p, r), |p.entries|)
    ensures !r.headLands ==> After(sha, p, r).headFile == p.headFile
    ensures After(sha, p, r).headFile.None? <==> p.headFile.None? && !r.headLands
    ensures p.entries <= After(sha, p, r).entries && |After(sha, p, r).entries| == |p.entries| + 1
  {
    hide GENESIS;
    var d, n := After(sha, p, r), |p.entries|;
    var e := d.entries[n];
    assert d.entries[..n] == p.entries;
    ChainPrefix(sha, d.entries, n);
    SameContentSameDigest(sha, e, e.(digest := []));
    assert Holds(sha, d.entries, n);
    TrimKeepsHex(e.digest);
  }

  // The chain holds after every run, and the recorded head is the one written
  // by the last append whose head write survived.
  lemma {:induction false} RunInvariant(sha: Sha, rs: seq<Request>)
    ensures var d := RunOf(sha, rs);
            && |d.entries| == |rs|
            && Chain(sha, d.entries)
            && (d.headFile.None? <==> forall k :: 0 <= k < |rs| ==> !rs[k].headLands)
            && (forall k :: 0 <= k < |rs| && LastLandingAt(rs, k) ==> RecordsEntry(d, k))
  {
    hide After;
    hide Chain;
    hide Recorded;
    if rs == [] {
      EmptyChain(sha);
    } else {
      var n := |rs| - 1;
      var rest, r := rs[..n], rs[n];
      RunInvariant(sha, rest);
      AppendKeepsChain(sha, RunOf(sha, rest), r);
      assert rs == rest + [r];
      forall k | 0 <= k < n && LastLandingAt(rs, k) ensures RecordsEntry(RunOf(sha, rs), k) {
        assert LastLandingAt(rest, k);
      }
    }
  }

  // After any run the log tells, in order, exactly what was asked of it.
  lemma {:induction false} RunRecordsRequests(sha: Sha, rs: seq<Request>)
    ensures var es := RunOf(sha, rs).entries;
            |es| == |rs| && forall k :: 0 <= k < |rs| ==> Records(es[k], rs[k])
  {
    hide Compute;
    if rs != [] {
      var n := |rs| - 1;
      RunRecordsRequests(sha, rs[..n]);
      var before := RunOf(sha, rs[..n]).entries;
      assert RunOf(sha, rs).entries[..n] == before;
      forall k | 0 <= k < |rs| ensures Records(RunOf(sha, rs).entries[k], rs[k]) {
        if k < n {
          assert RunOf(sha, rs).entries[k] == before[k] && rs[..n][k] == rs[k];
        }
      }
    }
  }

  lemma EmptyChain(sha: Sha)
    ensures Chain(sha, [])
  {
  }

  lemma LastLanding(rs: seq<Request>) returns (k: nat)
    requires exists i :: 0 <= i < |rs| && rs[i].headLands
    ensures LastLandingAt(rs, k)
  {
    k := |rs| - 1;
    while !rs[k].headLands
      invariant 0 <= k < |rs| && forall m :: k < m < |rs| ==> !rs[m].headLands
      decreases k
    {
      k := k - 1;
    }
  }

  // A crash between the two writes is never reported as tampering.
  lemma EveryRunVerifiesIntact(sha: Sha, rs: seq<Request>, v: Verdict)
    requires Judges(sha, RunOf(sha, rs).entries, Recorded(RunOf(sha, rs).headFile), v)
    ensures v.Intact?
  {
    RunInvariant(sha, rs);
    var d := RunOf(sha, rs);
    if exists i :: 0 <= i < |rs| && rs[i].headLands {
      var k := LastLanding(rs);
      assert RecordsEntry(d, k);
    }
    ChainIsNotBroken(sha, d.entries, Recorded(d.headFile), v);
  }

  // What the recorded head protects after a run: everything up to the last
  // append whose head write survived.
  lemma RunIsProtected(sha: Sha, rs: seq<Request>, k: nat, fs: seq<Entry>, v: Verdict)
    requires LastLandingAt(rs, k)
    requires AllFit(RunOf(sha, rs).entries) && AllFit(fs)
    requires Judges(sha, fs, Recorded(RunOf(sha, rs).headFile), v)
    ensures var es := RunOf(sha, rs).entries;
            && (v.Intact? ==> AgreeThrough(es, fs, k) || HashBroken(sha, es, fs))
            && (Chain(sha, fs) && AgreeThrough(es, fs, k) ==> v.Intact?)
  {
    RunInvariant(sha, rs);
    assert RecordsEntry(RunOf(sha, rs), k);
    TamperEvidence(sha, RunOf(sha, rs).entries, k, fs, v);
  }
}
