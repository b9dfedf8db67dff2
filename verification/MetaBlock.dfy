// The `[black-bag]` block the exporter appends to a notes column, and its
// reader, of crates/blackbag-cli/src/import.rs.
module MetaBlock {
  import opened Wrappers
  import opened Substring
  import opened Text

  const META_MARKER: string := "[black-bag]"

  datatype Kind =
    | Login | Totp | Api | Ssh | Pgp | Wallet | Bank | Wifi | Id | Contact | Note | Recovery | Passkey

  function KindText(k: Kind): string {
    match k
    case Login => "login"
    case Totp => "totp"
    case Api => "api"
    case Ssh => "ssh"
    case Pgp => "pgp"
    case Wallet => "wallet"
    case Bank => "bank"
    case Wifi => "wifi"
    case Id => "id"
    case Contact => "contact"
    case Note => "note"
    case Recovery => "recovery"
    case Passkey => "passkey"
  }

  function ParseKind(s: string): Option<Kind> {
    var t := Lowered(s);
    if t == "login" then Some(Login)
    else if t == "totp" then Some(Totp)
    else if t == "api" then Some(Api)
    else if t == "ssh" then Some(Ssh)
    else if t == "pgp" then Some(Pgp)
    else if t == "wallet" then Some(Wallet)
    else if t == "bank" then Some(Bank)
    else if t == "wifi" then Some(Wifi)
    else if t == "id" then Some(Id)
    else if t == "contact" then Some(Contact)
    else if t == "note" then Some(Note)
    else if t == "recovery" then Some(Recovery)
    else if t == "passkey" then Some(Passkey)
    else None
  }

  lemma ParseKindUndoesText(k: Kind)
    ensures ParseKind(KindText(k)) == Some(k)
  {
    hide Lowered;
    KindTextIsLower(k);
    LowerStays(KindText(k));
  }

  // A text names a kind in any case, and no text names two.
  lemma ParseKindExactly(s: string, k: Kind)
    ensures ParseKind(s) == Some(k) <==> Lowered(s) == KindText(k)
  {
    hide Lowered;
    var t := Lowered(s);
    if t == KindText(k) {
      assert |t| == |KindText(k)|;
    }
  }

  lemma KindTextIsLower(k: Kind)
    ensures forall i :: 0 <= i < |KindText(k)| ==> 'a' <= KindText(k)[i] <= 'z'
  {
  }

  // ----- escaping -----

  function Escaped(c: char): string {
    if c == '\\' then "\\\\" else if c == '\n' then "\\n" else if c == '\r' then "\\r" else [c]
  }

  function Escape(s: string): string {
    if s == "" then "" else Escape(s[..|s| - 1]) + Escaped(s[|s| - 1])
  }

  // How many characters one step reads, and what it writes.
  function Unescaped(s: string): (r: (nat, string))
    requires s != ""
    ensures 1 <= r.0 <= |s|
  {
    if s[0] != '\\' then (1, [s[0]])
    else if |s| == 1 then (1, "\\")
    else if s[1] == '\\' then (2, "\\")
    else if s[1] == 'n' then (2, "\n")
    else if s[1] == 'r' then (2, "\r")
    else (2, ['\\', s[1]])
  }

  function Unescape(s: string): string
    decreases |s|
  {
    if s == "" then "" else var (n, out) := Unescaped(s); out + Unescape(s[n..])
  }

  method MetaEscape(value: string) returns (out: string)
    ensures out == Escape(value)
  {
    out := "";
    for i := 0 to |value|
      invariant out == Escape(value[..i])
    {
      assert value[..i + 1][..i] == value[..i];
      match value[i]
      case '\\' => out := out + "\\\\";
      case '\n' => out := out + "\\n";
      case '\r' => out := out + "\\r";
      case c => out := out + [c];
    }
    assert value[..|value|] == value;
  }

  method MetaUnescape(value: string) returns (out: string)
    ensures out == Unescape(value)
  {
    hide Unescape;
    out := "";
    var i := 0;
    assert value[0..] == value;
    while i < |value|
      invariant 0 <= i <= |value|
      invariant Unescape(value) == out + Unescape(value[i..])
    {
      UnescapeUnfolds(value, i);
      var c := value[i];
      i := i + 1;
      if c != '\\' {
        out := out + [c];
        continue;
      }
      if i == |value| {
        out := out + "\\";
      } else {
        var d := value[i];
        i := i + 1;
        match d
        case '\\' => out := out + "\\";
        case 'n' => out := out + "\n";
        case 'r' => out := out + "\r";
        case other => out := out + "\\" + [other];
      }
    }
    UnescapeNothing(value[i..]);
  }

  lemma UnescapeUnfolds(value: string, i: nat)
    requires i < |value|
    ensures var (n, out) := Unescaped(value[i..]);
            i + n <= |value| && Unescape(value[i..]) == out + Unescape(value[i + n..])
  {
    var n := Unescaped(value[i..]).0;
    assert value[i..][n..] == value[i + n..];
  }

  lemma UnescapeNothing(s: string)
    requires s == ""
    ensures Unescape(s) == ""
  {
  }

  lemma EscapeGrows(s: string, c: char)
    ensures Escape(s + [c]) == Escape(s) + Escaped(c)
  {
    assert (s + [c])[..|s|] == s;
  }

  lemma {:induction false} EscapeSplits(a: string, b: string)
    ensures Escape(a + b) == Escape(a) + Escape(b)
    decreases |b|
  {
    hide Escape;
    hide Escaped;
    if b == "" {
      assert a + b == a;
      EscapeNothing(b);
    } else {
      var rest, c := b[..|b| - 1], b[|b| - 1];
      assert b == rest + [c] && a + b == (a + rest) + [c];
      EscapeSplits(a, rest);
      EscapeGrows(rest, c);
      EscapeGrows(a + rest, c);
    }
  }

  lemma EscapeNothing(s: string)
    requires s == ""
    ensures Escape(s) == ""
  {
  }

  // Unescaping undoes escaping, for every value.
  lemma {:induction false} UnescapeUndoesEscape(v: string)
    ensures Unescape(Escape(v)) == v
    decreases |v|
  {
    if v != "" {
      var head, tail := v[..1], v[1..];
      assert v == head + tail;
      EscapeSplits(head, tail);
      EscapeOne(v[0]);
      UnescapeUndoesEscape(tail);
      UnescapeOne(v[0], Escape(tail));
    }
  }

  lemma EscapeOne(c: char)
    ensures Escape([c]) == Escaped(c)
  {
    assert [c][..0] == "";
  }

  lemma UnescapeOne(c: char, rest: string)
    ensures Unescape(Escaped(c) + rest) == [c] + Unescape(rest)
  {
    var s := Escaped(c) + rest;
    assert s[|Escaped(c)|..] == rest;
    assert Unescaped(s) == (|Escaped(c)|, [c]);
  }

  // No backslash stands before one of the three characters it can escape.
  ghost predicate NothingToUnescape(v: string) {
    forall i :: 0 <= i < |v| - 1 && v[i] == '\\' ==> v[i + 1] != '\\' && v[i + 1] != 'n' && v[i + 1] != 'r'
  }

  lemma {:induction false} UnescapeShortens(v: string)
    ensures |Unescape(v)| <= |v|
    ensures !NothingToUnescape(v) ==> |Unescape(v)| < |v|
    decreases |v|
  {
    if v != "" {
      var (n, out) := Unescaped(v);
      var rest := v[n..];
      UnescapeShortens(rest);
      if !NothingToUnescape(v) && |out| == n {
        var i :| 0 <= i < |v| - 1 && v[i] == '\\' && (v[i + 1] == '\\' || v[i + 1] == 'n' || v[i + 1] == 'r');
        assert i >= n;
        assert rest[i - n] == v[i] && rest[i - n + 1] == v[i + 1];
      }
    }
  }

  lemma NothingToUnescapeFirst(v: string)
    requires v != "" && NothingToUnescape(v)
    ensures Unescaped(v).1 == v[..Unescaped(v).0] && NothingToUnescape(v[Unescaped(v).0..])
  {
    var n := Unescaped(v).0;
    var rest := v[n..];
    assert forall i :: 0 <= i < |rest| ==> rest[i] == v[i + n];
    assert Unescaped(v).1 == v[..n];
  }

  // A value that was never escaped is read as it is, lone backslashes and all,
  // exactly when none of them stands before a character it could escape.
  lemma {:induction false} UnescapedValuesStay(v: string)
    ensures Unescape(v) == v <==> NothingToUnescape(v)
    decreases |v|
  {
    hide Unescape;
    hide Unescaped;
    UnescapeShortens(v);
    if v == "" {
      UnescapeNothing(v);
    } else if NothingToUnescape(v) {
      var n := Unescaped(v).0;
      NothingToUnescapeFirst(v);
      UnescapedValuesStay(v[n..]);
      assert v[0..] == v;
      UnescapeUnfolds(v, 0);
      assert v == v[..n] + v[n..];
    }
  }

  // An escaped value stays on one line.
  lemma {:induction false} EscapeIsOneLine(v: string)
    ensures forall i :: 0 <= i < |Escape(v)| ==> Escape(v)[i] != '\n' && Escape(v)[i] != '\r'
  {
    if v != "" {
      EscapeIsOneLine(v[..|v| - 1]);
    }
  }

  // ----- reading the block -----

  type Pairs = seq<(string, string)>

  datatype NoteMeta = NoteMeta(kind: Option<Kind>, attributes: Pairs, secrets: Pairs)

  const NO_META: NoteMeta := NoteMeta(None, [], [])

  function StripCr(line: string): string {
    if line != "" && line[|line| - 1] == '\r' then line[..|line| - 1] else line
  }

  // str::lines.
  function Lines(s: string): seq<string>
    decreases |s|
  {
    if s == "" then []
    else match IndexOf(s, "\n", 0)
         case None => [s]
         case Some(h) => [StripCr(s[..h])] + Lines(s[h + 1..])
  }

  // str::split_once(": ").
  function SplitOnce(s: string): Option<(string, string)> {
    match IndexOf(s, ": ", 0)
    case None => None
    case Some(h) => Some((s[..h], s[h + 2..]))
  }

  function Entry(rest: string): Pairs {
    match SplitOnce(rest)
    case None => []
    case Some((k, v)) => [(k, Unescape(v))]
  }

  function ReadLine(meta: NoteMeta, raw: string): NoteMeta {
    var line := TrimEnd(raw);
    if "kind: " <= line then meta.(kind := ParseKind(Trim(line[6..])))
    else if "attr " <= line then meta.(attributes := meta.attributes + Entry(line[5..]))
    else if "secret " <= line then meta.(secrets := meta.secrets + Entry(line[7..]))
    else meta
  }

  function ReadLines(meta: NoteMeta, lines: seq<string>): NoteMeta {
    if lines == [] then meta else ReadLine(ReadLines(meta, lines[..|lines| - 1]), lines[|lines| - 1])
  }

  function SplitOff(notes: string): (NoteMeta, string) {
    match IndexOf(notes, META_MARKER, 0)
    case None => (NO_META, notes)
    case Some(at) =>
      var lines := Lines(notes[at..]);
      (ReadLines(NO_META, if lines == [] then [] else lines[1..]), TrimEnd(notes[..at]))
  }

  method SplitMeta(notes: string) returns (meta: NoteMeta, head: string)
    ensures (meta, head) == SplitOff(notes)
  {
    var found := IndexOf(notes, META_MARKER, 0);
    if found.None? {
      return NO_META, notes;
    }
    var at := found.value;
    var lines := Lines(notes[at..]);
    lines := if lines == [] then [] else lines[1..];
    meta := NO_META;
    for i := 0 to |lines|
      invariant meta == ReadLines(NO_META, lines[..i])
    {
      assert lines[..i + 1][..i] == lines[..i];
      var line := TrimEnd(lines[i]);
      if "kind: " <= line {
        meta := meta.(kind := ParseKind(Trim(line[6..])));
      } else if "attr " <= line {
        var entry := SplitOnce(line[5..]);
        if entry.Some? {
          var value := MetaUnescape(entry.value.1);
          meta := meta.(attributes := meta.attributes + [(entry.value.0, value)]);
        }
      } else if "secret " <= line {
        var entry := SplitOnce(line[7..]);
        if entry.Some? {
          var value := MetaUnescape(entry.value.1);
          meta := meta.(secrets := meta.secrets + [(entry.value.0, value)]);
        }
      }
    }
    assert lines[..|lines|] == lines;
    head := TrimEnd(notes[..at]);
  }

  // ----- printing the block -----

  function PairLine(keyword: string, pair: (string, string)): string {
    keyword + pair.0 + ": " + Escape(pair.1)
  }

  function PairLines(keyword: string, pairs: Pairs): seq<string> {
    if pairs == [] then [] else PairLines(keyword, pairs[..|pairs| - 1]) + [PairLine(keyword, pairs[|pairs| - 1])]
  }

  function MetaLines(kind: Kind, attributes: Pairs, secrets: Pairs): seq<string> {
    (if kind == Login then [] else ["kind: " + KindText(kind)])
    + PairLines("attr ", attributes) + PairLines("secret ", secrets)
  }

  function Join(lines: seq<string>): string {
    if lines == [] then ""
    else if |lines| == 1 then lines[0]
    else lines[0] + "\n" + Join(lines[1..])
  }

  // The user's own notes, then the block when there is anything to put in it.
  function NotesCell(notes: Option<string>, meta: seq<string>): string {
    var own := if notes.Some? then [notes.value] else [];
    Join(if meta == [] then own else own + [META_MARKER + "\n" + Join(meta)])
  }
}
