// Password minting, and why it is uniform: `password` of
// crates/blackbag-core/src/generate.rs.
module Password {
  import opened Wrappers
  import opened Bytes
  import opened Counting
  import opened UniformDraw
  import opened Charset

  const MAX_CONSTRAINT_ATTEMPTS: nat := 1000

  // ----- drawing a whole string of indices -----

  function FillFrom(tape: seq<word>, n: word, len: nat): (d: Drawing<seq<nat>>)
    ensures d.Drew? ==> |d.rest| <= |tape|
    decreases len
  {
    if len == 0 then Drew([], tape) else
    match DrawBelow(tape, n)
    case NoDraw(why, rest) => NoDraw(why, rest)
    case Drew(k, rest) =>
      match FillFrom(rest, n, len - 1)
      case NoDraw(why, end) => NoDraw(why, end)
      case Drew(ks, end) => Drew([k] + ks, end)
  }

  lemma {:induction false} FillIsBelow(tape: seq<word>, n: word, len: nat)
    requires FillFrom(tape, n, len).Drew?
    ensures Below(FillFrom(tape, n, len).value, n, len)
    decreases len
  {
    hide DrawBelow;
    if len > 0 {
      FillIsBelow(DrawBelow(tape, n).rest, n, len - 1);
    }
  }

  ghost predicate Below(ks: seq<nat>, n: word, len: nat) {
    |ks| == len && forall i :: 0 <= i < len ==> ks[i] < n
  }

  datatype MintError = BadSpec(spec: SpecError) | BadDraw(draw: DrawError) | Unlucky

  datatype Minting = Minted(indices: seq<nat>, rest: seq<word>) | NotMinted(why: MintError, rest: seq<word>)

  // Redraw the whole string until it is accepted.
  ghost function MintFrom(tape: seq<word>, accepted: iset<seq<nat>>, n: word, len: nat, attempts: nat): Minting
    decreases attempts
  {
    if attempts == 0 then NotMinted(Unlucky, tape) else
    match FillFrom(tape, n, len)
    case NoDraw(why, rest) => NotMinted(BadDraw(why), rest)
    case Drew(ks, rest) =>
      if ks in accepted then Minted(ks, rest) else MintFrom(rest, accepted, n, len, attempts - 1)
  }

  // ----- attempts, one after the other -----

  lemma {:induction false} FillJoinsFill(tape: seq<word>, n: word, a: nat, b: nat)
    ensures FillFrom(tape, n, a + b)
         == match FillFrom(tape, n, a)
            case NoDraw(why, rest) => NoDraw(why, rest)
            case Drew(ks, rest) => Prepend(ks, FillFrom(rest, n, b))
    decreases a
  {
    hide DrawBelow;
    if a == 0 {
      PrependNothing(FillFrom(tape, n, b));
    } else if DrawBelow(tape, n).Drew? {
      var one := DrawBelow(tape, n);
      FillJoinsFill(one.rest, n, a - 1, b);
      FillUnfolds(tape, n, a);
      FillUnfolds(tape, n, a + b);
      var front := FillFrom(one.rest, n, a - 1);
      if front.Drew? {
        var more := FillFrom(front.rest, n, b);
        if more.Drew? {
          assert [one.value] + (front.value + more.value) == ([one.value] + front.value) + more.value;
        }
      }
    }
  }

  // String `i` of a stream of drawn indices.
  function Block(ks: seq<nat>, len: nat, i: nat): seq<nat>
    requires (i + 1) * len <= |ks|
  {
    assert i * len <= (i + 1) * len;
    ks[i * len..(i + 1) * len]
  }

  // The first `a` strings of the stream are all turned down.
  ghost predicate Missed(ks: seq<nat>, accepted: iset<seq<nat>>, len: nat, a: nat) {
    |ks| == a * len && forall i: nat :: i < a ==> (i + 1) * len <= |ks| && Block(ks, len, i) !in accepted
  }

  lemma MissedGrows(head: seq<nat>, ks: seq<nat>, accepted: iset<seq<nat>>, len: nat, a: nat)
    requires |head| == len && head !in accepted && Missed(ks, accepted, len, a)
    ensures Missed(head + ks, accepted, len, a + 1)
  {
    var all := head + ks;
    assert (a + 1) * len == a * len + len;
    forall i: nat | i < a + 1 ensures (i + 1) * len <= |all| && Block(all, len, i) !in accepted {
      if i == 0 {
        assert all[0 * len..1 * len] == head;
      } else {
        BlockBehind(head, ks, len, i, a);
      }
    }
  }

  lemma BlockBehind(head: seq<nat>, ks: seq<nat>, len: nat, i: nat, a: nat)
    requires |head| == len && |ks| == a * len && 1 <= i <= a && i * len <= |ks|
    ensures (i + 1) * len <= |head + ks| && i - 1 + 1 == i && Block(head + ks, len, i) == Block(ks, len, i - 1)
  {
    assert (i + 1) * len == i * len + len && i * len == (i - 1) * len + len;
  }

  // What the outcome of minting says of the stream: it is the first accepted
  // string of at most `attempts`, and luck has run out only when so many were
  // all turned down.
  ghost predicate MintTells(tape: seq<word>, accepted: iset<seq<nat>>, n: word, len: nat, attempts: nat, m: Minting) {
    match m
    case Minted(s, rest) =>
      s in accepted && exists a: nat, ks :: a < attempts && Missed(ks, accepted, len, a)
                                            && FillFrom(tape, n, a * len + len) == Drew(ks + s, rest)
    case NotMinted(Unlucky, rest) =>
      exists ks :: Missed(ks, accepted, len, attempts) && FillFrom(tape, n, attempts * len) == Drew(ks, rest)
    case NotMinted(BadDraw(why), rest) =>
      exists a: nat :: a < attempts && FillFrom(tape, n, a * len + len) == NoDraw(why, rest)
    case NotMinted(BadSpec(_), _) => false
  }

  lemma {:induction false} MintIsFirstAccepted(tape: seq<word>, accepted: iset<seq<nat>>, n: word, len: nat, attempts: nat)
    ensures MintTells(tape, accepted, n, len, attempts, MintFrom(tape, accepted, n, len, attempts))
    decreases attempts
  {
    hide FillFrom;
    hide DrawBelow;
    if attempts == 0 {
      EmptyFill(tape, n);
      assert Missed([], accepted, len, 0) && 0 * len == 0;
    } else {
      assert 0 * len + len == len;
      match FillFrom(tape, n, len)
      case NoDraw(why, rest) =>
      case Drew(head, rest) =>
        FillHasLength(tape, n, len);
        if head in accepted {
          assert Missed([], accepted, len, 0) && [] + head == head;
        } else {
          MintIsFirstAccepted(rest, accepted, n, len, attempts - 1);
          AfterOneMiss(tape, accepted, n, len, attempts);
        }
    }
  }

  lemma AfterOneMiss(tape: seq<word>, accepted: iset<seq<nat>>, n: word, len: nat, attempts: nat)
    requires attempts > 0 && FillFrom(tape, n, len).Drew? && |FillFrom(tape, n, len).value| == len
    requires FillFrom(tape, n, len).value !in accepted
    requires MintTells(FillFrom(tape, n, len).rest, accepted, n, len, attempts - 1,
                       MintFrom(FillFrom(tape, n, len).rest, accepted, n, len, attempts - 1))
    ensures MintTells(tape, accepted, n, len, attempts, MintFrom(tape, accepted, n, len, attempts))
  {
    hide FillFrom;
    hide Missed;
    var head, rest := FillFrom(tape, n, len).value, FillFrom(tape, n, len).rest;
    match MintFrom(rest, accepted, n, len, attempts - 1)
    case Minted(s, end) =>
      var a: nat, ks :| a < attempts - 1 && Missed(ks, accepted, len, a) && FillFrom(rest, n, a * len + len) == Drew(ks + s, end);
      MissedGrows(head, ks, accepted, len, a);
      FillJoinsFill(tape, n, len, a * len + len);
      assert (a + 1) * len == a * len + len && head + (ks + s) == (head + ks) + s;
    case NotMinted(Unlucky, end) =>
      var ks :| Missed(ks, accepted, len, attempts - 1) && FillFrom(rest, n, (attempts - 1) * len) == Drew(ks, end);
      MissedGrows(head, ks, accepted, len, attempts - 1);
      FillJoinsFill(tape, n, len, (attempts - 1) * len);
      assert attempts * len == len + (attempts - 1) * len;
    case NotMinted(BadDraw(why), end) =>
      var a: nat :| a < attempts - 1 && FillFrom(rest, n, a * len + len) == NoDraw(why, end);
      FillJoinsFill(tape, n, len, a * len + len);
      assert (a + 1) * len == a * len + len;
    case NotMinted(BadSpec(_), _) =>
  }

  // A password is minted from at most 1000 strings.
  lemma AtMostAThousand(spec: PasswordSpec, tape: seq<word>)
    ensures MintTells(tape, AcceptedIndices(Concat(Enabled(spec)), ClassSets(Enabled(spec)), spec.length),
                      Range(spec), spec.length, 1000, MintFor(spec, tape))
  {
    hide MintTells;
    hide MintFrom;
    hide Enabled;
    MintIsFirstAccepted(tape, AcceptedIndices(Concat(Enabled(spec)), ClassSets(Enabled(spec)), spec.length),
                        Range(spec), spec.length, 1000);
  }

  lemma FillHasLength(tape: seq<word>, n: word, len: nat)
    requires FillFrom(tape, n, len).Drew?
    ensures |FillFrom(tape, n, len).value| == len
  {
    hide FillFrom;
    hide DrawBelow;
    FillIsBelow(tape, n, len);
  }

  // ----- the words one draw consumes -----

  ghost predicate Draws(p: seq<word>, n: word, k: nat) {
    if n <= 1 then n == 1 && p == [] && k == 0
    else
      && 1 <= |p| <= MAX_DRAWS && Span(n) > 0
      && p[|p| - 1] % Span(n) == k < n
      && forall i :: 0 <= i < |p| - 1 ==> p[i] % Span(n) >= n
  }

  function UsedBy(tape: seq<word>, rest: seq<word>): seq<word>
    requires |rest| <= |tape|
  {
    tape[..|tape| - |rest|]
  }

  lemma DrawConsumes(tape: seq<word>, n: word)
    requires DrawBelow(tape, n).Drew?
    ensures var d := DrawBelow(tape, n);
            tape == UsedBy(tape, d.rest) + d.rest && Draws(UsedBy(tape, d.rest), n, d.value)
  {
    hide Pow2;
    hide BitLength;
    hide DrawWithin;
    if n > 1 {
      Pow2IsPositive(BitLength(n - 1));
      DrawWithinIsFirst(tape, n, MAX_DRAWS);
    }
  }

  lemma {:induction false} DrawWithinReads(p: seq<word>, n: word, k: nat, left: nat, rest: seq<word>)
    requires n > 1 && Draws(p, n, k) && |p| <= left
    ensures DrawWithin(p + rest, n, left) == Drew(k, rest)
    decreases |p|
  {
    if |p| == 1 {
      assert (p + rest)[1..] == rest;
    } else {
      assert (p + rest)[1..] == p[1..] + rest;
      DrawWithinReads(p[1..], n, k, left - 1, rest);
    }
  }

  lemma DrawReads(p: seq<word>, n: word, k: nat, rest: seq<word>)
    requires Draws(p, n, k)
    ensures DrawBelow(p + rest, n) == Drew(k, rest)
  {
    if n == 1 {
      assert p + rest == rest;
    } else {
      DrawWithinReads(p, n, k, MAX_DRAWS, rest);
    }
  }

  // ----- trading one drawn value for another -----

  // The word with the same quotient and another residue.
  function Reword(w: word, n: word, k: nat): word
    requires n >= 2 && k < n
  {
    RewordFits(w, n, k);
    w / Span(n) * Span(n) + k
  }

  lemma RewordFits(w: word, n: word, k: nat)
    requires n >= 2 && k < n
    ensures Span(n) > 0
    ensures 0 <= w / Span(n) * Span(n) + k < WORDS
    ensures (w / Span(n) * Span(n) + k) % Span(n) == k
    ensures (w / Span(n) * Span(n) + k) / Span(n) == w / Span(n)
  {
    hide Pow2;
    hide BitLength;
    SpanIsTight(n);
    var span, blocks := Span(n), Pow2(32 - BitLength(n - 1));
    RewordFitsBlocks(w, span, blocks, k);
  }

  lemma RewordFitsBlocks(w: int, span: int, blocks: int, k: int)
    requires 0 <= k < span && 0 <= w < blocks * span
    ensures 0 <= w / span * span + k < blocks * span
    ensures (w / span * span + k) % span == k && (w / span * span + k) / span == w / span
  {
    var q := w / span;
    assert w == q * span + w % span;
    QuotientBelow(q, w % span, span, blocks);
    var v := q * span + k;
    Residue(v, q, span);
    SameQuotient(v / span, q, span);
  }

  lemma QuotientBelow(q: int, r: int, span: int, blocks: int)
    requires 0 <= r < span && 0 <= q * span + r < blocks * span
    ensures 0 <= q * span && (q + 1) * span <= blocks * span
  {
    assert q >= blocks ==> q * span >= blocks * span;
    assert q <= -1 ==> q * span <= -span;
    assert (q + 1) * span <= blocks * span;
  }

  lemma SameQuotient(a: int, b: int, d: int)
    requires d > 0 && a * d == b * d
    ensures a == b
  {
    assert (a - b) * d == 0;
  }

  function Swap(p: seq<word>, n: word, k: nat): seq<word>
    requires p != [] ==> n >= 2
    requires k < n
  {
    if p == [] then p else p[..|p| - 1] + [Reword(p[|p| - 1], n, k)]
  }

  lemma SwapDraws(p: seq<word>, n: word, j: nat, k: nat)
    requires Draws(p, n, j) && k < n
    ensures p != [] ==> n >= 2
    ensures Draws(Swap(p, n, k), n, k)
    ensures |Swap(p, n, k)| == |p|
    ensures Swap(Swap(p, n, k), n, j) == p
  {
    hide Pow2;
    hide BitLength;
    if n > 1 {
      var w := p[|p| - 1];
      RewordFits(w, n, k);
      RewordFits(Reword(w, n, k), n, j);
      Rebuild(w, Span(n));
      assert Swap(p, n, k)[..|p| - 1] == p[..|p| - 1];
    }
  }

  lemma Rebuild(w: int, d: int)
    requires d > 0
    ensures w / d * d + w % d == w
  {
  }

  // ----- trading one string of indices for another -----

  lemma FillUnfolds(tape: seq<word>, n: word, len: nat)
    requires len > 0 && DrawBelow(tape, n).Drew?
    ensures var one := DrawBelow(tape, n);
            FillFrom(tape, n, len) == Prepend([one.value], FillFrom(one.rest, n, len - 1))
  {
  }

  function Prepend(ks: seq<nat>, d: Drawing<seq<nat>>): Drawing<seq<nat>> {
    match d
    case NoDraw(why, rest) => NoDraw(why, rest)
    case Drew(more, rest) => Drew(ks + more, rest)
  }

  lemma FillStarts(tape: seq<word>, n: word, len: nat)
    requires len > 0 && FillFrom(tape, n, len).Drew?
    ensures DrawBelow(tape, n).Drew?
  {
  }

  lemma {:induction false} FillIsLocal(tape: seq<word>, n: word, len: nat, other: seq<word>)
    requires FillFrom(tape, n, len).Drew?
    ensures var d := FillFrom(tape, n, len);
            && tape == UsedBy(tape, d.rest) + d.rest
            && FillFrom(UsedBy(tape, d.rest) + other, n, len) == Drew(d.value, other)
    decreases len
  {
    hide DrawBelow;
    hide Draws;
    var end := FillFrom(tape, n, len).rest;
    if len == 0 {
      assert UsedBy(tape, end) + other == other;
    } else {
      FillLocalStep(tape, n, len, other);
    }
  }

  lemma FillLocalStep(tape: seq<word>, n: word, len: nat, other: seq<word>)
    requires len > 0 && FillFrom(tape, n, len).Drew?
    ensures var d := FillFrom(tape, n, len);
            && tape == UsedBy(tape, d.rest) + d.rest
            && FillFrom(UsedBy(tape, d.rest) + other, n, len) == Drew(d.value, other)
    decreases len, 0
  {
    hide DrawBelow;
    hide Draws;
    hide FillFrom;
    FillStarts(tape, n, len);
    FillUnfolds(tape, n, len);
    var end := FillFrom(tape, n, len).rest;
    var one := DrawBelow(tape, n);
    DrawConsumes(tape, n);
    FillIsLocal(one.rest, n, len - 1, other);
    var p, q := UsedBy(tape, one.rest), UsedBy(one.rest, end);
    assert tape == (p + q) + end;
    assert UsedBy(tape, end) == p + q;
    assert (p + q) + other == p + (q + other);
    DrawReads(p, n, one.value, q + other);
    FillUnfolds(p + (q + other), n, len);
  }

  ghost function SwapFill(tape: seq<word>, n: word, target: seq<nat>): seq<word>
    requires FillFrom(tape, n, |target|).Drew? && Below(target, n, |target|)
    decreases |target|
  {
    if target == [] then tape
    else
      var one := DrawBelow(tape, n);
      DrawConsumes(tape, n);
      Swap(UsedBy(tape, one.rest), n, target[0]) + SwapFill(one.rest, n, target[1..])
  }

  // One index and the rest of a fill.
  lemma FillSplits(tape: seq<word>, n: word, len: nat, ks: seq<nat>, rest: seq<word>)
    requires len > 0 && FillFrom(tape, n, len) == Drew(ks, rest) && Below(ks, n, len)
    ensures DrawBelow(tape, n).Drew?
    ensures var one := DrawBelow(tape, n);
            && ks[0] == one.value && FillFrom(one.rest, n, len - 1) == Drew(ks[1..], rest)
            && Below(ks[1..], n, len - 1)
  {
    hide DrawBelow;
    hide FillFrom;
    FillStarts(tape, n, len);
    FillUnfolds(tape, n, len);
    var one := DrawBelow(tape, n);
    assert ks == [one.value] + FillFrom(one.rest, n, len - 1).value;
  }

  lemma FillJoins(p: seq<word>, u: seq<word>, n: word, target: seq<nat>, rest: seq<word>)
    requires target != [] && Draws(p, n, target[0]) && FillFrom(u, n, |target| - 1) == Drew(target[1..], rest)
    ensures FillFrom(p + u, n, |target|) == Drew(target, rest)
    ensures DrawBelow(p + u, n) == Drew(target[0], u) && UsedBy(p + u, u) == p
  {
    hide DrawBelow;
    hide Draws;
    hide FillFrom;
    DrawReads(p, n, target[0], u);
    FillUnfolds(p + u, n, |target|);
    assert target == [target[0]] + target[1..];
  }

  lemma {:induction false} SwapFillDraws(tape: seq<word>, n: word, ks: seq<nat>, rest: seq<word>, target: seq<nat>)
    requires FillFrom(tape, n, |target|) == Drew(ks, rest)
    requires Below(ks, n, |target|) && Below(target, n, |target|)
    ensures var t := SwapFill(tape, n, target);
            && |t| == |tape|
            && FillFrom(t, n, |target|) == Drew(target, rest)
            && SwapFill(t, n, ks) == tape
    decreases |target|
  {
    hide DrawBelow;
    hide Draws;
    hide Swap;
    hide FillFrom;
    if target != [] {
      FillSplits(tape, n, |target|, ks, rest);
      var one := DrawBelow(tape, n);
      var p := UsedBy(tape, one.rest);
      DrawConsumes(tape, n);
      SwapDraws(p, n, one.value, target[0]);
      SwapFillDraws(one.rest, n, ks[1..], rest, target[1..]);
      FillJoins(Swap(p, n, target[0]), SwapFill(one.rest, n, target[1..]), n, target, rest);
    } else {
      EmptyFill(tape, n);
    }
  }

  lemma EmptyFill(tape: seq<word>, n: word)
    ensures FillFrom(tape, n, 0) == Drew([], tape)
  {
  }

  // ----- trading one minted string for another -----

  ghost predicate Mints(tape: seq<word>, accepted: iset<seq<nat>>, n: word, len: nat, attempts: nat, s: seq<nat>) {
    var m := MintFrom(tape, accepted, n, len, attempts);
    m.Minted? && m.indices == s
  }

  ghost function SwapMint(tape: seq<word>, accepted: iset<seq<nat>>, n: word, len: nat, attempts: nat, target: seq<nat>): seq<word>
    requires MintFrom(tape, accepted, n, len, attempts).Minted? && Below(target, n, len)
    decreases attempts
  {
    var d := FillFrom(tape, n, len);
    if d.value in accepted then SwapFill(tape, n, target)
    else UsedBy(tape, d.rest) + SwapMint(d.rest, accepted, n, len, attempts - 1, target)
  }

  lemma {:induction false} SwapMints(tape: seq<word>, accepted: iset<seq<nat>>, n: word, len: nat, attempts: nat,
                                     s: seq<nat>, target: seq<nat>)
    requires Mints(tape, accepted, n, len, attempts, s)
    requires target in accepted && Below(target, n, len)
    ensures Below(s, n, len) && s in accepted
    ensures var t := SwapMint(tape, accepted, n, len, attempts, target);
            && |t| == |tape|
            && Mints(t, accepted, n, len, attempts, target)
            && SwapMint(t, accepted, n, len, attempts, s) == tape
    decreases attempts
  {
    hide FillFrom;
    hide SwapFill;
    var d := FillFrom(tape, n, len);
    FillIsBelow(tape, n, len);
    if d.value in accepted {
      SwapFillDraws(tape, n, d.value, d.rest, target);
    } else {
      SwapMints(d.rest, accepted, n, len, attempts - 1, s, target);
      var rest := SwapMint(d.rest, accepted, n, len, attempts - 1, target);
      FillIsLocal(tape, n, len, rest);
      var t := UsedBy(tape, d.rest) + rest;
      assert t == SwapMint(tape, accepted, n, len, attempts, target);
      assert UsedBy(t, rest) == UsedBy(tape, d.rest);
    }
  }

  // ----- counting tapes -----

  ghost function AllWords(): set<word> {
    WordsBelow(WORDS)
  }

  ghost function WordsBelow(bound: nat): set<word>
    requires bound <= WORDS
  {
    if bound == 0 then {} else WordsBelow(bound - 1) + {bound - 1}
  }

  lemma {:induction false} InWordsBelow(bound: nat, w: word)
    requires w < bound <= WORDS
    ensures w in WordsBelow(bound)
  {
    if w < bound - 1 {
      InWordsBelow(bound - 1, w);
    }
  }

  lemma IsTape(tape: seq<word>, size: nat)
    ensures tape in Strings(AllWords(), size) <==> |tape| == size
  {
    InStrings(AllWords(), size, tape);
    forall i | 0 <= i < |tape| ensures tape[i] in AllWords() {
      InWordsBelow(WORDS, tape[i]);
    }
  }

  // The tapes of `size` words on which exactly this string comes out.
  ghost function TapesMinting(accepted: iset<seq<nat>>, n: word, len: nat, attempts: nat, s: seq<nat>, size: nat): set<seq<word>> {
    set t | t in Strings(AllWords(), size) && Mints(t, accepted, n, len, attempts, s)
  }

  lemma {:induction false} SwappedTapes(accepted: iset<seq<nat>>, n: word, len: nat, attempts: nat,
                                        s: seq<nat>, target: seq<nat>, size: nat, tapes: set<seq<word>>)
    returns (image: set<seq<word>>)
    requires target in accepted && Below(target, n, len)
    requires tapes <= TapesMinting(accepted, n, len, attempts, s, size)
    ensures image <= TapesMinting(accepted, n, len, attempts, target, size) && |image| == |tapes|
    ensures forall u :: u in image ==> exists t :: t in tapes && Mints(t, accepted, n, len, attempts, s)
                                                    && u == SwapMint(t, accepted, n, len, attempts, target)
    decreases |tapes|
  {
    hide MintFrom;
    hide SwapMint;
    if t :| t in tapes {
      var rest := SwappedTapes(accepted, n, len, attempts, s, target, size, tapes - {t});
      SwapMints(t, accepted, n, len, attempts, s, target);
      var u := SwapMint(t, accepted, n, len, attempts, target);
      IsTape(u, size);
      IsTape(t, size);
      if u in rest {
        var t' :| t' in tapes - {t} && Mints(t', accepted, n, len, attempts, s)
                  && u == SwapMint(t', accepted, n, len, attempts, target);
        SwapMints(t', accepted, n, len, attempts, s, target);
        assert false;
      }
      image := rest + {u};
    } else {
      image := {};
    }
  }

  // Exact uniformity: every acceptable string comes out on equally many tapes,
  // whatever the length of the tape.
  lemma MintingIsUniform(accepted: iset<seq<nat>>, n: word, len: nat, attempts: nat,
                         s: seq<nat>, t: seq<nat>, size: nat)
    requires s in accepted && Below(s, n, len) && t in accepted && Below(t, n, len)
    ensures |TapesMinting(accepted, n, len, attempts, s, size)| == |TapesMinting(accepted, n, len, attempts, t, size)|
  {
    var a, b := TapesMinting(accepted, n, len, attempts, s, size), TapesMinting(accepted, n, len, attempts, t, size);
    var x := SwappedTapes(accepted, n, len, attempts, s, t, size, a);
    var y := SwappedTapes(accepted, n, len, attempts, t, s, size, b);
    SubsetSize(x, b);
    SubsetSize(y, a);
  }

  lemma SubsetSize<T>(x: set<T>, y: set<T>)
    requires x <= y
    ensures |x| <= |y|
  {
    assert y == x + (y - x);
  }

  // ----- passwords -----

  function Spell(alphabet: seq<byte>, ks: seq<nat>): (s: seq<byte>)
    requires forall i :: 0 <= i < |ks| ==> ks[i] < |alphabet|
    ensures |s| == |ks| && forall i :: 0 <= i < |ks| ==> s[i] == alphabet[ks[i]]
  {
    seq(|ks|, i requires 0 <= i < |ks| => alphabet[ks[i]])
  }

  // No alphabet is anywhere near 2^32 long.
  lemma AlphabetIsSmall(spec: PasswordSpec)
    ensures |Concat(Enabled(spec))| == |Alphabet(spec)| <= 256
  {
    hide Enabled;
    hide Sum;
    EnabledIsProper(spec);
    var classes := Enabled(spec);
    AlphabetSize(classes, seq(|classes|, i requires 0 <= i < |classes| => |classes[i]|));
    BytesAreFew(Alphabet(spec), 256);
  }

  lemma {:induction false} BytesAreFew(s: set<byte>, bound: nat)
    requires bound <= 256 && forall b :: b in s ==> b < bound
    ensures |s| <= bound
  {
    if bound == 0 {
      assert s == {};
    } else {
      BytesAreFew(s - {bound - 1}, bound - 1);
    }
  }

  ghost function Range(spec: PasswordSpec): word {
    AlphabetIsSmall(spec);
    |Concat(Enabled(spec))|
  }

  // Index strings that spell a string with every class in it.
  ghost function AcceptedIndices(alphabet: seq<byte>, classes: seq<set<byte>>, len: nat): iset<seq<nat>> {
    iset ks: seq<nat> | |ks| == len && (forall i :: 0 <= i < |ks| ==> ks[i] < |alphabet|) && Covers(Spell(alphabet, ks), classes)
  }

  ghost function MintFor(spec: PasswordSpec, tape: seq<word>): Minting {
    MintFrom(tape, AcceptedIndices(Concat(Enabled(spec)), ClassSets(Enabled(spec)), spec.length),
             Range(spec), spec.length, MAX_CONSTRAINT_ATTEMPTS)
  }

  ghost predicate Yields(spec: PasswordSpec, tape: seq<word>, s: seq<byte>) {
    var m := MintFor(spec, tape);
    && m.Minted?
    && (forall i :: 0 <= i < |m.indices| ==> m.indices[i] < |Concat(Enabled(spec))|)
    && Spell(Concat(Enabled(spec)), m.indices) == s
  }

  method Password(spec: PasswordSpec, rng: Rng) returns (r: Result<seq<byte>, MintError>)
    modifies rng
    ensures !Generates(spec) <==> r.Err? && r.error.BadSpec?
    ensures !Generates(spec) ==> rng.tape == old(rng.tape)
    ensures r == Err(BadSpec(LengthZero)) <==> spec.length == 0
    ensures r == Err(BadSpec(LengthTooLong)) <==> spec.length > 512
    ensures r == Err(BadSpec(NoClassEnabled)) <==> 1 <= spec.length <= 512 && GroupsOn(spec) == 0
    ensures r == Err(BadSpec(LengthCannotHoldClasses)) <==> 1 <= spec.length <= 512 && spec.length < GroupsOn(spec)
    ensures r.Ok? ==> Yields(spec, old(rng.tape), r.value) && r.value in Acceptable(spec)
    ensures r.Ok? ==> IsPasswordOf(spec, r.value)
    ensures r.Ok? ==> MintFor(spec, old(rng.tape)).rest == rng.tape
    ensures r.Err? && Generates(spec) ==> MintFor(spec, old(rng.tape)) == NotMinted(r.error, rng.tape)
  {
    hide DrawBelow;
    hide MintFrom;
    hide FillFrom;
    hide Enabled;
    hide Describes;
    var built := Build(spec);
    if built.Err? {
      return Err(BadSpec(built.error));
    }
    var charset := built.value;
    AlphabetIsSmall(spec);
    DescribesBytes(charset, Enabled(spec));
    var scratch := new byte[spec.length];
    var range: word := |charset.bytes|;
    ghost var accepted := AcceptedIndices(charset.bytes, ClassSets(Enabled(spec)), spec.length);
    for attempt := 0 to MAX_CONSTRAINT_ATTEMPTS
      invariant MintFor(spec, old(rng.tape))
             == MintFrom(rng.tape, accepted, range, spec.length, MAX_CONSTRAINT_ATTEMPTS - attempt)
    {
      ghost var before := rng.tape;
      var failure, indices := FillScratch(rng, charset.bytes, range, scratch);
      MintUnfolds(before, accepted, range, spec.length, MAX_CONSTRAINT_ATTEMPTS - attempt);
      if failure.Some? {
        return Err(BadDraw(failure.value));
      }
      var present := AllClassesPresent(charset, scratch[..], Enabled(spec));
      if present {
        SpelledIsAcceptable(spec, indices);
        AcceptableAre(spec, scratch[..]);
        return Ok(scratch[..]);
      }
    }
    GivesUp(rng.tape, accepted, range, spec.length);
    r := Err(Unlucky);
  }

  // One pass over the scratch buffer.
  method FillScratch(rng: Rng, bytes: seq<byte>, range: word, scratch: array<byte>)
    returns (failure: Option<DrawError>, ghost indices: seq<nat>)
    requires range == |bytes|
    modifies rng, scratch
    ensures match failure
            case Some(why) => FillFrom(old(rng.tape), range, scratch.Length) == NoDraw(why, rng.tape)
            case None => && FillFrom(old(rng.tape), range, scratch.Length) == Drew(indices, rng.tape)
                         && Below(indices, range, scratch.Length)
                         && scratch[..] == Spell(bytes, indices)
  {
    hide DrawBelow;
    hide FillFrom;
    indices := [];
    PrependNothing(FillFrom(rng.tape, range, scratch.Length));
    for at := 0 to scratch.Length
      invariant Below(indices, range, at)
      invariant FillFrom(old(rng.tape), range, scratch.Length)
             == Prepend(indices, FillFrom(rng.tape, range, scratch.Length - at))
      invariant forall i :: 0 <= i < at ==> scratch[i] == bytes[indices[i]]
    {
      ghost var before := rng.tape;
      var k := UniformBelow(rng, range);
      FillStep(before, range, scratch.Length - at, indices);
      if k.Err? {
        return Some(k.error), indices;
      }
      DrawIsBelow(before, range);
      scratch[at] := bytes[k.value];
      indices := indices + [k.value];
    }
    EmptyFill(rng.tape, range);
    assert indices + [] == indices;
    assert scratch[..] == Spell(bytes, indices);
    failure := None;
  }

  lemma PrependNothing(d: Drawing<seq<nat>>)
    ensures Prepend([], d) == d
  {
    if d.Drew? {
      assert [] + d.value == d.value;
    }
  }

  lemma DrawIsBelow(tape: seq<word>, n: word)
    ensures DrawBelow(tape, n).Drew? ==> DrawBelow(tape, n).value < n
  {
  }

  lemma FillStep(tape: seq<word>, n: word, len: nat, ks: seq<nat>)
    requires len > 0
    ensures Prepend(ks, FillFrom(tape, n, len))
         == match DrawBelow(tape, n)
            case NoDraw(why, rest) => NoDraw(why, rest)
            case Drew(k, rest) => Prepend(ks + [k], FillFrom(rest, n, len - 1))
  {
    hide DrawBelow;
    match DrawBelow(tape, n)
    case NoDraw(_, _) =>
    case Drew(k, rest) =>
      match FillFrom(rest, n, len - 1)
      case NoDraw(_, _) =>
      case Drew(more, _) => assert ks + ([k] + more) == (ks + [k]) + more;
  }

  lemma MintUnfolds(tape: seq<word>, accepted: iset<seq<nat>>, n: word, len: nat, attempts: nat)
    requires attempts > 0
    ensures MintFrom(tape, accepted, n, len, attempts)
         == match FillFrom(tape, n, len)
            case NoDraw(why, rest) => NotMinted(BadDraw(why), rest)
            case Drew(ks, rest) =>
              if ks in accepted then Minted(ks, rest) else MintFrom(rest, accepted, n, len, attempts - 1)
  {
    hide FillFrom;
  }

  lemma GivesUp(tape: seq<word>, accepted: iset<seq<nat>>, n: word, len: nat)
    ensures MintFrom(tape, accepted, n, len, 0) == NotMinted(Unlucky, tape)
  {
  }

  lemma DescribesBytes(charset: Charset, classes: seq<seq<byte>>)
    requires Describes(charset, classes)
    ensures charset.bytes == Concat(classes)
  {
  }

  lemma SpelledIsAcceptable(spec: PasswordSpec, ks: seq<nat>)
    requires Below(ks, Range(spec), spec.length)
    requires Covers(Spell(Concat(Enabled(spec)), ks), ClassSets(Enabled(spec)))
    ensures Spell(Concat(Enabled(spec)), ks) in Acceptable(spec)
  {
    hide Covers;
    InStrings(Alphabet(spec), spec.length, Spell(Concat(Enabled(spec)), ks));
  }

  // ----- uniform over exactly the strings the strength figure counts -----

  ghost function TapesYielding(spec: PasswordSpec, s: seq<byte>, size: nat): set<seq<word>> {
    set t | t in Strings(AllWords(), size) && Yields(spec, t, s)
  }

  lemma IndicesSpelling(alphabet: seq<byte>, s: seq<byte>) returns (ks: seq<nat>)
    requires forall i :: 0 <= i < |s| ==> s[i] in alphabet
    ensures |ks| == |s| && (forall i :: 0 <= i < |ks| ==> ks[i] < |alphabet|) && Spell(alphabet, ks) == s
  {
    ks := [];
    for i := 0 to |s|
      invariant |ks| == i && forall j :: 0 <= j < i ==> ks[j] < |alphabet| && alphabet[ks[j]] == s[j]
    {
      var k :| 0 <= k < |alphabet| && alphabet[k] == s[i];
      ks := ks + [k];
    }
  }

  lemma DistinctWhenSetIsAsLarge(c: seq<byte>, i: nat, j: nat)
    requires |ClassSet(c)| == |c| && i < j < |c|
    ensures c[i] != c[j]
  {
    if c[i] == c[j] {
      var d := c[..j] + c[j + 1..];
      assert ClassSet(c) == ClassSet(d) by {
        forall b | b in c ensures b in d {
          var k :| 0 <= k < |c| && c[k] == b;
          if k < j { assert d[k] == b; } else if k > j { assert d[k - 1] == b; } else { assert d[i] == b; }
        }
      }
      SetIsNoLarger(d);
    }
  }

  lemma {:induction false} SetIsNoLarger(c: seq<byte>)
    ensures |ClassSet(c)| <= |c|
  {
    if c != [] {
      SetIsNoLarger(c[1..]);
      assert c == [c[0]] + c[1..];
      assert ClassSet(c) == ClassSet(c[1..]) + {c[0]};
    }
  }

  lemma SpellingIsRead(alphabet: seq<byte>, a: seq<nat>, b: seq<nat>)
    requires |ClassSet(alphabet)| == |alphabet| && |a| == |b|
    requires forall i :: 0 <= i < |a| ==> a[i] < |alphabet| && b[i] < |alphabet|
    requires Spell(alphabet, a) == Spell(alphabet, b)
    ensures a == b
  {
    forall i | 0 <= i < |a| ensures a[i] == b[i] {
      assert Spell(alphabet, a)[i] == Spell(alphabet, b)[i];
      if a[i] < b[i] { DistinctWhenSetIsAsLarge(alphabet, a[i], b[i]); }
      if a[i] > b[i] { DistinctWhenSetIsAsLarge(alphabet, b[i], a[i]); }
    }
  }

  lemma AcceptableHasIndices(spec: PasswordSpec, s: seq<byte>, size: nat) returns (ks: seq<nat>)
    requires s in Acceptable(spec)
    ensures Below(ks, Range(spec), spec.length)
    ensures ks in AcceptedIndices(Concat(Enabled(spec)), ClassSets(Enabled(spec)), spec.length)
    ensures TapesYielding(spec, s, size)
         == TapesMinting(AcceptedIndices(Concat(Enabled(spec)), ClassSets(Enabled(spec)), spec.length),
                         Range(spec), spec.length, MAX_CONSTRAINT_ATTEMPTS, ks, size)
  {
    hide Enabled;
    hide MintFrom;
    hide Covers;
    hide Spell;
    InStrings(Alphabet(spec), spec.length, s);
    var alphabet := Concat(Enabled(spec));
    AlphabetIsSmall(spec);
    ks := IndicesSpelling(alphabet, s);
    forall t ensures Yields(spec, t, s) <==> MintFor(spec, t).Minted? && MintFor(spec, t).indices == ks {
      if Yields(spec, t, s) {
        SpellingIsRead(alphabet, MintFor(spec, t).indices, ks);
      }
    }
  }

  // No acceptable password is likelier than another.
  lemma PasswordIsUniform(spec: PasswordSpec, s: seq<byte>, t: seq<byte>, size: nat)
    requires s in Acceptable(spec) && t in Acceptable(spec)
    ensures |TapesYielding(spec, s, size)| == |TapesYielding(spec, t, size)|
  {
    hide TapesYielding;
    var ks := AcceptableHasIndices(spec, s, size);
    var js := AcceptableHasIndices(spec, t, size);
    MintingIsUniform(AcceptedIndices(Concat(Enabled(spec)), ClassSets(Enabled(spec)), spec.length),
                     Range(spec), spec.length, MAX_CONSTRAINT_ATTEMPTS, ks, js, size);
  }

  // ----- every counted string is reached -----

  // A tape on which exactly these indices are drawn.
  function TapeFor(ks: seq<nat>, n: word): seq<word>
    requires Below(ks, n, |ks|)
  {
    if n <= 1 || ks == [] then [] else [ks[0] as word] + TapeFor(ks[1..], n)
  }

  lemma SpellsItself(k: nat, n: word)
    requires 2 <= n && k < n
    ensures Draws([k], n, k)
  {
    hide Pow2;
    hide BitLength;
    SpanCovers(n);
    SmallMod(k, Span(n));
  }

  lemma SpanCovers(n: word)
    requires n >= 2
    ensures n <= Span(n)
  {
    BitLengthBounds(n - 1);
  }

  lemma SmallMod(k: int, d: int)
    requires 0 <= k < d
    ensures k % d == k
  {
  }

  lemma {:induction false} TapeForDraws(ks: seq<nat>, n: word)
    requires Below(ks, n, |ks|)
    ensures FillFrom(TapeFor(ks, n), n, |ks|) == Drew(ks, [])
    decreases |ks|
  {
    hide DrawBelow;
    hide Draws;
    if ks != [] {
      assert ks[0] < n;
      TapeForDraws(ks[1..], n);
      var rest := TapeFor(ks[1..], n);
      if n > 1 {
        SpellsItself(ks[0], n);
        DrawReads([ks[0]], n, ks[0], rest);
      } else {
        OneValueNeedsNoWord(rest, n);
      }
      assert ks == [ks[0]] + ks[1..];
    }
  }

  lemma OneValueNeedsNoWord(tape: seq<word>, n: word)
    requires n == 1
    ensures DrawBelow(tape, n) == Drew(0, tape)
  {
  }

  // What the strength counts is no more than what the generator can produce.
  lemma ReachesEveryAcceptableString(spec: PasswordSpec, s: seq<byte>) returns (tape: seq<word>)
    requires s in Acceptable(spec)
    ensures Yields(spec, tape, s)
  {
    hide Enabled;
    hide Covers;
    hide FillFrom;
    InStrings(Alphabet(spec), spec.length, s);
    AlphabetIsSmall(spec);
    var ks := IndicesSpelling(Concat(Enabled(spec)), s);
    tape := TapeFor(ks, Range(spec));
    TapeForDraws(ks, Range(spec));
  }
}
