// Rejection sampling from 32-bit words: `uniform_below` of
// crates/blackbag-core/src/generate.rs.
//
// The random number generator is a finite tape of words. A run that wants more
// words than the tape holds ends in `TapeEnded`, which the system generator
// never does; every statement about what is drawn is for tapes of any length.
module UniformDraw {
  import opened Wrappers
  import opened Counting

  const WORDS: int := 0x1_0000_0000

  type word = n: int | 0 <= n < WORDS

  const MAX_DRAWS: nat := 256

  datatype DrawError = EmptyRange | Malfunction | TapeEnded

  // Binary digits of `m`: 32 less the leading zeros of a 32-bit `m`.
  function BitLength(m: nat): nat {
    if m == 0 then 0 else 1 + BitLength(m / 2)
  }

  // One more than the mask; masking a word is taking it modulo this.
  function Span(n: nat): nat
    requires n >= 1
  {
    Pow2(BitLength(n - 1))
  }

  lemma {:induction false} BitLengthBounds(m: nat)
    ensures m < Pow2(BitLength(m)) && (m > 0 ==> Pow2(BitLength(m)) <= 2 * m)
  {
    if m > 0 {
      BitLengthBounds(m / 2);
    }
  }

  lemma {:induction false} Pow2Splits(k: nat, n: nat)
    requires k <= n
    ensures Pow2(n) == Pow2(n - k) * Pow2(k)
  {
    if k < n {
      Pow2Splits(k, n - 1);
      Twice(Pow2(n - 1 - k), Pow2(k));
    }
  }

  lemma Twice(a: int, b: int)
    ensures 2 * (a * b) == (2 * a) * b
  {
  }

  lemma WordsIsPow2()
    ensures Pow2(32) == WORDS && Pow2(33) == 2 * WORDS
  {
    assert Pow2(4) == 16;
    assert Pow2(8) == 256;
    assert Pow2(12) == 4096;
    assert Pow2(16) == 65536;
    assert Pow2(20) == 1048576;
    assert Pow2(24) == 16777216;
    assert Pow2(28) == 268435456;
  }

  lemma {:induction false} Pow2Monotone(j: nat, k: nat)
    requires j <= k
    ensures Pow2(j) <= Pow2(k)
  {
    Pow2IsPositive(j);
    if j < k {
      Pow2Monotone(j, k - 1);
      Pow2IsPositive(k - 1);
    }
  }

  // The mask is tight: more than half of all draws are accepted.
  lemma SpanIsTight(n: nat)
    requires 2 <= n <= WORDS
    ensures n <= Span(n) < 2 * n
    ensures BitLength(n - 1) <= 32 && Span(n) * Pow2(32 - BitLength(n - 1)) == WORDS
  {
    hide Pow2;
    hide BitLength;
    BitLengthBounds(n - 1);
    WordsIsPow2();
    var b := BitLength(n - 1);
    if b > 32 {
      Pow2Monotone(33, b);
    }
    Pow2Splits(b, 32);
  }

  // ----- every value has equally many words -----

  ghost function Hits(bound: int, span: int, k: int): set<int>
    requires span > 0
  {
    set w | 0 <= w < bound && w % span == k
  }

  lemma OneHitMore(low: nat, q: nat, span: int, k: int, w: int)
    requires 0 <= k < span && low == q * span
    ensures w in Hits(low + span, span, k) <==> w in Hits(low, span, k) || w == low + k
  {
    if low <= w < low + span {
      Residue(w, q, span);
    }
  }

  lemma {:induction false} HitsPerBlock(blocks: nat, span: int, k: int)
    requires 0 <= k < span
    ensures |Hits(blocks * span, span, k)| == blocks
  {
    if blocks == 0 {
      assert Hits(0, span, k) == {};
    } else {
      HitsPerBlock(blocks - 1, span, k);
      var low := (blocks - 1) * span;
      assert blocks * span == low + span;
      forall w ensures w in Hits(low + span, span, k) <==> w in Hits(low, span, k) || w == low + k {
        OneHitMore(low, blocks - 1, span, k, w);
      }
      assert Hits(low + span, span, k) == Hits(low, span, k) + {low + k};
    }
  }

  lemma Residue(w: int, q: int, span: int)
    requires span > 0 && q * span <= w < (q + 1) * span
    ensures w % span == w - q * span
  {
    var e := w / span - q;
    assert e * span == (w - q * span) - w % span;
    assert e >= 1 ==> e * span >= span;
    assert e <= -1 ==> e * span <= -span;
  }

  // Exact uniformity of one masked draw.
  lemma EveryValueHasEquallyManyWords(n: nat, k: nat)
    requires 2 <= n <= WORDS && k < n
    ensures Span(n) > 0 && |Hits(WORDS, Span(n), k)| * Span(n) == WORDS
  {
    hide Pow2;
    hide Hits;
    hide BitLength;
    SpanIsTight(n);
    var span, blocks := Span(n), Pow2(32 - BitLength(n - 1));
    Pow2IsPositive(32 - BitLength(n - 1));
    assert blocks * span == WORDS;
    HitsPerBlock(blocks, span, k);
  }

  // ----- drawing -----

  datatype Drawing<T> = Drew(value: T, rest: seq<word>) | NoDraw(why: DrawError, rest: seq<word>)

  function DrawWithin(tape: seq<word>, n: nat, left: nat): (d: Drawing<nat>)
    requires n >= 1 && Span(n) > 0
    ensures d.Drew? ==> d.value < n && |d.rest| < |tape|
    decreases left
  {
    if left == 0 then NoDraw(Malfunction, tape)
    else if tape == [] then NoDraw(TapeEnded, [])
    else
      var candidate := tape[0] % Span(n);
      if candidate < n then Drew(candidate, tape[1..]) else DrawWithin(tape[1..], n, left - 1)
  }

  function DrawBelow(tape: seq<word>, n: word): (d: Drawing<nat>)
    ensures d.Drew? ==> d.value < n && |d.rest| <= |tape|
  {
    if n == 0 then NoDraw(EmptyRange, tape)
    else if n == 1 then Drew(0, tape)
    else
      assert Span(n) > 0 by { Pow2IsPositive(BitLength(n - 1)); }
      DrawWithin(tape, n, MAX_DRAWS)
  }

  // The first in-range draw, and failure only after MAX_DRAWS misses.
  lemma {:induction false} DrawWithinIsFirst(tape: seq<word>, n: nat, left: nat)
    requires n >= 1 && Span(n) > 0
    ensures var d := DrawWithin(tape, n, left);
            && |d.rest| <= |tape|
            && var used := |tape| - |d.rest|;
               && used <= left && d.rest == tape[used..]
               && (d.Drew? ==> used > 0 && d.value == tape[used - 1] % Span(n) < n
                               && forall i :: 0 <= i < used - 1 ==> tape[i] % Span(n) >= n)
               && (d.NoDraw? ==> forall i :: 0 <= i < used ==> tape[i] % Span(n) >= n)
               && (d.NoDraw? ==> d.why == (if used == left then Malfunction else TapeEnded))
               && (d.NoDraw? && used < left ==> used == |tape|)
  {
    if left > 0 && tape != [] && tape[0] % Span(n) >= n {
      DrawWithinIsFirst(tape[1..], n, left - 1);
      var d := DrawWithin(tape[1..], n, left - 1);
      var used := |tape| - |d.rest|;
      assert forall i :: 0 < i <= |tape[1..]| - |d.rest| ==> tape[i] == tape[1..][i - 1];
    }
  }

  class Rng {
    var tape: seq<word>

    constructor (tape: seq<word>)
      ensures this.tape == tape
    {
      this.tape := tape;
    }

    method NextU32() returns (w: Option<word>)
      modifies this
      ensures old(tape) == [] ==> w == None && tape == []
      ensures old(tape) != [] ==> w == Some(old(tape)[0]) && tape == old(tape)[1..]
    {
      if tape == [] {
        return None;
      }
      w := Some(tape[0]);
      tape := tape[1..];
    }
  }

  lemma MaskIs(n: nat)
    requires 2 <= n <= WORDS
    ensures var bits := BitLength(n - 1);
            bits <= 32 && Span(n) >= n
            && (if bits >= 32 then WORDS - 1 else Pow2(bits) - 1) == Span(n) - 1
  {
    hide Pow2;
    hide BitLength;
    SpanIsTight(n);
    WordsIsPow2();
  }

  lemma DrawStep(tape: seq<word>, n: nat, left: nat)
    requires n >= 1 && Span(n) > 0 && left > 0
    ensures DrawWithin(tape, n, left)
         == if tape == [] then NoDraw(TapeEnded, [])
            else if tape[0] % Span(n) < n then Drew(tape[0] % Span(n), tape[1..])
            else DrawWithin(tape[1..], n, left - 1)
  {
  }

  // The first of at most 256 masked words that is in range, and what was drawn
  // before it is gone; no value only if none of them is.
  ghost predicate FirstInRange(tape: seq<word>, n: nat, r: Result<nat, DrawError>, rest: seq<word>)
    requires n >= 2
  {
    Pow2IsPositive(BitLength(n - 1));
    var used := |tape| - |rest|;
    && 0 <= used <= 256 && rest == tape[used..]
    && match r
       case Ok(k) => used > 0 && k == tape[used - 1] % Span(n) < n && forall i :: 0 <= i < used - 1 ==> tape[i] % Span(n) >= n
       case Err(why) =>
         && (forall i :: 0 <= i < used ==> tape[i] % Span(n) >= n)
         && why == (if used == 256 then Malfunction else TapeEnded)
         && (used < 256 ==> rest == [])
  }

  lemma DrawIsFirstInRange(tape: seq<word>, n: word)
    requires n >= 2
    ensures FirstInRange(tape, n, match DrawBelow(tape, n) case Drew(k, _) => Ok(k) case NoDraw(why, _) => Err(why),
                         DrawBelow(tape, n).rest)
  {
    Pow2IsPositive(BitLength(n - 1));
    DrawWithinIsFirst(tape, n, MAX_DRAWS);
  }

  method UniformBelow(rng: Rng, n: word) returns (r: Result<nat, DrawError>)
    modifies rng
    ensures DrawBelow(old(rng.tape), n)
         == match r case Ok(k) => Drew(k, rng.tape) case Err(why) => NoDraw(why, rng.tape)
    ensures n == 0 ==> r == Err(EmptyRange) && rng.tape == old(rng.tape)
    ensures n == 1 ==> r == Ok(0) && rng.tape == old(rng.tape)
  {
    hide Pow2;
    hide BitLength;
    hide Span;
    hide DrawWithin;
    if n == 0 {
      return Err(EmptyRange);
    }
    if n == 1 {
      return Ok(0);
    }
    MaskIs(n);
    var bits := BitLength(n - 1);
    var mask := if bits >= 32 then WORDS - 1 else Pow2(bits) - 1;
    for i := 0 to MAX_DRAWS
      invariant DrawBelow(old(rng.tape), n) == DrawWithin(rng.tape, n, MAX_DRAWS - i)
    {
      DrawStep(rng.tape, n, MAX_DRAWS - i);
      var w := rng.NextU32();
      if w.None? {
        return Err(TapeEnded);
      }
      var candidate := w.value % (mask + 1);
      if candidate < n {
        return Ok(candidate);
      }
    }
    NoDrawsLeft(rng.tape, n);
    r := Err(Malfunction);
  }

  lemma NoDrawsLeft(tape: seq<word>, n: nat)
    requires n >= 1 && Span(n) > 0
    ensures DrawWithin(tape, n, 0) == NoDraw(Malfunction, tape)
  {
  }
}
