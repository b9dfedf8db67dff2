// Passphrase minting of crates/blackbag-core/src/generate.rs, over any word
// list of the shape the embedded one has.
module Passphrase {
  import opened Wrappers
  import opened Bytes
  import opened Text
  import opened UniformDraw

  const MAX_PASSPHRASE_WORDS: nat := 64
  const LIST_LENGTH: nat := 512

  datatype PassphraseSpec = PassphraseSpec(words: nat, separator: char, capitalise: bool)

  datatype PhraseError = NoWords | TooManyWords | ControlSeparator | BadDraw(why: DrawError)

  // ----- characters and bytes -----

  // The Unicode control characters, general category Cc.
  predicate IsControl(c: char) {
    c as int < 32 || 127 <= c as int < 160
  }

  predicate IsLower(b: byte) {
    97 <= b <= 122
  }

  predicate IsUpper(b: byte) {
    65 <= b <= 90
  }

  predicate IsLetter(b: byte) {
    IsLower(b) || IsUpper(b)
  }

  predicate IsAsciiLetter(c: char) {
    'a' <= c <= 'z' || 'A' <= c <= 'Z'
  }

  function ToUpper(b: byte): byte {
    if IsLower(b) then b - 32 else b
  }

  lemma SeparatorStartsOutsideLetters(c: char)
    ensures IsLetter(EncodeUtf8(c)[0]) <==> IsAsciiLetter(c)
  {
  }

  // ----- word lists -----

  // What the embedded list is documented to be.
  ghost predicate WordList(words: seq<seq<byte>>) {
    && |words| == LIST_LENGTH
    && (forall i :: 0 <= i < |words| ==> Lowercase(words[i]))
    && (forall i, j :: 0 <= i < j < |words| ==> words[i] != words[j])
  }

  predicate Lowercase(w: seq<byte>) {
    w != [] && forall k :: 0 <= k < |w| ==> IsLower(w[k])
  }

  ghost predicate PrefixFree(words: seq<seq<byte>>) {
    forall i, j :: 0 <= i < |words| && 0 <= j < |words| && i != j ==> !(words[i] <= words[j])
  }

  function Dress(w: seq<byte>, capitalise: bool): (d: seq<byte>)
    ensures |d| == |w|
  {
    if capitalise && w != [] then [ToUpper(w[0])] + w[1..] else w
  }

  // Dressing a word makes its first letter a capital when asked to, and
  // nothing else.
  lemma DressIs(w: seq<byte>, capitalise: bool)
    requires Lowercase(w)
    ensures Dress(w, capitalise)[1..] == w[1..]
    ensures Dress(w, capitalise)[0] == if capitalise then w[0] - 32 else w[0]
    ensures 65 <= w[0] - 32 <= 90
  {
  }

  // ----- the phrase -----

  ghost predicate Picks(picks: seq<nat>, words: seq<seq<byte>>) {
    forall i :: 0 <= i < |picks| ==> picks[i] < |words|
  }

  // The words, dressed and joined by the separator.
  function Phrase(picks: seq<nat>, words: seq<seq<byte>>, sep: seq<byte>, capitalise: bool): seq<byte>
    requires Picks(picks, words)
  {
    if picks == [] then []
    else
      var last := Dress(words[picks[|picks| - 1]], capitalise);
      if |picks| == 1 then last
      else Phrase(picks[..|picks| - 1], words, sep, capitalise) + sep + last
  }

  function TotalLength(picks: seq<nat>, words: seq<seq<byte>>): nat
    requires Picks(picks, words)
  {
    if picks == [] then 0 else TotalLength(picks[..|picks| - 1], words) + |words[picks[|picks| - 1]]|
  }

  lemma {:induction false} PhraseLength(picks: seq<nat>, words: seq<seq<byte>>, sep: seq<byte>, capitalise: bool)
    requires Picks(picks, words) && picks != []
    ensures |Phrase(picks, words, sep, capitalise)| == TotalLength(picks, words) + |sep| * (|picks| - 1)
  {
    if |picks| > 1 {
      PhraseLength(picks[..|picks| - 1], words, sep, capitalise);
      assert |sep| * (|picks| - 1) == |sep| * (|picks| - 2) + |sep|;
    }
  }

  function Validate(spec: PassphraseSpec): Option<PhraseError> {
    if spec.words == 0 then Some(NoWords)
    else if spec.words > MAX_PASSPHRASE_WORDS then Some(TooManyWords)
    else if IsControl(spec.separator) then Some(ControlSeparator)
    else None
  }

  // One index for each word of tape, its low nine bits.
  function PicksOf(tape: seq<word>, n: nat): (picks: seq<nat>)
    requires n <= |tape|
    ensures |picks| == n && forall i :: 0 <= i < n ==> picks[i] == tape[i] % LIST_LENGTH
  {
    seq(n, i requires 0 <= i < n => tape[i] % LIST_LENGTH)
  }

  // A power of two rejects no draw.
  lemma NoDrawIsRejected(tape: seq<word>)
    ensures DrawBelow(tape, LIST_LENGTH)
         == if tape == [] then NoDraw(TapeEnded, []) else Drew(tape[0] % LIST_LENGTH, tape[1..])
  {
    assert Span(LIST_LENGTH) == LIST_LENGTH;
  }

  method Passphrase(spec: PassphraseSpec, words: seq<seq<byte>>, rng: Rng) returns (r: Result<seq<byte>, PhraseError>)
    requires WordList(words)
    modifies rng
    ensures Validate(spec).Some? ==> r == Err(Validate(spec).value) && rng.tape == old(rng.tape)
    ensures r == Err(NoWords) <==> spec.words == 0
    ensures r == Err(TooManyWords) <==> spec.words > 64
    ensures r == Err(ControlSeparator) <==>
            1 <= spec.words <= 64 && (spec.separator as int < 32 || 127 <= spec.separator as int <= 159)
    ensures Validate(spec).None? <==> r.Ok? || r.error.BadDraw?
    ensures Validate(spec).None? && spec.words <= |old(rng.tape)| ==>
      && r == Ok(Phrase(PicksOf(old(rng.tape), spec.words), words, EncodeUtf8(spec.separator), spec.capitalise))
      && rng.tape == old(rng.tape)[spec.words..]
    ensures Validate(spec).None? && spec.words > |old(rng.tape)| ==> r == Err(BadDraw(TapeEnded)) && rng.tape == []
  {
    var objection := Validate(spec);
    if objection.Some? {
      return Err(objection.value);
    }
    var failure, drawn := DrawPicks(spec.words, rng);
    if failure.Some? {
      return Err(BadDraw(failure.value));
    }
    var separator := EncodeUtf8(spec.separator);
    var phrase := Assemble(drawn, words, separator, spec.capitalise);
    r := Ok(phrase);
  }

  method DrawPicks(count: nat, rng: Rng) returns (failure: Option<DrawError>, picks: seq<nat>)
    modifies rng
    ensures count <= |old(rng.tape)| ==>
      failure == None && picks == PicksOf(old(rng.tape), count) && rng.tape == old(rng.tape)[count..]
    ensures count > |old(rng.tape)| ==> failure == Some(TapeEnded) && rng.tape == []
  {
    hide DrawBelow;
    ghost var tape := rng.tape;
    picks := [];
    for i := 0 to count
      invariant i <= |tape| && rng.tape == tape[i..] && picks == PicksOf(tape, i)
    {
      NoDrawIsRejected(rng.tape);
      var k := UniformBelow(rng, LIST_LENGTH);
      if k.Err? {
        return Some(k.error), picks;
      }
      picks := picks + [k.value];
    }
    failure := None;
  }

  // Fill a buffer of the precomputed length, word by word.
  method Assemble(picks: seq<nat>, words: seq<seq<byte>>, separator: seq<byte>, capitalise: bool)
    returns (phrase: seq<byte>)
    requires Picks(picks, words) && picks != [] && separator != []
    requires forall i :: 0 <= i < |words| ==> words[i] != []
    ensures phrase == Phrase(picks, words, separator, capitalise)
  {
    hide Phrase;
    hide Dress;
    hide TotalLength;
    var sum := WordBytes(picks, words);
    var total := sum + |separator| * (|picks| - 1);
    PhraseLength(picks, words, separator, capitalise);

    var scratch := new byte[total];
    var at := 0;
    NothingYet(picks, words, separator, capitalise);
    for position := 0 to |picks|
      invariant 0 <= at <= total && scratch[..at] == Phrase(picks[..position], words, separator, capitalise)
    {
      PhraseFits(picks, position + 1, words, separator, capitalise);
      PhraseGrows(picks, position, words, separator, capitalise);
      ghost var start := scratch[..at];
      if position > 0 {
        PlainDress(separator);
        at := CopyInto(scratch, at, separator, false);
      }
      assert scratch[..at] == start + (if position > 0 then separator else []);
      at := CopyInto(scratch, at, words[picks[position]], capitalise);
    }
    assert picks[..|picks|] == picks;
    assert at == total;
    phrase := scratch[..];
  }

  method WordBytes(picks: seq<nat>, words: seq<seq<byte>>) returns (sum: nat)
    requires Picks(picks, words)
    ensures sum == TotalLength(picks, words)
  {
    sum := 0;
    for i := 0 to |picks|
      invariant sum == TotalLength(picks[..i], words)
    {
      assert picks[..i + 1][..i] == picks[..i];
      sum := sum + |words[picks[i]]|;
    }
    assert picks[..|picks|] == picks;
  }

  lemma PlainDress(s: seq<byte>)
    ensures Dress(s, false) == s
  {
  }

  lemma NothingYet(picks: seq<nat>, words: seq<seq<byte>>, sep: seq<byte>, capitalise: bool)
    requires Picks(picks, words)
    ensures Phrase(picks[..0], words, sep, capitalise) == []
  {
  }

  lemma PhraseGrows(picks: seq<nat>, n: nat, words: seq<seq<byte>>, sep: seq<byte>, capitalise: bool)
    requires Picks(picks, words) && n < |picks|
    ensures Phrase(picks[..n + 1], words, sep, capitalise)
         == Phrase(picks[..n], words, sep, capitalise) + (if n > 0 then sep else [])
            + Dress(words[picks[n]], capitalise)
  {
    assert picks[..n + 1][..n] == picks[..n];
  }

  // Copy `s` at the cursor, upper-case its first byte when asked to, and
  // return the advanced cursor.
  method CopyInto(a: array<byte>, at: nat, s: seq<byte>, capitalise: bool) returns (after: nat)
    requires at + |s| <= a.Length && s != []
    modifies a
    ensures after == at + |s|
    ensures a[..after] == old(a[..at]) + Dress(s, capitalise)
  {
    for k := 0 to |s|
      invariant forall j :: 0 <= j < at ==> a[j] == old(a[j])
      invariant forall j :: 0 <= j < k ==> a[at + j] == s[j]
    {
      a[at + k] := s[k];
    }
    if capitalise {
      a[at] := ToUpper(a[at]);
    }
    after := at + |s|;
    assert a[at..after] == Dress(s, capitalise);
    assert a[..at] == old(a[..at]);
  }

  lemma {:induction false} PhraseFits(picks: seq<nat>, n: nat, words: seq<seq<byte>>, sep: seq<byte>, capitalise: bool)
    requires Picks(picks, words) && 1 <= n <= |picks|
    ensures |Phrase(picks[..n], words, sep, capitalise)| <= |Phrase(picks, words, sep, capitalise)|
    decreases |picks| - n
  {
    hide Phrase;
    hide Dress;
    if n == |picks| {
      assert picks[..n] == picks;
    } else {
      PhraseGrows(picks, n, words, sep, capitalise);
      PhraseFits(picks, n + 1, words, sep, capitalise);
    }
  }

  // ----- different picks, different phrases -----

  lemma {:induction false} PhraseFront(picks: seq<nat>, words: seq<seq<byte>>, sep: seq<byte>, capitalise: bool)
    requires Picks(picks, words) && picks != []
    ensures Phrase(picks, words, sep, capitalise)
         == Dress(words[picks[0]], capitalise)
            + (if |picks| == 1 then [] else sep + Phrase(picks[1..], words, sep, capitalise))
  {
    hide Phrase;
    hide Dress;
    PhraseOfOne(picks[0], words, sep, capitalise);
    if |picks| == 1 {
      assert picks == [picks[0]];
    } else {
      var n := |picks| - 1;
      PhraseFront(picks[..n], words, sep, capitalise);
      PhraseGrows(picks, n, words, sep, capitalise);
      PhraseGrows(picks[1..], n - 1, words, sep, capitalise);
      assert picks[..n + 1] == picks && picks[1..][..n] == picks[1..];
      assert picks[..n][1..] == picks[1..][..n - 1];
      var first, last := Dress(words[picks[0]], capitalise), Dress(words[picks[n]], capitalise);
      if n == 1 {
        NothingYet(picks[1..], words, sep, capitalise);
        assert first + [] + sep + last == first + (sep + ([] + [] + last));
      } else {
        var middle := Phrase(picks[1..][..n - 1], words, sep, capitalise);
        assert first + (sep + middle) + sep + last == first + (sep + (middle + sep + last));
      }
    }
  }

  lemma PhraseOfOne(pick: nat, words: seq<seq<byte>>, sep: seq<byte>, capitalise: bool)
    requires pick < |words|
    ensures Phrase([pick], words, sep, capitalise) == Dress(words[pick], capitalise)
  {
  }

  // A separator that does not start with a letter, or a list in which no word
  // begins another.
  ghost predicate Decodable(words: seq<seq<byte>>, sep: seq<byte>) {
    PrefixFree(words) || (sep != [] && !IsLetter(sep[0]))
  }

  lemma DressedLetters(w: seq<byte>, capitalise: bool)
    requires Lowercase(w)
    ensures forall k :: 0 <= k < |w| ==> IsLetter(Dress(w, capitalise)[k])
  {
  }

  lemma DressedPrefix(v: seq<byte>, w: seq<byte>, capitalise: bool)
    requires Lowercase(v) && Lowercase(w) && Dress(v, capitalise) <= Dress(w, capitalise)
    ensures v <= w
  {
    forall k | 0 <= k < |v| ensures v[k] == w[k] {
      assert Dress(v, capitalise)[k] == Dress(w, capitalise)[k];
    }
  }

  // The first word can be read off the phrase.
  lemma FirstWord(words: seq<seq<byte>>, sep: seq<byte>, capitalise: bool,
                  i: nat, j: nat, x: seq<byte>, y: seq<byte>)
    requires WordList(words) && Decodable(words, sep) && i < |words| && j < |words|
    requires (x == [] && y == []) || (sep <= x && sep <= y)
    requires Dress(words[i], capitalise) + x == Dress(words[j], capitalise) + y
    ensures i == j && x == y
  {
    if |words[i]| <= |words[j]| {
      FirstWordIsPrefix(words, sep, capitalise, i, j, x, y);
    } else {
      FirstWordIsPrefix(words, sep, capitalise, j, i, y, x);
    }
    assert x == (Dress(words[i], capitalise) + x)[|words[i]|..];
    assert y == (Dress(words[j], capitalise) + y)[|words[j]|..];
  }

  lemma FirstWordIsPrefix(words: seq<seq<byte>>, sep: seq<byte>, capitalise: bool,
                          i: nat, j: nat, x: seq<byte>, y: seq<byte>)
    requires WordList(words) && Decodable(words, sep) && i < |words| && j < |words| && |words[i]| <= |words[j]|
    requires (x == [] && y == []) || (sep <= x && sep <= y)
    requires Dress(words[i], capitalise) + x == Dress(words[j], capitalise) + y
    ensures i == j
  {
    var v, w := Dress(words[i], capitalise), Dress(words[j], capitalise);
    var p := v + x;
    assert p[..|v|] == v && p[..|w|] == w && w[..|v|] == v;
    DressedPrefix(words[i], words[j], capitalise);
    DressedLetters(words[j], capitalise);
    NextByte(v, x, w, y);
  }

  lemma NextByte(v: seq<byte>, x: seq<byte>, w: seq<byte>, y: seq<byte>)
    requires v + x == w + y
    ensures |v| < |w| ==> x != [] && x[0] == w[|v|]
  {
    if |v| < |w| {
      assert |v + x| == |w + y|;
      assert (v + x)[|v|] == (w + y)[|v|];
    }
  }

  lemma {:induction false} PhraseDeterminesPicks(words: seq<seq<byte>>, sep: seq<byte>, capitalise: bool,
                                                 a: seq<nat>, b: seq<nat>)
    requires WordList(words) && Decodable(words, sep)
    requires Picks(a, words) && Picks(b, words) && |a| == |b|
    requires Phrase(a, words, sep, capitalise) == Phrase(b, words, sep, capitalise)
    ensures a == b
    decreases |a|
  {
    hide Phrase;
    hide Dress;
    hide WordList;
    hide Decodable;
    if a != [] {
      PhraseFront(a, words, sep, capitalise);
      PhraseFront(b, words, sep, capitalise);
      var x := if |a| == 1 then [] else sep + Phrase(a[1..], words, sep, capitalise);
      var y := if |b| == 1 then [] else sep + Phrase(b[1..], words, sep, capitalise);
      FirstWord(words, sep, capitalise, a[0], b[0], x, y);
      if |a| > 1 {
        assert x[|sep|..] == Phrase(a[1..], words, sep, capitalise);
        assert y[|sep|..] == Phrase(b[1..], words, sep, capitalise);
        PhraseDeterminesPicks(words, sep, capitalise, a[1..], b[1..]);
      }
      assert a == [a[0]] + a[1..] && b == [b[0]] + b[1..];
    }
  }

  // For the separators a specification can name.
  lemma DifferentPicksDifferentPhrases(spec: PassphraseSpec, words: seq<seq<byte>>, a: seq<nat>, b: seq<nat>)
    requires WordList(words) && (PrefixFree(words) || !IsAsciiLetter(spec.separator))
    requires Picks(a, words) && Picks(b, words) && |a| == |b| == spec.words && a != b
    ensures Phrase(a, words, EncodeUtf8(spec.separator), spec.capitalise)
         != Phrase(b, words, EncodeUtf8(spec.separator), spec.capitalise)
  {
    var sep := EncodeUtf8(spec.separator);
    SeparatorStartsOutsideLetters(spec.separator);
    if Phrase(a, words, sep, spec.capitalise) == Phrase(b, words, sep, spec.capitalise) {
      PhraseDeterminesPicks(words, sep, spec.capitalise, a, b);
    }
  }
}
