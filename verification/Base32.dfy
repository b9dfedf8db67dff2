// Base 32 without padding, section 6 of RFC 4648, and the tolerant reader of
// crates/blackbag-core/src/session.rs.
module Base32 {
  import opened Wrappers
  import opened Bytes
  import opened Text

  // ----- bit strings, most significant bit first -----

  function Pow2(k: nat): nat {
    if k == 0 then 1 else 2 * Pow2(k - 1)
  }

  function Bits(n: nat, width: nat): (b: seq<bool>)
    ensures |b| == width
  {
    if width == 0 then [] else Bits(n / 2, width - 1) + [n % 2 == 1]
  }

  function Number(b: seq<bool>): (n: nat)
    ensures n < Pow2(|b|)
  {
    if b == [] then 0 else 2 * Number(b[..|b| - 1]) + (if b[|b| - 1] then 1 else 0)
  }

  lemma {:induction false} NumberOfBits(n: nat, width: nat)
    requires n < Pow2(width)
    ensures Number(Bits(n, width)) == n
  {
    if width > 0 {
      NumberOfBits(n / 2, width - 1);
      assert Bits(n, width)[..width - 1] == Bits(n / 2, width - 1);
    }
  }

  lemma {:induction false} BitsOfNumber(b: seq<bool>)
    ensures Bits(Number(b), |b|) == b
  {
    if b != [] {
      var front := b[..|b| - 1];
      BitsOfNumber(front);
      assert Number(b) / 2 == Number(front);
      assert b == front + [b[|b| - 1]];
    }
  }

  function Zeros(n: nat): (b: seq<bool>)
    ensures |b| == n && forall i :: 0 <= i < n ==> !b[i]
  {
    seq(n, i => false)
  }

  lemma Widths()
    ensures Pow2(5) == 32 && Pow2(8) == 256
  {
    assert Pow2(5) == 2 * Pow2(4) && Pow2(4) == 2 * Pow2(3);
    assert Pow2(8) == 2 * Pow2(7) && Pow2(7) == 2 * Pow2(6);
  }

  // Eight bits as a byte.
  function Octet(b: seq<bool>): byte
    requires |b| == 8
  {
    Widths();
    Number(b)
  }

  function BitString(bytes: seq<byte>): (b: seq<bool>)
    ensures |b| == 8 * |bytes|
  {
    if bytes == [] then [] else Bits(bytes[0], 8) + BitString(bytes[1..])
  }

  // Whole bytes only; up to seven bits are left over.
  function Octets(b: seq<bool>): seq<byte>
    decreases |b|
  {
    if |b| < 8 then [] else [Octet(b[..8])] + Octets(b[8..])
  }

  // ----- letters -----

  function Letter(value: nat): char
    requires value < 32
  {
    if value < 26 then ('A' as int + value) as char else ('2' as int + (value - 26)) as char
  }

  function LetterValue(c: char): (r: Option<nat>)
    ensures r.Some? ==> r.value < 32
  {
    if 'A' <= c <= 'Z' then Some(c as int - 'A' as int)
    else if '2' <= c <= '7' then Some(c as int - '2' as int + 26)
    else None
  }

  // The first five bits, filled up with zeros.
  function Five(b: seq<bool>): (n: nat)
    ensures n < 32
  {
    Widths();
    Number((b + Zeros(5))[..5])
  }

  function Letters(b: seq<bool>): string
    decreases |b|
  {
    if b == [] then "" else [Letter(Five(b))] + Letters(b[if |b| < 5 then |b| else 5..])
  }

  function LetterBits(s: string): Option<seq<bool>> {
    if s == "" then Some([])
    else match LetterValue(s[0])
    case None => None
    case Some(v) =>
      match LetterBits(s[1..]) case None => None case Some(rest) => Some(Bits(v, 5) + rest)
  }

  // base32::encode and base32::decode for the unpadded alphabet of RFC 4648.
  function Encode(bytes: seq<byte>): string {
    Letters(BitString(bytes))
  }

  function Decode(s: string): Option<seq<byte>> {
    match LetterBits(s) case None => None case Some(b) => Some(Octets(b))
  }

  // How many zeros the last letter is filled up with.
  function Filling(n: nat): (k: nat)
    ensures k < 5
  {
    (5 - n % 5) % 5
  }

  lemma LetterKeepsValue(value: nat)
    requires value < 32
    ensures LetterValue(Letter(value)) == Some(value)
  {
  }

  lemma OneMoreLetter(value: nat, s: string)
    requires value < 32 && LetterBits(s).Some?
    ensures LetterBits([Letter(value)] + s) == Some(Bits(value, 5) + LetterBits(s).value)
  {
    hide Bits;
    hide Letter;
    hide LetterValue;
    LetterKeepsValue(value);
    var t := [Letter(value)] + s;
    assert t[0] == Letter(value) && t[1..] == s;
  }

  lemma FiveAreBits(b: seq<bool>)
    ensures Bits(Five(b), 5) == (b + Zeros(5))[..5]
  {
    BitsOfNumber((b + Zeros(5))[..5]);
  }

  // Taking five bits off the front leaves the filling at the end alone.
  lemma FillingStays(b: seq<bool>, rest: seq<bool>)
    requires b != [] && rest == b[if |b| < 5 then |b| else 5..]
    ensures (b + Zeros(5))[..5] + (rest + Zeros(Filling(|rest|))) == b + Zeros(Filling(|b|))
  {
    if |b| < 5 {
      LastLetterIsFilled(b);
    } else {
      FullLetter(b, Zeros(Filling(|b|)));
    }
  }

  lemma LastLetterIsFilled(b: seq<bool>)
    requires 0 < |b| < 5
    ensures (b + Zeros(5))[..5] + ([] + Zeros(Filling(0))) == b + Zeros(Filling(|b|))
  {
    assert Zeros(5)[..5 - |b|] == Zeros(5 - |b|);
  }

  lemma FullLetter(b: seq<bool>, filling: seq<bool>)
    requires |b| >= 5
    ensures Filling(|b[5..]|) == Filling(|b|)
    ensures (b + Zeros(5))[..5] + (b[5..] + filling) == b + filling
  {
    hide Zeros;
  }

  lemma {:induction false} LettersAreBits(b: seq<bool>)
    ensures LetterBits(Letters(b)) == Some(b + Zeros(Filling(|b|)))
    decreases |b|
  {
    hide Bits;
    hide Five;
    hide Letter;
    hide LetterBits;
    hide Zeros;
    hide Filling;
    if b == [] {
      NoLetters();
    } else {
      var rest := b[if |b| < 5 then |b| else 5..];
      LettersAreBits(rest);
      FiveAreBits(b);
      OneMoreLetter(Five(b), Letters(rest));
      FillingStays(b, rest);
    }
  }

  lemma NoLetters()
    ensures LetterBits("") == Some([]) && [] + Zeros(Filling(0)) == []
  {
  }

  lemma {:induction false} OctetsAreBytes(bytes: seq<byte>, filling: seq<bool>)
    requires |filling| < 8
    ensures Octets(BitString(bytes) + filling) == bytes
  {
    hide Bits;
    hide Number;
    if bytes != [] {
      var b := BitString(bytes) + filling;
      var rest := BitString(bytes[1..]) + filling;
      assert b[..8] == Bits(bytes[0], 8) && b[8..] == rest;
      Widths();
      NumberOfBits(bytes[0], 8);
      OctetsAreBytes(bytes[1..], filling);
    }
  }

  lemma DecodeUndoesEncode(bytes: seq<byte>)
    ensures Decode(Encode(bytes)) == Some(bytes)
  {
    hide Letters;
    hide LetterBits;
    hide Octets;
    hide BitString;
    LettersAreBits(BitString(bytes));
    OctetsAreBytes(bytes, Zeros(Filling(8 * |bytes|)));
  }

  ghost predicate InAlphabet(s: string) {
    forall i :: 0 <= i < |s| ==> 'A' <= s[i] <= 'Z' || '2' <= s[i] <= '7'
  }

  lemma {:induction false} LettersAreInAlphabet(b: seq<bool>)
    ensures InAlphabet(Letters(b)) && (Letters(b) == "" <==> b == [])
    decreases |b|
  {
    hide Five;
    if b != [] {
      LettersAreInAlphabet(b[if |b| < 5 then |b| else 5..]);
    }
  }

  // ----- secrets as people copy them -----

  predicate Filler(c: char) {
    IsSpace(c) || c == '-' || c == '='
  }

  function Kept(s: string): string {
    if s == "" then ""
    else Kept(s[..|s| - 1]) + (if Filler(s[|s| - 1]) then [] else [s[|s| - 1]])
  }

  function Cleaned(s: string): string {
    Uppered(Kept(s))
  }

  datatype SecretError = EmptySecret | NotBase32

  // decode_base32.
  function ReadSecret(s: string): Result<seq<byte>, SecretError> {
    if Cleaned(s) == "" then Err(EmptySecret)
    else match Decode(Cleaned(s)) case None => Err(NotBase32) case Some(b) => Ok(b)
  }

  lemma {:induction false} KeptWhole(s: string)
    requires forall i :: 0 <= i < |s| ==> !Filler(s[i])
    ensures Kept(s) == s
  {
    hide Filler;
    if s != "" {
      KeptWhole(s[..|s| - 1]);
    }
  }

  // However a secret is grouped, cased and padded, its bytes are read, unless
  // there are none.
  lemma CopiedSecretReads(s: string, bytes: seq<byte>)
    requires Cleaned(s) == Encode(bytes)
    ensures ReadSecret(s) == if bytes == [] then Err(EmptySecret) else Ok(bytes)
  {
    hide Letters;
    hide Decode;
    hide Cleaned;
    LettersAreInAlphabet(BitString(bytes));
    DecodeUndoesEncode(bytes);
  }

  lemma EncodedIsClean(bytes: seq<byte>)
    ensures InAlphabet(Encode(bytes)) && Cleaned(Encode(bytes)) == Encode(bytes)
  {
    hide Letters;
    hide BitString;
    hide Kept;
    LettersAreInAlphabet(BitString(bytes));
    KeptWhole(Encode(bytes));
    UpperStays(Encode(bytes));
  }

  lemma {:induction false} LetterBitsAre(s: string)
    ensures LetterBits(s).Some? <==> InAlphabet(s)
    ensures LetterBits(s).Some? ==> |LetterBits(s).value| == 5 * |s|
  {
    hide Bits;
    if s != "" {
      LetterBitsAre(s[1..]);
      assert s == [s[0]] + s[1..];
    }
  }

  lemma {:induction false} OctetsAre(b: seq<bool>)
    ensures |Octets(b)| == |b| / 8
    decreases |b|
  {
    hide Number;
    if |b| >= 8 {
      OctetsAre(b[8..]);
    }
  }

  ghost predicate AllFiller(s: string) {
    forall i :: 0 <= i < |s| ==> Filler(s[i])
  }

  lemma FillerGrows(s: string, c: char)
    ensures AllFiller(s + [c]) <==> AllFiller(s) && Filler(c)
  {
    hide Filler;
    var t := s + [c];
    assert t[|s|] == c && forall i :: 0 <= i < |s| ==> t[i] == s[i];
  }

  lemma {:induction false} KeptIsEmpty(s: string)
    ensures Kept(s) == "" <==> AllFiller(s)
  {
    hide Filler;
    if s != "" {
      KeptIsEmpty(s[..|s| - 1]);
      FillerGrows(s[..|s| - 1], s[|s| - 1]);
      assert s == s[..|s| - 1] + [s[|s| - 1]];
    }
  }

  // Which texts are read, and how many bytes they give. A single letter is five
  // bits, so it is read as no byte at all.
  lemma ReadSecretExactly(s: string)
    ensures ReadSecret(s) == Err(EmptySecret) <==> AllFiller(s)
    ensures ReadSecret(s).Ok? <==> Cleaned(s) != "" && InAlphabet(Cleaned(s))
    ensures ReadSecret(s).Ok? ==> |ReadSecret(s).value| == 5 * |Cleaned(s)| / 8
    ensures ReadSecret(s) == Ok([]) <==> |Cleaned(s)| == 1 && InAlphabet(Cleaned(s))
  {
    hide AllFiller;
    hide Kept;
    hide LetterBits;
    hide Octets;
    KeptIsEmpty(s);
    LetterBitsAre(Cleaned(s));
    if LetterBits(Cleaned(s)).Some? {
      OctetsAre(LetterBits(Cleaned(s)).value);
    }
  }

  // ----- the alphabet and the order of the bits -----

  // A letter for each of the 32 values, in the order of table 3 of RFC 4648.
  lemma AlphabetIs(value: nat)
    requires value < 32
    ensures Letter(value) == "ABCDEFGHIJKLMNOPQRSTUVWXYZ234567"[value]
  {
  }

  lemma LetterStep(b: seq<bool>)
    requires |b| >= 5
    ensures Letters(b) == [Letter(Number(b[..5]))] + Letters(b[5..])
  {
    assert (b + Zeros(5))[..5] == b[..5];
  }

  lemma LastLetter(b: seq<bool>)
    requires |b| == 1
    ensures Letters(b) == [Letter(if b[0] then 16 else 0)]
  {
    var five := (b + Zeros(5))[..5];
    assert five == [b[0], false, false, false, false];
    FiveBits(five);
    assert b[1..] == [];
  }

  lemma FiveBits(b: seq<bool>)
    requires |b| == 5
    ensures Number(b) == (if b[0] then 16 else 0) + (if b[1] then 8 else 0) + (if b[2] then 4 else 0)
                         + (if b[3] then 2 else 0) + (if b[4] then 1 else 0)
  {
    assert b[..4][..3] == b[..3] && b[..3][..2] == b[..2] && b[..2][..1] == b[..1] && b[..1][..0] == [];
    assert Number(b[..1]) == if b[0] then 1 else 0;
    assert Number(b[..2]) == 2 * Number(b[..1]) + if b[1] then 1 else 0;
    assert Number(b[..3]) == 2 * Number(b[..2]) + if b[2] then 1 else 0;
    assert Number(b[..4]) == 2 * Number(b[..3]) + if b[3] then 1 else 0;
  }

  lemma EightBits(b: seq<bool>)
    requires |b| == 8
    ensures Number(b) == 8 * Number(b[..5]) + (if b[5] then 4 else 0) + (if b[6] then 2 else 0) + (if b[7] then 1 else 0)
    ensures Bits(Number(b), 8) == b
  {
    BitsOfNumber(b);
    assert b[..7][..6] == b[..6] && b[..6][..5] == b[..5];
    assert Number(b[..6]) == 2 * Number(b[..5]) + if b[5] then 1 else 0;
    assert Number(b[..7]) == 2 * Number(b[..6]) + if b[6] then 1 else 0;
  }

  lemma BitsOfFo()
    ensures Bits(102, 8) == [false, true, true, false, false, true, true, false]
    ensures Bits(111, 8) == [false, true, true, false, true, true, true, true]
  {
    hide Number;
    hide Bits;
    var f, o := [false, true, true, false, false, true, true, false], [false, true, true, false, true, true, true, true];
    FiveBits(f[..5]);
    FiveBits(o[..5]);
    EightBits(f);
    EightBits(o);
  }

  lemma LettersOfFo(b: seq<bool>)
    requires b == [false, true, true, false, false, true, true, false, false, true, true, false, true, true, true, true]
    ensures Letters(b) == "MZXQ"
  {
    hide Letters;
    hide Number;
    var c := [true, true, false, false, true, true, false, true, true, true, true];
    var d := [true, false, true, true, true, true];
    assert b[5..] == c && c[5..] == d && d[5..] == [true];
    LetterStep(b);
    LetterStep(c);
    LetterStep(d);
    FiveBits(b[..5]);
    FiveBits(c[..5]);
    FiveBits(d[..5]);
    LastLetter([true]);
  }

  // The text "fo", a test vector of section 10 of RFC 4648: bits are taken
  // highest first, and the last letter is filled up with zeros.
  lemma VectorFo()
    ensures Encode([102, 111]) == "MZXQ"
  {
    hide Letters;
    hide Bits;
    BitsOfFo();
    assert [102, 111][1..] == [111] && BitString([111]) == Bits(111, 8) + BitString([111][1..]);
    LettersOfFo(BitString([102, 111]));
  }
}
