// Byte strings and the injective encodings the digests rest on.
module Bytes {
  import opened Wrappers

  type byte = x: int | 0 <= x < 256

  const U64: int := 0x1_0000_0000_0000_0000

  // An ASCII literal as bytes.
  function Ascii(s: string): seq<byte>
    requires forall i :: 0 <= i < |s| ==> s[i] < 128 as char
  {
    seq(|s|, i requires 0 <= i < |s| => s[i] as int)
  }

  function Repeat(b: byte, n: nat): (r: seq<byte>)
    ensures |r| == n
    ensures forall i :: 0 <= i < n ==> r[i] == b
  {
    if n == 0 then [] else [b] + Repeat(b, n - 1)
  }

  // ----- fixed-width big-endian numbers -----

  function Pow256(k: nat): (p: nat)
    ensures p > 0
  {
    if k == 0 then 1 else 256 * Pow256(k - 1)
  }

  function BigEndian(n: nat, width: nat): (b: seq<byte>)
    ensures |b| == width
  {
    if width == 0 then [] else BigEndian(n / 256, width - 1) + [n % 256]
  }

  lemma {:induction false} BigEndianInjective(m: nat, n: nat, width: nat)
    requires m < Pow256(width) && n < Pow256(width)
    requires BigEndian(m, width) == BigEndian(n, width)
    ensures m == n
  {
    if width > 0 {
      var a, b := BigEndian(m, width), BigEndian(n, width);
      assert a[..width - 1] == BigEndian(m / 256, width - 1);
      assert b[..width - 1] == BigEndian(n / 256, width - 1);
      assert a[width - 1] == m % 256 && b[width - 1] == n % 256;
      BigEndianInjective(m / 256, n / 256, width - 1);
    }
  }

  // ----- decimal numerals -----

  function Decimal(n: nat): (d: seq<byte>)
    ensures 0 < |d| <= n + 1
    ensures forall i :: 0 <= i < |d| ==> 48 <= d[i] < 58
  {
    if n < 10 then [48 + n] else Decimal(n / 10) + [48 + n % 10]
  }

  function SignedDecimal(n: int): (d: seq<byte>)
    ensures |d| <= (if n < 0 then -n else n) + 2
  {
    if n < 0 then [45] + Decimal(-n) else Decimal(n)
  }

  lemma {:induction false} DecimalInjective(m: nat, n: nat)
    requires Decimal(m) == Decimal(n)
    ensures m == n
  {
    var a, b := Decimal(m), Decimal(n);
    if m < 10 || n < 10 {
      assert |a| == 1 && |b| == 1;
    } else {
      assert a[..|a| - 1] == Decimal(m / 10) && b[..|b| - 1] == Decimal(n / 10);
      assert a[|a| - 1] == 48 + m % 10 && b[|b| - 1] == 48 + n % 10;
      DecimalInjective(m / 10, n / 10);
    }
  }

  lemma SignedDecimalInjective(m: int, n: int)
    requires SignedDecimal(m) == SignedDecimal(n)
    ensures m == n
  {
    var a, b := SignedDecimal(m), SignedDecimal(n);
    assert (a[0] == 45 <==> m < 0) && (b[0] == 45 <==> n < 0);
    if m < 0 && n < 0 {
      assert a[1..] == Decimal(-m) && b[1..] == Decimal(-n);
      DecimalInjective(-m, -n);
    } else {
      DecimalInjective(m, n);
    }
  }

  // ----- lower-case hexadecimal -----

  function HexDigit(d: int): byte
    requires 0 <= d < 16
  {
    if d < 10 then 48 + d else 87 + d
  }

  function Hex(b: seq<byte>): (h: seq<byte>)
    ensures |h| == 2 * |b|
    ensures forall i :: 0 <= i < |h| ==> 48 <= h[i] < 58 || 97 <= h[i] < 103
  {
    if b == [] then [] else [HexDigit(b[0] / 16), HexDigit(b[0] % 16)] + Hex(b[1..])
  }

  lemma {:induction false} HexInjective(a: seq<byte>, b: seq<byte>)
    requires Hex(a) == Hex(b)
    ensures a == b
  {
    if a != [] && b != [] {
      var x, y := Hex(a), Hex(b);
      assert x[0] == HexDigit(a[0] / 16) && x[1] == HexDigit(a[0] % 16);
      assert y[0] == HexDigit(b[0] / 16) && y[1] == HexDigit(b[0] % 16);
      assert x[2..] == Hex(a[1..]) && y[2..] == Hex(b[1..]);
      HexInjective(a[1..], b[1..]);
      assert a == [a[0]] + a[1..] && b == [b[0]] + b[1..];
    }
  }

  // ----- length-prefixed parts, as fed to the audit digest -----

  // One part: its length as eight big-endian bytes, then its bytes.
  function Framed(part: seq<byte>): seq<byte> {
    BigEndian(|part|, 8) + part
  }

  function Absorbed(parts: seq<seq<byte>>): seq<byte> {
    if parts == [] then [] else Framed(parts[0]) + Absorbed(parts[1..])
  }

  ghost predicate Fit(parts: seq<seq<byte>>) {
    forall i :: 0 <= i < |parts| ==> |parts[i]| < U64
  }

  lemma FramedHead(p: seq<byte>, q: seq<byte>, x: seq<byte>, y: seq<byte>)
    requires |p| < U64 && |q| < U64
    requires Framed(p) + x == Framed(q) + y
    ensures p == q && x == y
  {
    var s, t := Framed(p) + x, Framed(q) + y;
    assert s[..8] == BigEndian(|p|, 8) && t[..8] == BigEndian(|q|, 8);
    assert Pow256(8) == U64;
    BigEndianInjective(|p|, |q|, 8);
    assert p == s[8..8 + |p|] && q == t[8..8 + |q|];
    assert x == s[8 + |p|..] && y == t[8 + |q|..];
  }

  lemma {:induction false} AbsorbedInjective(ps: seq<seq<byte>>, qs: seq<seq<byte>>)
    requires |ps| == |qs| && Fit(ps) && Fit(qs)
    requires Absorbed(ps) == Absorbed(qs)
    ensures ps == qs
  {
    if ps != [] {
      FramedHead(ps[0], qs[0], Absorbed(ps[1..]), Absorbed(qs[1..]));
      AbsorbedInjective(ps[1..], qs[1..]);
      assert ps == [ps[0]] + ps[1..] && qs == [qs[0]] + qs[1..];
    }
  }

  // ----- reading the parts back -----

  // The number whose bytes, highest first, these are.
  function Big(b: seq<byte>): nat {
    if b == [] then 0 else 256 * Big(b[..|b| - 1]) + b[|b| - 1]
  }

  lemma {:induction false} BigReads(n: nat, width: nat)
    requires n < Pow256(width)
    ensures Big(BigEndian(n, width)) == n
  {
    if width > 0 {
      BigReads(n / 256, width - 1);
      assert BigEndian(n, width)[..width - 1] == BigEndian(n / 256, width - 1);
    }
  }

  function Unframed(b: seq<byte>): Option<seq<seq<byte>>>
    decreases |b|
  {
    if b == [] then Some([])
    else if |b| < 8 || |b| - 8 < Big(b[..8]) then None
    else
      var end := 8 + Big(b[..8]);
      match Unframed(b[end..]) case None => None case Some(more) => Some([b[8..end]] + more)
  }

  lemma OnePartReads(p: seq<byte>, rest: seq<byte>)
    requires |p| < U64
    ensures Unframed(Framed(p) + rest)
         == match Unframed(rest) case None => None case Some(more) => Some([p] + more)
  {
    hide BigEndian;
    hide Big;
    assert Pow256(8) == U64;
    BigReads(|p|, 8);
    var b := Framed(p) + rest;
    assert b[..8] == BigEndian(|p|, 8) && b[8..8 + |p|] == p && b[8 + |p|..] == rest;
  }

  lemma {:induction false} UnframedUndoesAbsorbed(parts: seq<seq<byte>>)
    requires Fit(parts)
    ensures Unframed(Absorbed(parts)) == Some(parts)
  {
    hide Unframed;
    hide Framed;
    if parts == [] {
      NothingFramed();
    } else {
      OnePartReads(parts[0], Absorbed(parts[1..]));
      UnframedUndoesAbsorbed(parts[1..]);
      assert parts == [parts[0]] + parts[1..];
    }
  }

  lemma NothingFramed()
    ensures Unframed([]) == Some([])
  {
  }
}
