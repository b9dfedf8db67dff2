// Texts: case, white space, order and UTF-8.
module Text {
  import opened Wrappers
  import opened Bytes
  import opened Lists

  // ----- case -----

  // str::to_ascii_lowercase.
  function Lower(c: char): char {
    if 'A' <= c <= 'Z' then ((c as int) + 32) as char else c
  }

  function Lowered(s: string): (r: string)
    ensures |r| == |s| && forall i :: 0 <= i < |s| ==> r[i] == Lower(s[i])
  {
    if s == "" then "" else [Lower(s[0])] + Lowered(s[1..])
  }

  lemma LowerStays(t: string)
    requires forall i :: 0 <= i < |t| ==> 'a' <= t[i] <= 'z'
    ensures Lowered(t) == t
  {
  }

  // str::to_ascii_uppercase.
  function Upper(c: char): char {
    if 'a' <= c <= 'z' then ((c as int) - 32) as char else c
  }

  function Uppered(s: string): (r: string)
    ensures |r| == |s| && forall i :: 0 <= i < |s| ==> r[i] == Upper(s[i])
  {
    if s == "" then "" else [Upper(s[0])] + Uppered(s[1..])
  }

  lemma UpperStays(t: string)
    requires forall i :: 0 <= i < |t| ==> !('a' <= t[i] <= 'z')
    ensures Uppered(t) == t
  {
  }

  // ----- white space -----

  // The Unicode White_Space property, as char::is_whitespace.
  predicate IsSpace(c: char) {
    var n := c as int;
    || 9 <= n <= 13 || n == 0x20 || n == 0x85 || n == 0xA0 || n == 0x1680
    || 0x2000 <= n <= 0x200A || n == 0x2028 || n == 0x2029 || n == 0x202F || n == 0x205F || n == 0x3000
  }

  function TrimEnd(s: string): (r: string)
    ensures r <= s && (r != "" ==> !IsSpace(r[|r| - 1]))
  {
    if s != "" && IsSpace(s[|s| - 1]) then TrimEnd(s[..|s| - 1]) else s
  }

  function TrimStart(s: string): string {
    if s != "" && IsSpace(s[0]) then TrimStart(s[1..]) else s
  }

  function Trim(s: string): string {
    TrimStart(TrimEnd(s))
  }

  predicate Tidy(s: string) {
    s != "" && Trim(s) == s
  }

  lemma TrimTidy(s: string)
    requires s != "" && !IsSpace(s[0]) && !IsSpace(s[|s| - 1])
    ensures Trim(s) == s
  {
  }

  lemma {:induction false} TrimStartIs(s: string)
    ensures var t := TrimStart(s);
            |t| <= |s| && t == s[|s| - |t|..] && (t != "" ==> !IsSpace(t[0]))
  {
    if s != "" && IsSpace(s[0]) {
      TrimStartIs(s[1..]);
    }
  }

  // Trimming leaves a part of the text that trimming would not change.
  lemma TrimmedIsTidy(s: string)
    ensures var t := Trim(s);
            (t != "" ==> Tidy(t) && !IsSpace(t[|t| - 1])) && exists from, to :: 0 <= from <= to <= |s| && t == s[from..to]
  {
    hide TrimStart;
    hide TrimEnd;
    hide IsSpace;
    var cut, t := TrimEnd(s), Trim(s);
    TrimStartIs(cut);
    assert t == s[|cut| - |t|..|cut|];
    if t != "" {
      TrimTidy(t);
    }
  }

  // ----- order -----

  // The order of str.
  predicate Precedes(a: string, b: string) {
    if b == "" then false
    else if a == "" then true
    else if a[0] != b[0] then a[0] < b[0]
    else Precedes(a[1..], b[1..])
  }

  // `a` ends, or has the smaller character, where the two part after `n`.
  ghost predicate PartsBefore(a: string, b: string, n: nat) {
    n <= |a| && n < |b| && a[..n] == b[..n] && (n == |a| || a[n] < b[n])
  }

  lemma {:induction false} PrecedesExactly(a: string, b: string)
    ensures Precedes(a, b) <==> exists n: nat :: PartsBefore(a, b, n)
    decreases |a|
  {
    if a == "" {
      assert b != "" ==> PartsBefore(a, b, 0);
    } else if b != "" {
      PrecedesExactly(a[1..], b[1..]);
      if n: nat :| PartsBefore(a, b, n) {
        assert n > 0 ==> a[..n][0] == b[..n][0];
        if n > 0 {
          assert a[1..][..n - 1] == a[..n][1..] && b[1..][..n - 1] == b[..n][1..];
          assert PartsBefore(a[1..], b[1..], n - 1);
        }
      }
      if Precedes(a, b) {
        if a[0] != b[0] {
          assert PartsBefore(a, b, 0);
        } else {
          var n: nat :| PartsBefore(a[1..], b[1..], n);
          assert a[..n + 1] == [a[0]] + a[1..][..n] && b[..n + 1] == [b[0]] + b[1..][..n];
          assert PartsBefore(a, b, n + 1);
        }
      }
    }
  }

  lemma {:induction false} PrecedesIsTotal(a: string, b: string)
    ensures Precedes(a, b) || Precedes(b, a) || a == b
    ensures !Precedes(a, a)
    decreases |a|
  {
    if a != "" {
      PrecedesIsTotal(a[1..], if b != "" then b[1..] else b);
      if b != "" && a[0] == b[0] && a[1..] == b[1..] {
        assert a == [a[0]] + a[1..] && b == [b[0]] + b[1..];
      }
    }
  }

  lemma {:induction false} PrecedesIsTransitive(a: string, b: string, c: string)
    requires Precedes(a, b) && Precedes(b, c)
    ensures Precedes(a, c)
    decreases |a|
  {
    if a != "" && a[0] == b[0] == c[0] {
      PrecedesIsTransitive(a[1..], b[1..], c[1..]);
    }
  }

  lemma PrecedesIsStrict()
    ensures StrictOrder(Precedes)
  {
    hide Precedes;
    forall a, b ensures Precedes(a, b) || Precedes(b, a) || a == b {
      PrecedesIsTotal(a, b);
    }
    forall a, b, c | Precedes(a, b) && Precedes(b, c) ensures Precedes(a, c) {
      PrecedesIsTransitive(a, b, c);
    }
  }

  // ----- UTF-8 -----

  function EncodeUtf8(c: char): (b: seq<byte>)
    ensures 1 <= |b| <= 4
  {
    var n := c as int;
    if n < 0x80 then [n]
    else if n < 0x800 then [0xC0 + n / 0x40, 0x80 + n % 0x40]
    else if n < 0x1_0000 then [0xE0 + n / 0x1000, 0x80 + n / 0x40 % 0x40, 0x80 + n % 0x40]
    else [0xF0 + n / 0x4_0000, 0x80 + n / 0x1000 % 0x40, 0x80 + n / 0x40 % 0x40, 0x80 + n % 0x40]
  }

  // str::as_bytes.
  function Utf8(s: string): seq<byte> {
    if s == "" then [] else Utf8(s[..|s| - 1]) + EncodeUtf8(s[|s| - 1])
  }

  lemma {:induction false} Utf8OfAscii(s: string)
    requires forall i :: 0 <= i < |s| ==> s[i] as int < 0x80
    ensures |Utf8(s)| == |s| && forall i :: 0 <= i < |s| ==> Utf8(s)[i] == s[i] as int
  {
    if s != "" {
      Utf8OfAscii(s[..|s| - 1]);
    }
  }

  lemma {:induction false} Utf8Joins(a: string, b: string)
    ensures Utf8(a + b) == Utf8(a) + Utf8(b)
    decreases |b|
  {
    hide EncodeUtf8;
    if b == "" {
      assert a + b == a;
    } else {
      var n := |b| - 1;
      Utf8Joins(a, b[..n]);
      assert (a + b)[..|a| + n] == a + b[..n];
    }
  }

  // ----- reading UTF-8 -----

  // The six bits of a later byte.
  function Six(b: byte): int {
    (b as int) - 0x80
  }

  // The number the first bytes spell, when there are enough of them.
  function Spelled(b: seq<byte>): int
    requires b != []
  {
    var lead := b[0] as int;
    if lead < 0x80 then lead
    else if 0xC0 <= lead < 0xE0 && |b| >= 2 then (lead - 0xC0) * 0x40 + Six(b[1])
    else if 0xE0 <= lead < 0xF0 && |b| >= 3 then (lead - 0xE0) * 0x1000 + Six(b[1]) * 0x40 + Six(b[2])
    else if 0xF0 <= lead && |b| >= 4 then
      (lead - 0xF0) * 0x4_0000 + Six(b[1]) * 0x1000 + Six(b[2]) * 0x40 + Six(b[3])
    else -1
  }

  // The character in front, when the bytes begin with its encoding.
  function FirstChar(b: seq<byte>): (r: Option<char>)
    requires b != []
    ensures r.Some? ==> EncodeUtf8(r.value) <= b
  {
    var n := Spelled(b);
    if (0 <= n < 0xD800 || 0xE000 <= n < 0x11_0000) && EncodeUtf8(n as char) <= b then Some(n as char) else None
  }

  predicate Continues(b: byte) {
    0x80 <= b < 0xC0
  }

  // Two bytes that begin the encoding of three or four.
  predicate Opens(b: byte, next: byte) {
    && Continues(next)
    && 0xE0 <= b <= 0xF4
    && (b == 0xE0 ==> 0xA0 <= next)
    && (b == 0xED ==> next < 0xA0)
    && (b == 0xF0 ==> 0x90 <= next)
    && (b == 0xF4 ==> next < 0x90)
  }

  // How many bytes one replacement character stands for.
  function Broken(b: seq<byte>): (n: nat)
    requires b != []
    ensures 1 <= n <= |b|
  {
    if |b| < 2 || !Opens(b[0], b[1]) then 1
    else if b[0] >= 0xF0 && |b| >= 3 && Continues(b[2]) then 3
    else 2
  }

  // String::from_utf8_lossy.
  function Lossy(b: seq<byte>): string
    decreases |b|
  {
    if b == [] then ""
    else match FirstChar(b)
    case Some(c) => [c] + Lossy(b[|EncodeUtf8(c)|..])
    case None => ['\U{FFFD}'] + Lossy(b[Broken(b)..])
  }

  // str::from_utf8.
  function FromUtf8(b: seq<byte>): Option<string> {
    if Utf8(Lossy(b)) == b then Some(Lossy(b)) else None
  }

  lemma FirstCharIs(c: char, rest: seq<byte>)
    ensures FirstChar(EncodeUtf8(c) + rest) == Some(c)
  {
    var b, n := EncodeUtf8(c) + rest, c as int;
    SpelledIs(c, rest);
    assert EncodeUtf8(n as char) <= b;
  }

  lemma SixAtATime(n: nat)
    ensures n == n / 0x40 * 0x40 + n % 0x40
    ensures n == n / 0x1000 * 0x1000 + n / 0x40 % 0x40 * 0x40 + n % 0x40
    ensures n == n / 0x4_0000 * 0x4_0000 + n / 0x1000 % 0x40 * 0x1000 + n / 0x40 % 0x40 * 0x40 + n % 0x40
  {
    assert n / 0x1000 == n / 0x40 / 0x40 && n / 0x4_0000 == n / 0x1000 / 0x40;
  }

  lemma SpelledIs(c: char, rest: seq<byte>)
    ensures Spelled(EncodeUtf8(c) + rest) == c as int
  {
    var n := c as int;
    var b, e := EncodeUtf8(c) + rest, EncodeUtf8(c);
    SixAtATime(n);
    assert forall i :: 0 <= i < |e| ==> b[i] == e[i];
  }

  lemma {:induction false} LossyUndoesUtf8(s: string)
    ensures Lossy(Utf8(s)) == s
  {
    hide EncodeUtf8;
    hide FirstChar;
    hide Broken;
    if s != "" {
      var c, b := s[0], Utf8(s[1..]);
      assert s == [c] + s[1..];
      Utf8Joins([c], s[1..]);
      assert [c][..0] == "" && [] + EncodeUtf8(c) == EncodeUtf8(c);
      LossyUndoesUtf8(s[1..]);
      FirstCharIs(c, b);
      assert (EncodeUtf8(c) + b)[|EncodeUtf8(c)|..] == b;
    }
  }

  // Bytes read as a text exactly when they are its encoding.
  lemma FromUtf8Exactly(b: seq<byte>, s: string)
    ensures FromUtf8(b) == Some(s) <==> Utf8(s) == b
  {
    LossyUndoesUtf8(s);
  }

  // Bytes as the characters of the same numbers.
  function Chars(b: seq<byte>): string {
    seq(|b|, i requires 0 <= i < |b| => b[i] as char)
  }

  lemma Utf8OfChars(b: seq<byte>)
    requires forall i :: 0 <= i < |b| ==> b[i] < 0x80
    ensures Utf8(Chars(b)) == b
  {
    Utf8OfAscii(Chars(b));
  }
}
