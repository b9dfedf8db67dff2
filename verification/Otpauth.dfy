// One-time passwords as `otpauth` addresses: the printer of
// crates/blackbag-cli/src/import.rs, the reader of
// crates/blackbag-core/src/session.rs, and what survives the two.
module Otpauth {
  import opened Wrappers
  import opened Bytes
  import opened Base32
  import opened Substring
  import opened Text
  import SplitParser

  // ----- percent encoding -----

  // Letters, digits and `-_.~:@`.
  predicate Safe(b: byte) {
    || 65 <= b <= 90 || 97 <= b <= 122 || 48 <= b <= 57
    || b == 45 || b == 95 || b == 46 || b == 126 || b == 58 || b == 64
  }

  function UpperHex(d: nat): byte
    requires d < 16
  {
    if d < 10 then 48 + d else 55 + d
  }

  function HexValue(b: byte): (r: Option<nat>)
    ensures r.Some? ==> r.value < 16
  {
    if 48 <= b <= 57 then Some(b - 48)
    else if 65 <= b <= 70 then Some(b - 55)
    else if 97 <= b <= 102 then Some(b - 87)
    else None
  }

  function Percent(b: byte): seq<byte> {
    if Safe(b) then [b] else [37, UpperHex(b / 16), UpperHex(b % 16)]
  }

  function PercentAll(b: seq<byte>): seq<byte> {
    if b == [] then [] else PercentAll(b[..|b| - 1]) + Percent(b[|b| - 1])
  }

  // How many bytes one step of the reader takes, and what they stand for.
  function Step(b: seq<byte>): (r: (nat, byte))
    requires b != []
    ensures 1 <= r.0 <= |b|
  {
    if b[0] == 37 && |b| > 2 && HexValue(b[1]).Some? && HexValue(b[2]).Some? then
      (3, HexValue(b[1]).value * 16 + HexValue(b[2]).value)
    else (1, if b[0] == 43 then 32 else b[0])
  }

  function Unpercent(b: seq<byte>): seq<byte>
    decreases |b|
  {
    if b == [] then [] else [Step(b).1] + Unpercent(b[Step(b).0..])
  }

  function PercentEncoded(s: string): string {
    Chars(PercentAll(Utf8(s)))
  }

  function PercentDecoded(s: string): string {
    Lossy(Unpercent(Utf8(s)))
  }

  method PercentEncode(s: string) returns (out: string)
    ensures out == PercentEncoded(s)
  {
    hide Percent;
    hide Utf8;
    var bytes := Utf8(s);
    out := "";
    for i := 0 to |bytes|
      invariant out == Chars(PercentAll(bytes[..i]))
    {
      assert bytes[..i + 1][..i] == bytes[..i];
      assert Chars(PercentAll(bytes[..i]) + Percent(bytes[i])) == Chars(PercentAll(bytes[..i])) + Chars(Percent(bytes[i]));
      out := out + Chars(Percent(bytes[i]));
    }
    assert bytes[..|bytes|] == bytes;
  }

  method PercentDecode(s: string) returns (out: string)
    ensures out == PercentDecoded(s)
  {
    hide Step;
    hide Utf8;
    hide Lossy;
    var bytes := Utf8(s);
    var read: seq<byte> := [];
    var i := 0;
    assert bytes[0..] == bytes && [] + Unpercent(bytes) == Unpercent(bytes);
    while i < |bytes|
      invariant 0 <= i <= |bytes|
      invariant read + Unpercent(bytes[i..]) == Unpercent(bytes)
    {
      var (n, b) := Step(bytes[i..]);
      assert bytes[i..][n..] == bytes[i + n..];
      assert read + ([b] + Unpercent(bytes[i + n..])) == (read + [b]) + Unpercent(bytes[i + n..]);
      read := read + [b];
      i := i + n;
    }
    assert bytes[i..] == [] && read + [] == read;
    out := Lossy(read);
  }

  // Exactly ASCII letters, digits and `-_.~:@` stay as they are; any other byte
  // becomes a percent sign and two hexadecimal digits in capitals.
  lemma PercentIs(b: byte)
    ensures Percent(b) == [b] <==>
            b < 128 && var c := b as char;
                       'a' <= c <= 'z' || 'A' <= c <= 'Z' || '0' <= c <= '9' || c in {'-', '_', '.', '~', ':', '@'}
    ensures Percent(b) != [b] ==>
            && |Percent(b)| == 3 && Percent(b)[0] as char == '%'
            && forall i :: 1 <= i < 3 ==> '0' <= Percent(b)[i] as char <= '9' || 'A' <= Percent(b)[i] as char <= 'F'
  {
  }

  lemma OneStepReads(b: byte, rest: seq<byte>)
    ensures Unpercent(Percent(b) + rest) == [b] + Unpercent(rest)
  {
    var s := Percent(b) + rest;
    if Safe(b) {
      assert s[1..] == rest;
    } else {
      assert HexValue(UpperHex(b / 16)) == Some(b / 16) && HexValue(UpperHex(b % 16)) == Some(b % 16);
      assert s[3..] == rest;
    }
  }

  lemma {:induction false} PercentReads(b: seq<byte>, rest: seq<byte>)
    ensures Unpercent(PercentAll(b) + rest) == b + Unpercent(rest)
    decreases |b|
  {
    hide Percent;
    hide Unpercent;
    if b == [] {
      assert [] + rest == rest && [] + Unpercent(rest) == Unpercent(rest);
    } else {
      var front, last := b[..|b| - 1], b[|b| - 1];
      PercentReads(front, Percent(last) + rest);
      OneStepReads(last, rest);
      assert PercentAll(b) + rest == PercentAll(front) + (Percent(last) + rest);
      assert front + ([last] + Unpercent(rest)) == b + Unpercent(rest);
    }
  }

  // What the printer may put between the delimiters of an address.
  predicate Printed(b: byte) {
    Safe(b) || b == 37
  }

  lemma PercentIsPrinted(b: byte)
    ensures forall i :: 0 <= i < |Percent(b)| ==> Printed(Percent(b)[i])
  {
    assert Safe(UpperHex(b / 16)) && Safe(UpperHex(b % 16));
  }

  lemma {:induction false} PercentAllIsPrinted(b: seq<byte>)
    ensures forall i :: 0 <= i < |PercentAll(b)| ==> Printed(PercentAll(b)[i])
  {
    hide Printed;
    hide Percent;
    if b != [] {
      PercentAllIsPrinted(b[..|b| - 1]);
      PercentIsPrinted(b[|b| - 1]);
    }
  }

  // Every text is read back from its percent encoding.
  lemma PercentDecodeUndoesEncode(s: string)
    ensures PercentDecoded(PercentEncoded(s)) == s
  {
    hide Utf8;
    hide PercentAll;
    hide Unpercent;
    hide Lossy;
    var b := Utf8(s);
    PercentAllIsPrinted(b);
    Utf8OfChars(PercentAll(b));
    PercentReads(b, []);
    NothingLeft();
    assert PercentAll(b) + [] == PercentAll(b) && b + [] == b;
    LossyUndoesUtf8(s);
  }

  lemma NothingLeft()
    ensures Unpercent([]) == []
  {
  }

  lemma {:induction false} PlainBytesStay(b: seq<byte>)
    requires forall i :: 0 <= i < |b| ==> b[i] != 37 && b[i] != 43
    ensures Unpercent(b) == b
  {
    if b != [] {
      PlainBytesStay(b[1..]);
      assert b == [b[0]] + b[1..];
    }
  }

  // Texts without `%` and `+` need no encoding.
  lemma PlainDecodes(s: string)
    requires forall i :: 0 <= i < |s| ==> s[i] as int < 0x80 && s[i] != '%' && s[i] != '+'
    ensures PercentDecoded(s) == s
  {
    hide Utf8;
    hide Lossy;
    hide Unpercent;
    Utf8OfAscii(s);
    PlainBytesStay(Utf8(s));
    LossyUndoesUtf8(s);
  }

  // ----- numbers -----

  function Numeral(n: nat): string {
    Chars(Decimal(n))
  }

  predicate Digit(c: char) {
    '0' <= c <= '9'
  }

  predicate AllDigits(s: string) {
    forall i :: 0 <= i < |s| ==> Digit(s[i])
  }

  function DigitValue(c: char): nat
    requires Digit(c)
  {
    c as int - '0' as int
  }

  function Value(s: string): nat
    requires forall i :: 0 <= i < |s| ==> Digit(s[i])
  {
    if s == "" then 0 else 10 * Value(s[..|s| - 1]) + DigitValue(s[|s| - 1])
  }

  // str::parse for an unsigned type of `bound` values.
  function ParseNumber(s: string, bound: nat): (r: Option<nat>)
    ensures r.Some? ==> r.value < bound
  {
    var digits := if s != "" && s[0] == '+' then s[1..] else s;
    if digits == "" || !AllDigits(digits) then None
    else if Value(digits) < bound then Some(Value(digits))
    else None
  }

  lemma {:induction false} NumeralSpells(n: nat)
    ensures Numeral(n) != "" && forall i :: 0 <= i < |Numeral(n)| ==> Digit(Numeral(n)[i])
    ensures Value(Numeral(n)) == n
    decreases n
  {
    if n >= 10 {
      NumeralSpells(n / 10);
      assert Numeral(n)[..|Numeral(n)| - 1] == Numeral(n / 10);
    }
  }

  lemma NumberReads(n: nat, bound: nat)
    requires n < bound
    ensures ParseNumber(Numeral(n), bound) == Some(n)
  {
    hide Decimal;
    hide Value;
    NumeralSpells(n);
    assert Digit(Numeral(n)[0]);
  }

  // ----- addresses -----

  datatype Algorithm = Sha1 | Sha256 | Sha512

  type u64 = n: int | 0 <= n < U64

  datatype TotpConfig = TotpConfig(
    issuer: Option<string>, account: Option<string>, digits: byte, step: u64, skew: byte, algorithm: Algorithm)

  const DEFAULT := TotpConfig(None, None, 6, 30, 1, Sha1)

  const SCHEME := "otpauth://totp/"
  const SCHEME_UPPER := "otpauth://TOTP/"

  // as_str, in upper case.
  function AlgorithmText(a: Algorithm): string {
    match a case Sha1 => "SHA1" case Sha256 => "SHA256" case Sha512 => "SHA512"
  }

  function AlgorithmOf(s: string): Algorithm {
    if Uppered(s) == "SHA256" then Sha256 else if Uppered(s) == "SHA512" then Sha512 else Sha1
  }

  function Label(config: TotpConfig, title: string, username: string): string {
    (if config.issuer.Some? then config.issuer.value else title)
    + ":" + (if config.account.Some? then config.account.value else username)
  }

  function Parameter(key: string, value: string): string {
    key + "=" + value
  }

  // The TOTP cell of an export.
  function Rendered(config: TotpConfig, secret: seq<byte>, title: string, username: string): string {
    SCHEME + PercentEncoded(Label(config, title, username)) + "?"
    + Parameter("secret", Encode(secret)) + "&"
    + Parameter("digits", Numeral(config.digits)) + "&"
    + Parameter("period", Numeral(config.step)) + "&"
    + Parameter("algorithm", AlgorithmText(config.algorithm))
    + (if config.issuer.Some? then "&" + Parameter("issuer", PercentEncoded(config.issuer.value)) else "")
  }

  method Render(config: TotpConfig, secret: seq<byte>, title: string, username: string) returns (uri: string)
    ensures uri == Rendered(config, secret, title, username)
  {
    hide PercentEncoded;
    hide Encode;
    hide Numeral;
    var name := PercentEncode(Label(config, title, username));
    uri := SCHEME + name + "?"
           + Parameter("secret", Encode(secret)) + "&"
           + Parameter("digits", Numeral(config.digits)) + "&"
           + Parameter("period", Numeral(config.step)) + "&"
           + Parameter("algorithm", AlgorithmText(config.algorithm));
    var issuer := "";
    if config.issuer.Some? {
      var text := PercentEncode(config.issuer.value);
      issuer := "&" + Parameter("issuer", text);
    }
    uri := uri + issuer;
  }

  // Before and after the first `c`, when there is one.
  function SplitOnce(s: string, c: char): Option<(string, string)> {
    match IndexOf(s, [c], 0) case None => None case Some(h) => Some((s[..h], s[h + 1..]))
  }

  // What has been read so far of an address.
  datatype Draft = Draft(secret: Option<string>, issuer: Option<string>, config: TotpConfig)

  function SetParameter(d: Draft, key: string, value: string): Draft {
    if key == "secret" then d.(secret := Some(value))
    else if key == "issuer" then d.(issuer := Some(value))
    else if key == "digits" then
      match ParseNumber(value, 256) case None => d case Some(n) => d.(config := d.config.(digits := n))
    else if key == "period" then
      match ParseNumber(value, U64) case None => d case Some(n) => d.(config := d.config.(step := n))
    else if key == "algorithm" then d.(config := d.config.(algorithm := AlgorithmOf(value)))
    else d
  }

  function KeyAndValue(pair: string): (r: (string, string)) {
    match SplitOnce(pair, '=') case None => (pair, "") case Some(kv) => kv
  }

  function ReadPair(d: Draft, pair: string): Draft {
    var (key, value) := KeyAndValue(pair);
    SetParameter(d, Lowered(key), PercentDecoded(value))
  }

  function ReadPairs(d: Draft, pairs: seq<string>): Draft {
    if pairs == [] then d else ReadPair(ReadPairs(d, pairs[..|pairs| - 1]), pairs[|pairs| - 1])
  }

  datatype OtpauthError = NotOtpauth | NoSecret | BadSecret(why: SecretError) | BadDigits | ZeroPeriod

  datatype Enrolment = Enrolment(secret: seq<byte>, config: TotpConfig)

  // The issuer and the account of a label.
  function ReadLabel(text: string): (r: (Option<string>, string)) {
    match SplitOnce(text, ':')
    case None => (None, Trim(text))
    case Some((i, a)) => (Some(Trim(i)), Trim(a))
  }

  function Finish(d: Draft, account: string): Result<Enrolment, OtpauthError> {
    if d.secret.None? then Err(NoSecret)
    else match ReadSecret(d.secret.value)
    case Err(why) => Err(BadSecret(why))
    case Ok(secret) =>
      if !(6 <= d.config.digits <= 8) then Err(BadDigits)
      else if d.config.step == 0 then Err(ZeroPeriod)
      else Ok(Enrolment(secret, d.config.(issuer := d.issuer, account := if account == "" then None else Some(account))))
  }

  // What follows the scheme.
  function ParseRest(rest: string): Result<Enrolment, OtpauthError> {
    var (name, query) := match SplitOnce(rest, '?') { case None => (rest, "") case Some(lq) => lq };
    var (issuer, account) := ReadLabel(PercentDecoded(name));
    Finish(ReadPairs(Draft(None, issuer, DEFAULT), SplitParser.Records(query, "&")), account)
  }

  function Parsed(uri: string): Result<Enrolment, OtpauthError> {
    if SCHEME <= uri then ParseRest(uri[|SCHEME|..])
    else if SCHEME_UPPER <= uri then ParseRest(uri[|SCHEME_UPPER|..])
    else Err(NotOtpauth)
  }

  method ParseOtpauth(uri: string) returns (r: Result<Enrolment, OtpauthError>)
    ensures r == Parsed(uri)
  {
    hide PercentDecoded;
    hide ReadLabel;
    hide SetParameter;
    hide SplitOnce;
    hide ReadSecret;
    var rest;
    if SCHEME <= uri {
      rest := uri[|SCHEME|..];
    } else if SCHEME_UPPER <= uri {
      rest := uri[|SCHEME_UPPER|..];
    } else {
      return Err(NotOtpauth);
    }
    var (name, query) := match SplitOnce(rest, '?') { case None => (rest, "") case Some(lq) => lq };
    var text := PercentDecode(name);
    var (issuer, account) := ReadLabel(text);
    var d := Draft(None, issuer, DEFAULT);
    var pairs := SplitParser.Records(query, "&");
    for i := 0 to |pairs|
      invariant d == ReadPairs(Draft(None, issuer, DEFAULT), pairs[..i])
    {
      assert pairs[..i + 1][..i] == pairs[..i];
      var (key, raw) := KeyAndValue(pairs[i]);
      var value := PercentDecode(raw);
      d := SetParameter(d, Lowered(key), value);
    }
    assert pairs[..|pairs|] == pairs;
    r := Finish(d, account);
  }
}
