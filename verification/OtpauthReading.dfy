// What the reader of `otpauth` addresses makes of addresses other programs
// write.
module OtpauthReading {
  import opened Wrappers
  import opened Bytes
  import opened Substring
  import opened Text
  import opened Otpauth

  // ----- other ways to write a byte -----

  datatype Form = Plain | Plus | Escape(highCapital: bool, lowCapital: bool)

  function HexDigitOf(d: nat, capital: bool): byte
    requires d < 16
  {
    if d < 10 then 48 + d else if capital then 55 + d else 87 + d
  }

  function Written(b: byte, f: Form): seq<byte> {
    match f
    case Plain => [b]
    case Plus => [43]
    case Escape(high, low) => [37, HexDigitOf(b / 16, high), HexDigitOf(b % 16, low)]
  }

  // A plus sign stands for a space, so neither it nor a percent sign stands
  // for itself.
  predicate Stands(b: byte, f: Form) {
    match f
    case Plain => b != 37 && b != 43
    case Plus => b == 32
    case Escape(_, _) => true
  }

  function WrittenAll(b: seq<byte>, forms: seq<Form>): seq<byte>
    requires |forms| == |b|
  {
    if b == [] then [] else WrittenAll(b[..|b| - 1], forms[..|b| - 1]) + Written(b[|b| - 1], forms[|b| - 1])
  }

  lemma OneFormReads(b: byte, f: Form, rest: seq<byte>)
    requires Stands(b, f)
    ensures Unpercent(Written(b, f) + rest) == [b] + Unpercent(rest)
  {
    var s := Written(b, f) + rest;
    if f.Escape? {
      assert HexValue(HexDigitOf(b / 16, f.highCapital)) == Some(b / 16);
      assert HexValue(HexDigitOf(b % 16, f.lowCapital)) == Some(b % 16);
      assert s[3..] == rest;
    } else {
      assert s[1..] == rest;
    }
  }

  lemma {:induction false} FormsRead(b: seq<byte>, forms: seq<Form>, rest: seq<byte>)
    requires |forms| == |b| && forall i :: 0 <= i < |b| ==> Stands(b[i], forms[i])
    ensures Unpercent(WrittenAll(b, forms) + rest) == b + Unpercent(rest)
    decreases |b|
  {
    hide Written;
    hide Unpercent;
    hide Stands;
    if b == [] {
      assert WrittenAll(b, forms) + rest == rest && b + Unpercent(rest) == Unpercent(rest);
    } else {
      var n := |b| - 1;
      assert forall i :: 0 <= i < n ==> b[..n][i] == b[i] && forms[..n][i] == forms[i];
      var front, last := WrittenAll(b[..n], forms[..n]), Written(b[n], forms[n]);
      FormsRead(b[..n], forms[..n], last + rest);
      OneFormReads(b[n], forms[n], rest);
      assert WrittenAll(b, forms) == front + last;
      assert front + last + rest == front + (last + rest);
      assert b[..n] + ([b[n]] + Unpercent(rest)) == b + Unpercent(rest);
    }
  }

  // However each byte of a text is written, the text is read: as itself, as a
  // plus sign for a space, or escaped with digits of either case.
  lemma AnyEncodingReads(text: string, s: string, forms: seq<Form>)
    requires |forms| == |Utf8(s)| && forall i :: 0 <= i < |forms| ==> Stands(Utf8(s)[i], forms[i])
    requires Utf8(text) == WrittenAll(Utf8(s), forms)
    ensures PercentDecoded(text) == s
  {
    hide Utf8;
    hide Unpercent;
    hide Lossy;
    hide WrittenAll;
    var b := Utf8(s);
    FormsRead(b, forms, []);
    NothingLeft();
    assert WrittenAll(b, forms) + [] == WrittenAll(b, forms) && b + [] == b;
    LossyUndoesUtf8(s);
  }

  predicate IsHexDigit(b: byte) {
    48 <= b <= 57 || 65 <= b <= 70 || 97 <= b <= 102
  }

  // A percent sign that two hexadecimal digits do not follow stays.
  lemma BrokenEscapeStays(rest: seq<byte>)
    requires |rest| < 2 || !IsHexDigit(rest[0]) || !IsHexDigit(rest[1])
    ensures Unpercent([37] + rest) == [37] + Unpercent(rest)
  {
    assert ([37] + rest)[1..] == rest;
  }

  // ----- numbers -----

  function Noughts(n: nat): string {
    if n == 0 then "" else "0" + Noughts(n - 1)
  }

  lemma {:induction false} NoughtsAddNothing(n: nat, s: string)
    requires s != "" && forall i :: 0 <= i < |s| ==> Digit(s[i])
    ensures forall i :: 0 <= i < |Noughts(n) + s| ==> Digit((Noughts(n) + s)[i])
    ensures Value(Noughts(n) + s) == Value(s)
    decreases n, |s|
  {
    if n > 0 {
      NoughtsAddNothing(n - 1, s);
      var t := Noughts(n - 1) + s;
      assert Noughts(n) + s == "0" + t;
      LeadingNought(t);
    } else {
      assert Noughts(0) + s == s;
    }
  }

  lemma {:induction false} LeadingNought(t: string)
    requires t != "" && forall i :: 0 <= i < |t| ==> Digit(t[i])
    ensures (forall i :: 0 <= i < |"0" + t| ==> Digit(("0" + t)[i])) && Value("0" + t) == Value(t)
  {
    var n := |t| - 1;
    assert ("0" + t)[..n + 1] == "0" + t[..n];
    if n > 0 {
      LeadingNought(t[..n]);
    } else {
      assert "0" + t[..0] == "0" && Value("0") == 0;
    }
  }

  // A numeral may have a plus sign and leading noughts, and is read exactly
  // when its number is within bounds.
  lemma NumberReadsExactly(plus: bool, noughts: nat, n: nat, bound: nat)
    ensures ParseNumber((if plus then "+" else "") + (Noughts(noughts) + Numeral(n)), bound)
         == if n < bound then Some(n) else None
  {
    hide Value;
    hide Noughts;
    hide Numeral;
    NumeralSpells(n);
    NoughtsAddNothing(noughts, Numeral(n));
    var digits := Noughts(noughts) + Numeral(n);
    assert Digit(digits[0]);
    var s := (if plus then "+" else "") + digits;
    assert plus ==> s[1..] == digits;
    assert !plus ==> s == digits;
  }

  // Every text of digits is a numeral with some noughts in front.
  lemma {:induction false} DigitsAreNumeral(s: string) returns (noughts: nat)
    requires s != "" && forall i :: 0 <= i < |s| ==> Digit(s[i])
    ensures s == Noughts(noughts) + Numeral(Value(s))
    decreases |s|
  {
    hide Numeral;
    hide Noughts;
    hide Value;
    var n := |s| - 1;
    var c := s[n];
    OneDigit(c);
    ValueGrows(s);
    if n == 0 {
      noughts := 0;
      assert s == [c];
      NoNoughts([c]);
    } else {
      var front := s[..n];
      noughts := DigitsAreNumeral(front);
      assert s == front + [c];
      if Value(front) == 0 {
        OneDigit('0');
        NoughtsEnd(noughts);
        noughts := noughts + 1;
      } else {
        NumeralGrows(Value(front), c);
        assert s == Noughts(noughts) + (Numeral(Value(front)) + [c]);
      }
    }
  }

  lemma ValueGrows(s: string)
    requires s != "" && forall i :: 0 <= i < |s| ==> Digit(s[i])
    ensures Value(s) == (if |s| == 1 then 0 else 10 * Value(s[..|s| - 1])) + DigitValue(s[|s| - 1])
  {
    assert |s| == 1 ==> s[..0] == "";
  }

  lemma NoNoughts(s: string)
    ensures Noughts(0) + s == s
  {
  }

  lemma OneDigit(c: char)
    requires Digit(c)
    ensures Numeral(DigitValue(c)) == [c]
  {
  }

  lemma {:induction false} NoughtsEnd(n: nat)
    ensures Noughts(n) + "0" == Noughts(n + 1)
  {
    if n > 0 {
      NoughtsEnd(n - 1);
      assert "0" + Noughts(n - 1) + "0" == "0" + (Noughts(n - 1) + "0");
    }
  }

  lemma NumeralGrows(v: nat, c: char)
    requires v > 0 && Digit(c)
    ensures Numeral(10 * v + DigitValue(c)) == Numeral(v) + [c]
  {
    var n := 10 * v + DigitValue(c);
    assert n / 10 == v && n % 10 == DigitValue(c);
  }

  lemma AllDigitsRead(s: string, bound: nat)
    requires ParseNumber(s, bound).Some?
    ensures var digits := if s != "" && s[0] == '+' then s[1..] else s;
            && digits != "" && (forall i :: 0 <= i < |digits| ==> Digit(digits[i]))
            && ParseNumber(s, bound) == Some(Value(digits))
  {
  }

  ghost predicate Spells(s: string, plus: bool, noughts: nat, n: nat) {
    s == (if plus then "+" else "") + (Noughts(noughts) + Numeral(n))
  }

  // Nothing else is read as a number.
  lemma OnlyNumeralsRead(s: string, bound: nat, n: nat)
    ensures ParseNumber(s, bound) == Some(n) <==> n < bound && exists plus, noughts :: Spells(s, plus, noughts, n)
  {
    hide Noughts;
    hide Numeral;
    hide Value;
    if ParseNumber(s, bound) == Some(n) {
      var plus := s != "" && s[0] == '+';
      var digits := if s != "" && s[0] == '+' then s[1..] else s;
      AllDigitsRead(s, bound);
      var noughts := DigitsAreNumeral(digits);
      assert s == (if plus then "+" else "") + digits;
      assert Spells(s, plus, noughts, n);
    }
    if plus, noughts: nat :| n < bound && Spells(s, plus, noughts, n) {
      NumberReadsExactly(plus, noughts, n, bound);
    }
  }

  // ----- parameters -----

  predicate HasKey(pair: string, key: string) {
    Lowered(KeyAndValue(pair).0) == key
  }

  function ValueOf(pair: string): string {
    PercentDecoded(KeyAndValue(pair).1)
  }

  // The last value that `counts` among the parameters of this name.
  function Last(pairs: seq<string>, key: string, counts: string -> bool): Option<string> {
    if pairs == [] then None
    else
      var last := pairs[|pairs| - 1];
      if HasKey(last, key) && counts(ValueOf(last)) then Some(ValueOf(last)) else Last(pairs[..|pairs| - 1], key, counts)
  }

  ghost predicate IsLast(pairs: seq<string>, key: string, counts: string -> bool, i: nat) {
    && i < |pairs| && HasKey(pairs[i], key) && counts(ValueOf(pairs[i]))
    && forall j :: i < j < |pairs| && HasKey(pairs[j], key) ==> !counts(ValueOf(pairs[j]))
  }

  lemma {:induction false} LastIsLast(pairs: seq<string>, key: string, counts: string -> bool)
    ensures match Last(pairs, key, counts)
            case Some(v) => exists i: nat :: IsLast(pairs, key, counts, i) && v == ValueOf(pairs[i])
            case None => forall j :: 0 <= j < |pairs| && HasKey(pairs[j], key) ==> !counts(ValueOf(pairs[j]))
  {
    hide HasKey;
    hide ValueOf;
    if pairs != [] {
      var n := |pairs| - 1;
      var rest := pairs[..n];
      assert forall j :: 0 <= j < n ==> rest[j] == pairs[j];
      if HasKey(pairs[n], key) && counts(ValueOf(pairs[n])) {
        assert IsLast(pairs, key, counts, n);
      } else {
        LastIsLast(rest, key, counts);
        if i: nat :| IsLast(rest, key, counts, i) && Last(rest, key, counts) == Some(ValueOf(rest[i])) {
          assert IsLast(pairs, key, counts, i);
        }
      }
    }
  }

  function Always(): string -> bool {
    v => true
  }

  function IsNumber(bound: nat): string -> bool {
    v => ParseNumber(v, bound).Some?
  }

  function OrOld(v: Option<string>, earlier: Option<string>): Option<string> {
    if v.Some? then v else earlier
  }

  // Anything unknown is SHA-1.
  function AlgorithmOr(v: Option<string>, otherwise: Algorithm): Algorithm {
    match v
    case None => otherwise
    case Some(name) => if Uppered(name) == "SHA256" then Sha256 else if Uppered(name) == "SHA512" then Sha512 else Sha1
  }

  function NumberOr(v: Option<string>, bound: nat, otherwise: nat): nat {
    if v.Some? && ParseNumber(v.value, bound).Some? then ParseNumber(v.value, bound).value else otherwise
  }

  // What a draft has become: whatever order and case the names come in, the
  // last value of each, and of digits and period the last that is a number in
  // range; unknown parameters change nothing.
  ghost predicate Read(d: Draft, pairs: seq<string>, r: Draft) {
    && r.secret == OrOld(Last(pairs, "secret", Always()), d.secret)
    && r.issuer == OrOld(Last(pairs, "issuer", Always()), d.issuer)
    && r.config.digits == NumberOr(Last(pairs, "digits", IsNumber(256)), 256, d.config.digits)
    && r.config.step == NumberOr(Last(pairs, "period", IsNumber(U64)), U64, d.config.step)
    && r.config.algorithm == AlgorithmOr(Last(pairs, "algorithm", Always()), d.config.algorithm)
    && r.config.skew == d.config.skew && r.config.account == d.config.account && r.config.issuer == d.config.issuer
  }

  lemma {:induction false} ParametersRead(d: Draft, pairs: seq<string>)
    ensures Read(d, pairs, ReadPairs(d, pairs))
  {
    hide ValueOf;
    hide HasKey;
    hide ReadPair;
    hide NumberOr;
    if pairs != [] {
      var n := |pairs| - 1;
      ParametersRead(d, pairs[..n]);
      OneParameterRead(d, pairs, ReadPairs(d, pairs[..n]));
    } else {
      NothingRead(d);
    }
  }

  lemma NothingRead(d: Draft)
    ensures Read(d, [], d)
  {
  }

  // The five names differ in their first letters.
  lemma NamesDiffer()
    ensures "secret"[0] == 's' && "issuer"[0] == 'i' && "digits"[0] == 'd' && "period"[0] == 'p' && "algorithm"[0] == 'a'
  {
  }

  lemma SettingTexts(r: Draft, key: string, v: string)
    ensures SetParameter(r, key, v).secret == if key == "secret" then Some(v) else r.secret
    ensures SetParameter(r, key, v).issuer == if key == "issuer" then Some(v) else r.issuer
  {
    hide ParseNumber;
    hide Uppered;
    NamesDiffer();
  }

  lemma SettingNumbers(r: Draft, key: string, v: string)
    ensures SetParameter(r, key, v).config.digits
         == if key == "digits" then NumberOr(Some(v), 256, r.config.digits) else r.config.digits
    ensures SetParameter(r, key, v).config.step
         == if key == "period" then NumberOr(Some(v), U64, r.config.step) else r.config.step
  {
    hide ParseNumber;
    hide Uppered;
    NamesDiffer();
  }

  lemma SettingAlgorithm(r: Draft, key: string, v: string)
    ensures SetParameter(r, key, v).config
         == r.config.(digits := SetParameter(r, key, v).config.digits, step := SetParameter(r, key, v).config.step,
                      algorithm := if key == "algorithm" then AlgorithmOr(Some(v), r.config.algorithm) else r.config.algorithm)
  {
    hide ParseNumber;
    hide Uppered;
    NamesDiffer();
  }

  lemma LastGrows(pairs: seq<string>, key: string, counts: string -> bool)
    requires pairs != []
    ensures var last := pairs[|pairs| - 1];
            Last(pairs, key, counts) == if HasKey(last, key) && counts(ValueOf(last)) then Some(ValueOf(last))
                                        else Last(pairs[..|pairs| - 1], key, counts)
  {
  }

  lemma ReadingSets(r: Draft, pair: string)
    ensures ReadPair(r, pair) == SetParameter(r, Lowered(KeyAndValue(pair).0), ValueOf(pair))
  {
    hide SetParameter;
    hide KeyAndValue;
    hide Lowered;
    hide PercentDecoded;
  }

  lemma OneParameterRead(d: Draft, pairs: seq<string>, r: Draft)
    requires pairs != [] && Read(d, pairs[..|pairs| - 1], r)
    ensures Read(d, pairs, ReadPair(r, pairs[|pairs| - 1]))
  {
    hide Last;
    hide ValueOf;
    hide KeyAndValue;
    hide ParseNumber;
    hide SetParameter;
    hide ReadPair;
    hide Lowered;
    hide Uppered;
    var last := pairs[|pairs| - 1];
    var key, v := Lowered(KeyAndValue(last).0), ValueOf(last);
    ReadingSets(r, last);
    SettingTexts(r, key, v);
    SettingNumbers(r, key, v);
    SettingAlgorithm(r, key, v);
    LastGrows(pairs, "secret", Always());
    LastGrows(pairs, "issuer", Always());
    LastGrows(pairs, "digits", IsNumber(256));
    LastGrows(pairs, "period", IsNumber(U64));
    LastGrows(pairs, "algorithm", Always());
  }

  // ----- labels and schemes -----

  // A label is an account, with an issuer in front of the first colon if there
  // is one.
  lemma LabelReads(issuer: Option<string>, account: string)
    requires match issuer
             case None => forall i :: 0 <= i < |account| ==> account[i] != ':'
             case Some(name) => forall i :: 0 <= i < |name| ==> name[i] != ':'
    ensures ReadLabel(match issuer case None => account case Some(name) => name + ":" + account)
         == (match issuer case None => None case Some(name) => Some(Trim(name)), Trim(account))
  {
    hide Trim;
    match issuer
    case None =>
      NoColonNoSplit(account);
    case Some(name) =>
      FirstColonSplits(name, account);
  }

  lemma NoColonNoSplit(account: string)
    requires forall i :: 0 <= i < |account| ==> account[i] != ':'
    ensures SplitOnce(account, ':') == None
  {
    forall k: nat ensures !HitAt(account, ":", k) {
      if k < |account| {
        assert account[k..k + 1][0] == account[k];
      }
    }
    IndexOfIsFirst(account, ":", 0, None);
  }

  lemma FirstColonSplits(name: string, account: string)
    requires forall i :: 0 <= i < |name| ==> name[i] != ':'
    ensures SplitOnce(name + ":" + account, ':') == Some((name, account))
  {
    var s := name + ":" + account;
    forall k | 0 <= k < |name| ensures !HitAt(s, ":", k) {
      assert s[k..k + 1][0] == s[k] == name[k];
    }
    assert s[|name|..|name| + 1] == ":";
    IndexOfIsFirst(s, ":", 0, Some(|name|));
    assert s[..|name|] == name && s[|name| + 1..] == account;
  }

  // Both spellings of the scheme are read alike, and nothing else is taken for
  // an address.
  lemma SchemesRead(uri: string, rest: string)
    ensures Otpauth.Parsed("otpauth://TOTP/" + rest) == Otpauth.Parsed("otpauth://totp/" + rest)
    ensures Otpauth.Parsed(uri) == Err(NotOtpauth) <==> !("otpauth://totp/" <= uri) && !("otpauth://TOTP/" <= uri)
  {
    hide ParseRest;
    var upper, lower := "otpauth://TOTP/" + rest, "otpauth://totp/" + rest;
    assert upper[10] == 'T' && lower[10] == 't';
    assert upper[|SCHEME_UPPER|..] == rest && lower[|SCHEME|..] == rest;
    if "otpauth://totp/" <= uri {
      RestIsAnAddress(uri[|SCHEME|..]);
    }
    if "otpauth://TOTP/" <= uri {
      RestIsAnAddress(uri[|SCHEME_UPPER|..]);
    }
  }

  lemma RestIsAnAddress(rest: string)
    ensures ParseRest(rest) != Err(NotOtpauth)
  {
  }
}
