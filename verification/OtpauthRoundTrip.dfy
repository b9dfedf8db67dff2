// What a printed `otpauth` address reads back as.
module OtpauthRoundTrip {
  import opened Wrappers
  import opened Bytes
  import opened Base32
  import opened Substring
  import opened Text
  import opened Otpauth
  import SplitParser

  // ----- an address as its parameters -----

  predicate PlainChar(c: char) {
    (c as int) < 0x80 && Printed(c as int)
  }

  ghost predicate Plain(s: string) {
    forall i :: 0 <= i < |s| ==> PlainChar(s[i])
  }

  function Parameters(config: TotpConfig, secret: seq<byte>): (ps: seq<string>)
    ensures ps != []
  {
    [ Parameter("secret", Encode(secret)),
      Parameter("digits", Numeral(config.digits)),
      Parameter("period", Numeral(config.step)),
      Parameter("algorithm", AlgorithmText(config.algorithm)) ]
    + (if config.issuer.Some? then [Parameter("issuer", PercentEncoded(config.issuer.value))] else [])
  }

  lemma ValuesArePlain(config: TotpConfig, secret: seq<byte>)
    ensures Plain(Encode(secret)) && Plain(AlgorithmText(config.algorithm))
    ensures Plain(Numeral(config.digits)) && Plain(Numeral(config.step))
  {
    hide Letters;
    hide BitString;
    hide Decimal;
    EncodedIsClean(secret);
    NumeralSpells(config.digits);
    NumeralSpells(config.step);
  }

  lemma PercentIsPlain(s: string)
    ensures Plain(PercentEncoded(s))
  {
    hide Utf8;
    hide PercentAll;
    hide Printed;
    PercentAllIsPrinted(Utf8(s));
    PrintedIsAscii();
  }

  lemma PrintedIsAscii()
    ensures forall b: byte :: Printed(b) ==> b < 0x80
  {
  }

  lemma KeysArePlain()
    ensures Plain("secret") && Plain("digits") && Plain("period") && Plain("algorithm") && Plain("issuer")
  {
  }

  lemma ParameterHasNoMark(key: string, value: string)
    requires Plain(key) && Plain(value)
    ensures forall i :: 0 <= i < |Parameter(key, value)| ==> Parameter(key, value)[i] != '&'
  {
  }

  ghost predicate Unmarked(ps: seq<string>) {
    forall i :: 0 <= i < |ps| ==> ps[i] != "" && forall k :: 0 <= k < |ps[i]| ==> ps[i][k] != '&'
  }

  lemma ParametersAreUnmarked(config: TotpConfig, secret: seq<byte>)
    ensures Unmarked(Parameters(config, secret))
  {
    hide Plain;
    hide Encode;
    hide Numeral;
    hide AlgorithmText;
    hide PercentEncoded;
    KeysArePlain();
    ValuesArePlain(config, secret);
    ParameterHasNoMark("secret", Encode(secret));
    ParameterHasNoMark("digits", Numeral(config.digits));
    ParameterHasNoMark("period", Numeral(config.step));
    ParameterHasNoMark("algorithm", AlgorithmText(config.algorithm));
    if config.issuer.Some? {
      PercentIsPlain(config.issuer.value);
      ParameterHasNoMark("issuer", PercentEncoded(config.issuer.value));
    }
  }

  lemma {:induction false} NonEmptyStays(ps: seq<string>)
    requires forall i :: 0 <= i < |ps| ==> ps[i] != ""
    ensures SplitParser.NonEmpty(ps) == ps
  {
    if ps != [] {
      NonEmptyStays(ps[1..]);
      assert ps == [ps[0]] + ps[1..];
    }
  }

  lemma JoinedSplits(ps: seq<string>)
    requires ps != [] && Unmarked(ps)
    ensures SplitParser.Records(SplitParser.Join(ps, "&"), "&") == ps
  {
    hide SplitParser.Pieces;
    hide SplitParser.Join;
    hide SplitParser.NonEmpty;
    hide IndexOf;
    forall i | 0 <= i < |ps|
      ensures IndexOf(ps[i] + "&", "&", 0) == Some(|ps[i]|) && IndexOf(ps[i], "&", 0).None?
    {
      FirstSeparator(ps[i], '&', "");
      assert ps[i] + ['&'] + "" == ps[i] + "&";
    }
    SplitParser.PiecesAreTheLeftmostCut(SplitParser.Join(ps, "&"), "&", ps);
    NonEmptyStays(ps);
  }

  function Tail(config: TotpConfig, secret: seq<byte>, title: string, username: string): string {
    PercentEncoded(Label(config, title, username)) + "?" + SplitParser.Join(Parameters(config, secret), "&")
  }

  lemma RenderedIsJoined(config: TotpConfig, secret: seq<byte>, title: string, username: string)
    ensures Rendered(config, secret, title, username) == SCHEME + Tail(config, secret, title, username)
  {
    hide Parameter;
    hide Encode;
    hide Numeral;
    hide AlgorithmText;
    hide PercentEncoded;
    hide Label;
    hide SCHEME;
    hide SplitParser.Join;
    var ps, name := Parameters(config, secret), PercentEncoded(Label(config, title, username));
    var front := SCHEME + name + "?";
    var four := [ps[0], ps[1], ps[2], ps[3]];
    JoinFour(front, ps[0], ps[1], ps[2], ps[3]);
    if config.issuer.Some? {
      assert ps == four + [ps[4]];
      JoinOneMore(four, ps[4]);
      Regroup(front, SplitParser.Join(four, "&") + "&", ps[4]);
      Regroup(front, SplitParser.Join(four, "&"), "&");
      Regroup(front + SplitParser.Join(four, "&"), "&", ps[4]);
    } else {
      assert ps == four;
      assert front + SplitParser.Join(four, "&") + "" == front + SplitParser.Join(four, "&");
    }
    Regroup(SCHEME, name + "?", SplitParser.Join(ps, "&"));
    Regroup(SCHEME, name, "?");
  }

  lemma Regroup(a: string, b: string, c: string)
    ensures a + (b + c) == a + b + c
  {
  }

  lemma {:induction false} JoinOneMore(ps: seq<string>, p: string)
    requires ps != []
    ensures SplitParser.Join(ps + [p], "&") == SplitParser.Join(ps, "&") + "&" + p
  {
    if |ps| == 1 {
      assert (ps + [p])[1..] == [p];
    } else {
      assert (ps + [p])[1..] == ps[1..] + [p];
      JoinOneMore(ps[1..], p);
    }
  }

  lemma JoinFour(front: string, a: string, b: string, c: string, d: string)
    ensures front + SplitParser.Join([a, b, c, d], "&") == front + a + "&" + b + "&" + c + "&" + d
  {
    hide SplitParser.Join;
    JoinOne(a);
    JoinOneMore([a], b);
    JoinOneMore([a, b], c);
    JoinOneMore([a, b, c], d);
    assert [a] + [b] == [a, b] && [a, b] + [c] == [a, b, c] && [a, b, c] + [d] == [a, b, c, d];
    Regroup(front, a, "&");
    Regroup(front, a + "&", b);
    Regroup(front, a + "&" + b, "&");
    Regroup(front, a + "&" + b + "&", c);
    Regroup(front, a + "&" + b + "&" + c, "&");
    Regroup(front, a + "&" + b + "&" + c + "&", d);
  }

  lemma JoinOne(a: string)
    ensures SplitParser.Join([a], "&") == a
  {
  }

  // ----- reading them -----

  lemma SplitsAtFirst(a: string, c: char, b: string)
    requires forall i :: 0 <= i < |a| ==> a[i] != c
    ensures SplitOnce(a + [c] + b, c) == Some((a, b))
  {
    hide IndexOf;
    FirstSeparator(a, c, b);
    var s := a + [c] + b;
    assert s[..|a|] == a && s[|a| + 1..] == b;
  }

  lemma ParameterReads(d: Draft, key: string, value: string)
    requires forall i :: 0 <= i < |key| ==> 'a' <= key[i] <= 'z'
    ensures ReadPair(d, Parameter(key, value)) == SetParameter(d, key, PercentDecoded(value))
  {
    hide SetParameter;
    hide SplitOnce;
    hide PercentDecoded;
    hide Lowered;
    SplitsAtFirst(key, '=', value);
    LowerStays(key);
  }

  lemma AlgorithmReads(a: Algorithm)
    ensures AlgorithmOf(AlgorithmText(a)) == a
  {
    hide Uppered;
    UpperStays(AlgorithmText(a));
    assert AlgorithmText(Sha1) == "SHA1" && AlgorithmText(Sha256)[3] == '2' && AlgorithmText(Sha512)[3] == '5';
  }

  lemma SecretReads(d: Draft, secret: seq<byte>)
    ensures ReadPair(d, Parameter("secret", Encode(secret))) == d.(secret := Some(Encode(secret)))
  {
    hide ReadPair;
    hide Parameter;
    hide Letters;
    hide BitString;
    hide PercentDecoded;
    EncodedIsClean(secret);
    PlainDecodes(Encode(secret));
    ParameterReads(d, "secret", Encode(secret));
  }

  lemma IssuerReads(d: Draft, issuer: string)
    ensures ReadPair(d, Parameter("issuer", PercentEncoded(issuer))) == d.(issuer := Some(issuer))
  {
    hide ReadPair;
    hide Parameter;
    hide PercentEncoded;
    hide PercentDecoded;
    PercentDecodeUndoesEncode(issuer);
    ParameterReads(d, "issuer", PercentEncoded(issuer));
    assert "issuer"[0] == 'i' && "secret"[0] == 's';
  }

  lemma DigitsRead(d: Draft, n: byte)
    ensures ReadPair(d, Parameter("digits", Numeral(n))) == d.(config := d.config.(digits := n))
  {
    hide ReadPair;
    hide Parameter;
    hide Numeral;
    hide PercentDecoded;
    hide ParseNumber;
    NumeralSpells(n);
    PlainDecodes(Numeral(n));
    NumberReads(n, 256);
    ParameterReads(d, "digits", Numeral(n));
    assert "digits"[0] == 'd' && "issuer"[0] == 'i' && "secret"[0] == 's';
  }

  lemma PeriodReads(d: Draft, n: u64)
    ensures ReadPair(d, Parameter("period", Numeral(n))) == d.(config := d.config.(step := n))
  {
    hide ReadPair;
    hide Parameter;
    hide Numeral;
    hide PercentDecoded;
    hide ParseNumber;
    NumeralSpells(n);
    PlainDecodes(Numeral(n));
    NumberReads(n, U64);
    ParameterReads(d, "period", Numeral(n));
    assert "period"[0] == 'p' && "digits"[0] == 'd' && "issuer"[0] == 'i' && "secret"[0] == 's';
  }

  lemma AlgorithmIsRead(d: Draft, a: Algorithm)
    ensures ReadPair(d, Parameter("algorithm", AlgorithmText(a))) == d.(config := d.config.(algorithm := a))
  {
    hide ReadPair;
    hide Parameter;
    hide PercentDecoded;
    hide AlgorithmOf;
    PlainDecodes(AlgorithmText(a));
    AlgorithmReads(a);
    ParameterReads(d, "algorithm", AlgorithmText(a));
    assert "algorithm"[0] == 'a' && "period"[0] == 'p' && "digits"[0] == 'd' && "issuer"[0] == 'i' && "secret"[0] == 's';
  }

  lemma ReadPairsGrow(d: Draft, pairs: seq<string>, pair: string)
    ensures ReadPairs(d, pairs + [pair]) == ReadPair(ReadPairs(d, pairs), pair)
  {
    hide ReadPair;
    assert (pairs + [pair])[..|pairs|] == pairs;
  }

  lemma ParametersRead(d: Draft, config: TotpConfig, secret: seq<byte>)
    ensures ReadPairs(d, Parameters(config, secret))
         == Draft(Some(Encode(secret)), if config.issuer.Some? then config.issuer else d.issuer,
                  d.config.(digits := config.digits, step := config.step, algorithm := config.algorithm))
  {
    hide ReadPairs;
    hide ReadPair;
    hide Parameter;
    hide Encode;
    hide Numeral;
    hide PercentEncoded;
    hide AlgorithmText;
    var ps := Parameters(config, secret);
    NoPairs(d);
    ReadPairsGrow(d, [], ps[0]);
    ReadPairsGrow(d, [ps[0]], ps[1]);
    ReadPairsGrow(d, [ps[0], ps[1]], ps[2]);
    ReadPairsGrow(d, [ps[0], ps[1], ps[2]], ps[3]);
    var d1 := d.(secret := Some(Encode(secret)));
    var d2 := d1.(config := d1.config.(digits := config.digits));
    var d3 := d2.(config := d2.config.(step := config.step));
    SecretReads(d, secret);
    DigitsRead(d1, config.digits);
    PeriodReads(d2, config.step);
    AlgorithmIsRead(d3, config.algorithm);
    var four := [ps[0], ps[1], ps[2], ps[3]];
    assert [] + [ps[0]] == [ps[0]] && [ps[0]] + [ps[1]] == [ps[0], ps[1]];
    assert [ps[0], ps[1]] + [ps[2]] == [ps[0], ps[1], ps[2]] && [ps[0], ps[1], ps[2]] + [ps[3]] == four;
    if config.issuer.Some? {
      ReadPairsGrow(d, four, ps[4]);
      IssuerReads(ReadPairs(d, four), config.issuer.value);
      assert four + [ps[4]] == ps;
    } else {
      assert four == ps;
    }
  }

  lemma NoPairs(d: Draft)
    ensures ReadPairs(d, []) == d
  {
  }

  // ----- what comes back -----

  // The configuration a printed address reads back as.
  function Returned(config: TotpConfig, title: string, username: string): TotpConfig {
    var (issuer, account) := ReadLabel(Label(config, title, username));
    TotpConfig(
      if config.issuer.Some? then config.issuer else issuer,
      if account == "" then None else Some(account),
      config.digits, config.step, 1, config.algorithm)
  }

  // What reading a printed address gives.
  function Outcome(config: TotpConfig, secret: seq<byte>, title: string, username: string): Result<Enrolment, OtpauthError> {
    if secret == [] then Err(BadSecret(EmptySecret))
    else if !(6 <= config.digits <= 8) then Err(BadDigits)
    else if config.step == 0 then Err(ZeroPeriod)
    else Ok(Enrolment(secret, Returned(config, title, username)))
  }

  lemma ParseUndoesRender(config: TotpConfig, secret: seq<byte>, title: string, username: string)
    ensures Parsed(Rendered(config, secret, title, username)) == Outcome(config, secret, title, username)
  {
    hide Rendered;
    hide ReadPairs;
    hide Parameters;
    hide Encode;
    hide PercentEncoded;
    hide PercentDecoded;
    hide Label;
    hide ReadLabel;
    hide ReadSecret;
    hide SplitParser.Join;
    hide SplitParser.Records;
    hide SplitOnce;
    hide Cleaned;
    hide SCHEME;
    RenderedIsJoined(config, secret, title, username);
    var text, ps := Label(config, title, username), Parameters(config, secret);
    var query := SplitParser.Join(ps, "&");
    PercentIsPlain(text);
    SplitsAtFirst(PercentEncoded(text), '?', query);
    PercentDecodeUndoesEncode(text);
    ParametersAreUnmarked(config, secret);
    JoinedSplits(ps);
    ParametersRead(Draft(None, ReadLabel(text).0, DEFAULT), config, secret);
    EncodedIsClean(secret);
    CopiedSecretReads(Encode(secret), secret);
    assert (SCHEME + Tail(config, secret, title, username))[|SCHEME|..] == Tail(config, secret, title, username);
  }

  // ----- an address as a cell -----

  lemma EndsPlain(front: string, key: string, value: string)
    requires Plain(value)
    ensures var s := front + Parameter(key, value); s != "" && !IsSpace(s[|s| - 1])
  {
    assert (key + "=")[|key|] == '=';
  }

  // An address is no blank cell, and trimming leaves it alone.
  lemma RenderedIsTidy(config: TotpConfig, secret: seq<byte>, title: string, username: string)
    ensures var s := Rendered(config, secret, title, username); Tidy(s) && "otpauth://" <= s
  {
    hide Parameter;
    hide Encode;
    hide Numeral;
    hide PercentEncoded;
    hide AlgorithmText;
    hide Label;
    hide Plain;
    hide Trim;
    hide IsSpace;
    var s := Rendered(config, secret, title, username);
    var front := SCHEME + PercentEncoded(Label(config, title, username)) + "?"
                 + Parameter("secret", Encode(secret)) + "&"
                 + Parameter("digits", Numeral(config.digits)) + "&"
                 + Parameter("period", Numeral(config.step)) + "&";
    ValuesArePlain(config, secret);
    EndsPlain(front, "algorithm", AlgorithmText(config.algorithm));
    if config.issuer.Some? {
      PercentIsPlain(config.issuer.value);
      var more := front + Parameter("algorithm", AlgorithmText(config.algorithm));
      EndsPlain(more + "&", "issuer", PercentEncoded(config.issuer.value));
      Regroup(more, "&", Parameter("issuer", PercentEncoded(config.issuer.value)));
    } else {
      assert front + Parameter("algorithm", AlgorithmText(config.algorithm)) + "" == s;
    }
    SchemeOpens();
    assert SCHEME <= s && s[0] == SCHEME[0];
    TrimTidy(s);
  }

  lemma SchemeOpens()
    ensures "otpauth://" <= SCHEME && SCHEME != "" && !IsSpace(SCHEME[0])
  {
  }

  // ----- which configurations come back -----

  // The first colon of a label is the one after the issuer, or one inside it.
  lemma LabelSplits(issuer: string, account: string)
    ensures var s := issuer + ":" + account;
            SplitOnce(s, ':').Some?
            && ((forall i :: 0 <= i < |issuer| ==> issuer[i] != ':') ==> SplitOnce(s, ':') == Some((issuer, account)))
            && (!(forall i :: 0 <= i < |issuer| ==> issuer[i] != ':') ==>
                  exists x :: SplitOnce(s, ':').value.1 == x + [':'] + account)
  {
    hide IndexOf;
    var s, first := issuer + ":" + account, IndexOf(issuer + ":" + account, ":", 0);
    if forall i :: 0 <= i < |issuer| ==> issuer[i] != ':' {
      SplitsAtFirst(issuer, ':', account);
    } else {
      var k :| 0 <= k < |issuer| && issuer[k] == ':';
      IndexOfIsFirst(s, ":", 0, first);
      assert s[k..k + 1] == ":" && HitAt(s, ":", k);
      var h := first.value;
      assert s[h + 1..] == issuer[h + 1..] + [':'] + account;
    }
  }

  lemma {:induction false} TrimStartStops(x: string, c: char, rest: string)
    requires !IsSpace(c)
    ensures |TrimStart(x + [c] + rest)| > |rest|
    decreases |x|
  {
    hide IsSpace;
    var s := x + [c] + rest;
    if x == "" {
      assert s[0] == c;
    } else if IsSpace(x[0]) {
      assert s[1..] == x[1..] + [c] + rest;
      TrimStartStops(x[1..], c, rest);
    }
  }

  // What trimming makes of an account that a colon precedes is not that account.
  lemma AccountIsSwallowed(x: string, account: string)
    ensures Trim(x + [':'] + account) != "" && Trim(x + [':'] + account) != account
  {
    hide TrimStart;
    hide IsSpace;
    var s := x + [':'] + account;
    ColonIsNoSpace();
    if account != "" && !IsSpace(account[|account| - 1]) {
      assert TrimEnd(s) == s;
      TrimStartStops(x, ':', account);
    } else {
      EndStops(x + [':'], account);
      var kept := TrimEnd(s)[|x| + 1..];
      assert TrimEnd(s) == x + [':'] + kept;
      TrimStartStops(x, ':', kept);
      TrimmedIsTidy(s);
    }
  }

  lemma ColonIsNoSpace()
    ensures !IsSpace(':')
  {
  }

  lemma {:induction false} EndStops(front: string, rest: string)
    requires front != "" && !IsSpace(front[|front| - 1])
    ensures front <= TrimEnd(front + rest)
    decreases |rest|
  {
    hide IsSpace;
    var s := front + rest;
    if rest == "" {
      assert s == front;
    } else if IsSpace(rest[|rest| - 1]) {
      assert s[..|s| - 1] == front + rest[..|rest| - 1];
      EndStops(front, rest[..|rest| - 1]);
    }
  }

  ghost predicate Restorable(config: TotpConfig, username: string) {
    && config.skew == DEFAULT.skew
    && config.issuer.Some?
    && (forall i :: 0 <= i < |config.issuer.value| ==> config.issuer.value[i] != ':')
    && (match config.account case Some(a) => Tidy(a) case None => Trim(username) == "")
  }

  // A configuration comes back exactly when its skew is the usual one, it has
  // an issuer without a colon, and an account without white space around it or
  // no user name to stand in for one.
  lemma ConfigComesBack(config: TotpConfig, title: string, username: string)
    ensures Returned(config, title, username) == config <==> Restorable(config, username)
  {
    hide SplitOnce;
    hide Trim;
    var issuer := if config.issuer.Some? then config.issuer.value else title;
    var account := if config.account.Some? then config.account.value else username;
    LabelSplits(issuer, account);
    if config.issuer.Some? && !(forall i :: 0 <= i < |issuer| ==> issuer[i] != ':') {
      var x :| SplitOnce(issuer + ":" + account, ':').value.1 == x + [':'] + account;
      AccountIsSwallowed(x, account);
    }
  }

  // ----- addresses from elsewhere -----

  lemma SkewStays(d: Draft, pair: string)
    ensures ReadPair(d, pair).config.skew == d.config.skew
  {
    hide AlgorithmOf;
    hide ParseNumber;
    hide PercentDecoded;
    hide KeyAndValue;
    hide Lowered;
  }

  lemma {:induction false} NoParameterSetsSkew(d: Draft, pairs: seq<string>)
    ensures ReadPairs(d, pairs).config.skew == d.config.skew
  {
    hide ReadPair;
    if pairs != [] {
      NoParameterSetsSkew(d, pairs[..|pairs| - 1]);
      SkewStays(ReadPairs(d, pairs[..|pairs| - 1]), pairs[|pairs| - 1]);
    }
  }

  lemma LabelIsTrimmed(text: string)
    ensures ReadLabel(text).1 != "" ==> Tidy(ReadLabel(text).1)
  {
    hide Trim;
    hide SplitOnce;
    match SplitOnce(text, ':')
    case None => TrimmedIsTidy(text);
    case Some((i, a)) => TrimmedIsTidy(a);
  }

  lemma RestIsSound(rest: string)
    requires ParseRest(rest).Ok?
    ensures var c := ParseRest(rest).value.config;
            && 6 <= c.digits <= 8 && c.step != 0 && c.skew == DEFAULT.skew
            && (c.account.Some? ==> Tidy(c.account.value))
  {
    hide ReadPairs;
    hide ReadLabel;
    hide ReadSecret;
    hide SplitOnce;
    hide PercentDecoded;
    hide SplitParser.Records;
    hide Tidy;
    var (name, query) := match SplitOnce(rest, '?') { case None => (rest, "") case Some(lq) => lq };
    var text := PercentDecoded(name);
    LabelIsTrimmed(text);
    NoParameterSetsSkew(Draft(None, ReadLabel(text).0, DEFAULT), SplitParser.Records(query, "&"));
  }

  // Whatever address a second factor was read from, its settings are within
  // limits, and printing it and reading it again gives it back exactly when it
  // has a seed, an issuer without a colon, and an account or no user name that
  // would stand in for one.
  lemma ReadAgain(uri: string, title: string, username: string)
    requires Parsed(uri).Ok?
    ensures var e := Parsed(uri).value;
            && 6 <= e.config.digits <= 8 && e.config.step != 0
            && (Parsed(Rendered(e.config, e.secret, title, username)) == Ok(e)
                <==> && e.secret != []
                     && e.config.issuer.Some?
                     && (forall i :: 0 <= i < |e.config.issuer.value| ==> e.config.issuer.value[i] != ':')
                     && (e.config.account.Some? || Trim(username) == ""))
  {
    hide ParseRest;
    hide Rendered;
    hide Trim;
    hide Returned;
    var e := Parsed(uri).value;
    RestIsSound(uri[|SCHEME|..]);
    assert |SCHEME| == |SCHEME_UPPER|;
    ParseUndoesRender(e.config, e.secret, title, username);
    ConfigComesBack(e.config, title, username);
  }
}
