// Which relying-party ids an origin may claim, of
// crates/blackbag-core/src/passkey.rs: string tests standing for a rule about
// labels.
module RelyingParty {
  import opened Wrappers
  import opened Substring
  import opened Text

  // The registrable domain the public suffix list derives for a name, if any.
  type SuffixList = string -> Option<string>

  predicate EndsWith(s: string, tail: string) {
    |tail| <= |s| && s[|s| - |tail|..] == tail
  }

  function TrimDots(s: string): string {
    if s != "" && s[|s| - 1] == '.' then TrimDots(s[..|s| - 1]) else s
  }

  // trim_end_matches('.') and to_ascii_lowercase.
  function Canonical(name: string): string {
    Lowered(TrimDots(name))
  }

  // ----- the suffix rule -----

  function PublicSuffixOf(host: string, list: SuffixList): Option<string> {
    match list(host)
    case Some(domain) =>
      (match IndexOf(domain, ".", 0)
       case None => None
       case Some(dot) => Some(domain[dot + 1..]))
    case None => Some(host)
  }

  predicate IsSuffixOfOrEqual(suffix: string, host: string, list: SuffixList) {
    if suffix == "" || host == "" then false
    else if suffix == host then true
    else if !EndsWith(host, "." + suffix) then false
    else if list(suffix).None? then false
    else match PublicSuffixOf(host, list)
         case Some(ps) => ps != suffix && !EndsWith(ps, "." + suffix)
         case None => true
  }

  // ----- origins -----

  predicate AllDigits(s: string) {
    forall i :: 0 <= i < |s| ==> '0' <= s[i] <= '9'
  }

  // Where the last `c` stands, when there is one.
  function LastIndexOf(s: string, c: char): (r: Option<nat>)
    ensures r.Some? ==> r.value < |s| && s[r.value] == c && forall i :: r.value < i < |s| ==> s[i] != c
    ensures r.None? ==> forall i :: 0 <= i < |s| ==> s[i] != c
  {
    if s == "" then None
    else if s[|s| - 1] == c then Some(|s| - 1)
    else LastIndexOf(s[..|s| - 1], c)
  }

  function StripPort(host: string): string {
    match LastIndexOf(host, ':')
    case None => host
    case Some(colon) => if !EndsWith(host[..colon], "]") && AllDigits(host[colon + 1..]) then host[..colon] else host
  }

  predicate IsLocalhost(host: string) {
    host == "localhost" || EndsWith(host, ".localhost")
  }

  // `isIp` is whether a text parses as an IP address.
  function OriginHost(origin: string, isIp: string -> bool): Option<string> {
    match IndexOf(origin, "://", 0)
    case None => None
    case Some(mark) =>
      var scheme, rest := origin[..mark], origin[mark + 3..];
      var authority := match IndexOf(rest, "/", 0) case None => rest case Some(slash) => rest[..slash];
      if '@' in authority then None
      else
        var host := Canonical(StripPort(authority));
        if host == "" then None
        else if isIp(host) || (host[0] == '[' && host[|host| - 1] == ']') then None
        else if Lowered(scheme) == "https" then Some(host)
        else if Lowered(scheme) == "http" && IsLocalhost(host) then Some(host)
        else None
  }

  predicate RpIdIsValidForOrigin(rpId: string, origin: string, isIp: string -> bool, list: SuffixList) {
    match OriginHost(origin, isIp)
    case None => false
    case Some(host) => IsSuffixOfOrEqual(Canonical(rpId), host, list)
  }

  // For an id that comes without an origin.
  predicate RpIdIsRegistrable(rpId: string, isIp: string -> bool, list: SuffixList) {
    var rp := Canonical(rpId);
    if rp == "" || isIp(rp) then false
    else if IsLocalhost(rp) then true
    else list(rp).Some?
  }

  // ----- labels -----

  // The dot-separated labels of a name.
  function Labels(s: string): (r: seq<string>)
    ensures |r| >= 1
  {
    if s == "" then [""]
    else if s[0] == '.' then [""] + Labels(s[1..])
    else var rest := Labels(s[1..]); [[s[0]] + rest[0]] + rest[1..]
  }

  function Dotted(labels: seq<string>): string {
    if labels == [] then ""
    else if |labels| == 1 then labels[0]
    else labels[0] + "." + Dotted(labels[1..])
  }

  lemma {:induction false} LabelsOfJoin(a: string, b: string)
    ensures Labels(a + "." + b) == Labels(a) + Labels(b)
    decreases |a|
  {
    var s := a + "." + b;
    if a == "" {
      assert s[1..] == b;
    } else {
      assert s[1..] == a[1..] + "." + b;
      LabelsOfJoin(a[1..], b);
    }
  }

  lemma {:induction false} DottedUndoesLabels(s: string)
    ensures Dotted(Labels(s)) == s
  {
    if s != "" {
      DottedUndoesLabels(s[1..]);
      var rest := Labels(s[1..]);
      if s[0] == '.' {
        assert ([""] + rest)[1..] == rest;
        assert s == "." + s[1..];
      } else {
        assert ([[s[0]] + rest[0]] + rest[1..])[1..] == rest[1..];
        assert s == [s[0]] + s[1..];
      }
    }
  }

  lemma {:induction false} DottedJoins(a: seq<string>, b: seq<string>)
    requires a != [] && b != []
    ensures Dotted(a + b) == Dotted(a) + "." + Dotted(b)
    decreases |a|
  {
    assert (a + b)[1..] == a[1..] + b;
    if |a| > 1 {
      DottedJoins(a[1..], b);
    } else {
      assert a[1..] + b == b;
    }
  }

  // `a` is what is left of `b` after dropping some labels in front, or `b`.
  ghost predicate AtOrAbove(a: string, b: string) {
    |Labels(a)| <= |Labels(b)| && Labels(b)[|Labels(b)| - |Labels(a)|..] == Labels(a)
  }

  // The string test stands for the label rule, dots and empty labels included.
  lemma EndsAtALabel(a: string, b: string)
    ensures a == b || EndsWith(b, "." + a) <==> AtOrAbove(a, b)
  {
    hide Labels;
    hide Dotted;
    DottedUndoesLabels(a);
    DottedUndoesLabels(b);
    if EndsWith(b, "." + a) {
      var front := b[..|b| - |a| - 1];
      assert b == front + ("." + a) == front + "." + a;
      LabelsOfJoin(front, a);
      assert (Labels(front) + Labels(a))[|Labels(front)|..] == Labels(a);
    }
    if AtOrAbove(a, b) {
      var front := Labels(b)[..|Labels(b)| - |Labels(a)|];
      assert Labels(b) == front + Labels(a);
      if front == [] {
        assert Labels(b) == Labels(a);
      } else {
        DottedJoins(front, Labels(a));
        assert b == Dotted(front) + "." + a;
        assert b[|b| - |a| - 1..] == "." + a;
      }
    }
  }

  // Of two names above a third, the one with more labels is below the other.
  lemma AboveIsTotal(a: string, b: string, host: string)
    requires AtOrAbove(a, host) && AtOrAbove(b, host)
    ensures AtOrAbove(a, b) <==> |Labels(a)| <= |Labels(b)|
  {
    hide Labels;
    var x, y, h := Labels(a), Labels(b), Labels(host);
    if |x| <= |y| {
      assert y[|y| - |x|..] == h[|h| - |x|..];
    }
  }

  // What the list answers for a name is a name at or above it.
  ghost predicate Sound(list: SuffixList) {
    forall host :: list(host).Some? ==> AtOrAbove(list(host).value, host)
  }

  lemma {:induction false} NoDotOneLabel(s: string)
    requires forall i :: 0 <= i < |s| ==> s[i] != '.'
    ensures Labels(s) == [s]
  {
    if s != "" {
      NoDotOneLabel(s[1..]);
      assert s == [s[0]] + s[1..];
    }
  }

  lemma FirstDot(s: string)
    ensures var dot := IndexOf(s, ".", 0);
            if dot.None? then |Labels(s)| == 1
            else Labels(s[dot.value + 1..]) == Labels(s)[1..]
  {
    hide Labels;
    var dot := IndexOf(s, ".", 0);
    IndexOfIsFirst(s, ".", 0, dot);
    var n := if dot.Some? then dot.value else |s|;
    forall i | 0 <= i < n ensures s[i] != '.' {
      assert s[i..i + 1] == [s[i]];
      assert !HitAt(s, ".", i);
    }
    NoDotOneLabel(s[..n]);
    if dot.Some? {
      assert HitAt(s, ".", n) && s[n..n + 1] == ".";
      assert s == s[..n] + "." + s[n + 1..];
      LabelsOfJoin(s[..n], s[n + 1..]);
    } else {
      assert s[..n] == s;
    }
  }

  lemma AboveItself(a: string)
    ensures AtOrAbove(a, a)
  {
    hide Labels;
  }

  lemma DroppedIsAbove(domain: string, host: string)
    requires AtOrAbove(domain, host)
    ensures var dot := IndexOf(domain, ".", 0);
            if dot.None? then |Labels(domain)| == 1
            else AtOrAbove(domain[dot.value + 1..], host) && |Labels(domain[dot.value + 1..])| == |Labels(domain)| - 1
  {
    hide Labels;
    FirstDot(domain);
    var dot := IndexOf(domain, ".", 0);
    var d, h := Labels(domain), Labels(host);
    assert d[1..] == h[|h| - |d| + 1..];
  }

  // The rule in labels: the host itself, or a name above the host that has a
  // registrable domain of its own and lies at or below the host's.
  lemma SuffixRuleIsLabelRule(suffix: string, host: string, list: SuffixList)
    requires Sound(list)
    ensures IsSuffixOfOrEqual(suffix, host, list) <==>
            suffix != "" && host != ""
            && (suffix == host
                || (AtOrAbove(suffix, host) && list(suffix).Some?
                    && list(host).Some? && AtOrAbove(list(host).value, suffix)))
  {
    hide Labels;
    hide IndexOf;
    hide EndsWith;
    hide AtOrAbove;
    EndsAtALabel(suffix, host);
    if suffix != "" && host != "" && suffix != host && AtOrAbove(suffix, host) && list(suffix).Some? {
      EndsAtALabel(suffix, PublicSuffixOr(host, list));
      if list(host).Some? {
        var domain := list(host).value;
        DroppedIsAbove(domain, host);
        if PublicSuffixOf(host, list).Some? {
          AboveIsTotal(suffix, PublicSuffixOr(host, list), host);
        }
        AboveIsTotal(domain, suffix, host);
      }
    }
  }

  function PublicSuffixOr(host: string, list: SuffixList): string {
    match PublicSuffixOf(host, list) case Some(ps) => ps case None => host
  }

  // ----- whole origins -----

  // An accepted id belongs to the origin: it is the host, or a name that lies
  // between the host and the host's registrable domain.
  lemma AcceptedIdBelongsToOrigin(rpId: string, origin: string, isIp: string -> bool, list: SuffixList)
    requires Sound(list) && RpIdIsValidForOrigin(rpId, origin, isIp, list)
    ensures var host, rp := OriginHost(origin, isIp), Canonical(rpId);
            host.Some? && AtOrAbove(rp, host.value)
            && (rp == host.value || (list(host.value).Some? && AtOrAbove(list(host.value).value, rp)))
  {
    hide OriginHost;
    hide Canonical;
    hide IsSuffixOfOrEqual;
    hide AtOrAbove;
    var host := OriginHost(origin, isIp).value;
    SuffixRuleIsLabelRule(Canonical(rpId), host, list);
    AboveItself(host);
  }

  // An id accepted for a page other than its own host is one somebody could
  // own, unless it reads as an IP address.
  lemma AcceptedSuffixIsRegistrable(rpId: string, origin: string, isIp: string -> bool, list: SuffixList)
    requires RpIdIsValidForOrigin(rpId, origin, isIp, list) && OriginHost(origin, isIp) != Some(Canonical(rpId))
    ensures RpIdIsRegistrable(rpId, isIp, list) <==> !isIp(Canonical(rpId))
  {
    hide OriginHost;
    hide Canonical;
  }

  // The one carve-out is a name whose last label is "localhost".
  lemma LocalhostIsALabel(host: string)
    ensures IsLocalhost(host) <==> AtOrAbove("localhost", host)
  {
    hide AtOrAbove;
    hide EndsWith;
    assert "." + "localhost" == ".localhost";
    EndsAtALabel("localhost", host);
  }

  // Without an origin, an id under localhost is let through, an IP address
  // refused, and of any other the list decides.
  lemma RegistrableExactly(rpId: string, isIp: string -> bool, list: SuffixList)
    ensures var rp := Canonical(rpId);
            RpIdIsRegistrable(rpId, isIp, list) <==>
            rp != "" && !isIp(rp) && (AtOrAbove("localhost", rp) || list(rp).Some?)
  {
    hide Canonical;
    hide AtOrAbove;
    LocalhostIsALabel(Canonical(rpId));
  }

  // Only a secure context has a host: https, or http on localhost.
  lemma OnlySecureOriginsHaveHosts(origin: string, isIp: string -> bool)
    requires OriginHost(origin, isIp).Some?
    ensures var mark, host := IndexOf(origin, "://", 0), OriginHost(origin, isIp).value;
            && mark.Some? && host != "" && host[|host| - 1] != '.' && !isIp(host)
            && (Lowered(origin[..mark.value]) == "https"
                || (Lowered(origin[..mark.value]) == "http" && AtOrAbove("localhost", host)))
  {
    hide IndexOf;
    hide Lowered;
    hide Canonical;
    hide StripPort;
    hide IsLocalhost;
    hide AtOrAbove;
    var mark := IndexOf(origin, "://", 0).value;
    var rest := origin[mark + 3..];
    var slash := IndexOf(rest, "/", 0);
    CanonicalHasNoLastDot(StripPort(if slash.None? then rest else rest[..slash.value]));
    LocalhostIsALabel(OriginHost(origin, isIp).value);
  }

  lemma {:induction false} TrimDotsTrims(s: string)
    ensures TrimDots(s) != "" ==> TrimDots(s)[|TrimDots(s)| - 1] != '.'
  {
    if s != "" {
      TrimDotsTrims(s[..|s| - 1]);
    }
  }

  lemma CanonicalHasNoLastDot(name: string)
    ensures Canonical(name) != "" ==> Canonical(name)[|Canonical(name)| - 1] != '.'
  {
    TrimDotsTrims(name);
  }

  lemma {:induction false} TrimDotsCuts(s: string)
    ensures var t := TrimDots(s);
            |t| <= |s| && t == s[..|t|] && forall i :: |t| <= i < |s| ==> s[i] == '.'
  {
    if s != "" && s[|s| - 1] == '.' {
      TrimDotsCuts(s[..|s| - 1]);
      var t := TrimDots(s);
      assert forall i :: |t| <= i < |s| - 1 ==> s[i] == s[..|s| - 1][i];
    }
  }

  // The name without the dots it ends in, its capitals made small.
  lemma CanonicalIs(name: string)
    ensures var c := Canonical(name);
            && |c| <= |name|
            && (forall i :: |c| <= i < |name| ==> name[i] == '.')
            && (c != "" ==> c[|c| - 1] != '.')
            && (forall i :: 0 <= i < |c| ==>
                  c[i] as int == if 'A' <= name[i] <= 'Z' then name[i] as int - 'A' as int + 'a' as int else name[i] as int)
  {
    TrimDotsTrims(name);
    TrimDotsCuts(name);
  }

  predicate Without(s: string, c: char) {
    forall i :: 0 <= i < |s| ==> s[i] != c
  }

  function Authority(name: string, port: Option<string>): string {
    match port case None => name case Some(p) => name + ":" + p
  }

  predicate InBrackets(s: string) {
    s != "" && s[0] == '[' && s[|s| - 1] == ']'
  }

  // What a host is worth under a scheme.
  ghost function SecureHost(scheme: string, host: string): Option<string> {
    if Lowered(scheme) == "https" || (Lowered(scheme) == "http" && AtOrAbove("localhost", host)) then Some(host) else None
  }

  predicate IsPort(p: string) {
    forall i :: 0 <= i < |p| ==> p[i] in {'0', '1', '2', '3', '4', '5', '6', '7', '8', '9'}
  }

  // A written origin reads back as its host when it is secure, whatever scheme
  // it has: any path is dropped, and so is a port of digits, and case and
  // trailing dots do not matter.
  lemma OriginReadsBack(scheme: string, name: string, port: Option<string>, path: string, isIp: string -> bool)
    requires Without(scheme, ':')
    requires Without(name, '/') && Without(name, ':') && Without(name, '@') && !EndsWith(name, "]")
    requires port.Some? ==> Without(port.value, '/') && Without(port.value, ':') && Without(port.value, '@')
    requires path == "" || path[0] == '/'
    ensures var host := Canonical(if port.Some? && !IsPort(port.value) then Authority(name, port) else name);
            OriginHost(scheme + "://" + Authority(name, port) + path, isIp)
            == if host == "" || isIp(host) || InBrackets(host) then None else SecureHost(scheme, host)
  {
    hide IndexOf;
    hide Lowered;
    hide Canonical;
    hide EndsWith;
    hide StripPort;
    hide Authority;
    hide Without;
    hide AtOrAbove;
    hide IsLocalhost;
    AuthorityHas(name, port, '/');
    AuthorityHas(name, port, '@');
    OriginParts(scheme, Authority(name, port), path, isIp);
    PortStrips(name, port);
  }

  // Of an origin, only scheme and authority count.
  lemma OriginParts(scheme: string, authority: string, path: string, isIp: string -> bool)
    requires Without(scheme, ':') && Without(authority, '/') && Without(authority, '@')
    requires path == "" || path[0] == '/'
    ensures var host := Canonical(StripPort(authority));
            OriginHost(scheme + "://" + authority + path, isIp)
            == if host == "" || isIp(host) || InBrackets(host) then None else SecureHost(scheme, host)
  {
    hide IndexOf;
    hide Lowered;
    hide Canonical;
    hide EndsWith;
    hide StripPort;
    hide Without;
    hide AtOrAbove;
    hide IsLocalhost;
    SchemeEnds(scheme, authority + path);
    SchemeCuts(scheme, authority + path);
    assert scheme + "://" + authority + path == scheme + "://" + (authority + path);
    AuthorityEnds(authority, path);
    NoSuchChar(authority, '@');
    LocalhostIsALabel(Canonical(StripPort(authority)));
  }

  // An IPv6 address in brackets has no host, but with a port it has one, port
  // and all, since a port after a bracket is not taken off.
  lemma BracketedOrigin(scheme: string, inner: string, port: Option<string>, path: string, isIp: string -> bool)
    requires Without(scheme, ':') && Without(inner, '/') && Without(inner, '@')
    requires port.Some? ==> IsPort(port.value)
    requires path == "" || path[0] == '/'
    ensures var host := Lowered(Authority("[" + inner + "]", port));
            OriginHost(scheme + "://" + Authority("[" + inner + "]", port) + path, isIp)
            == if port.None? || isIp(host) then None else SecureHost(scheme, host)
  {
    hide IndexOf;
    hide StripPort;
    hide Without;
    hide AtOrAbove;
    hide IsPort;
    hide Lowered;
    hide EndsWith;
    hide OriginHost;
    var name := "[" + inner + "]";
    var authority := Authority(name, port);
    if port.Some? {
      PortHas(port.value);
    }
    BracketsAdd(inner, '/');
    BracketsAdd(inner, '@');
    AuthorityHas(name, port, '/');
    AuthorityHas(name, port, '@');
    OriginParts(scheme, authority, path, isIp);
    BracketKeepsPort(inner, port);
    BracketedEnds(inner, port);
  }

  lemma BracketsAdd(inner: string, c: char)
    requires Without(inner, c) && c != '[' && c != ']'
    ensures Without("[" + inner + "]", c)
  {
  }

  lemma BracketKeepsPort(inner: string, port: Option<string>)
    requires port.Some? ==> IsPort(port.value)
    ensures var s := Authority("[" + inner + "]", port); StripPort(s) == s
  {
    var name := "[" + inner + "]";
    var s := Authority(name, port);
    var colon := LastIndexOf(s, ':');
    if port.Some? {
      PortHas(port.value);
      assert s == name + (":" + port.value);
      assert s[|name|] == ':' && s[..|name|] == name;
      assert forall i :: |name| < i < |s| ==> s[i] == port.value[i - |name| - 1];
      assert colon == Some(|name|);
      assert name[|name| - 1..] == "]";
    } else if colon.Some? {
      var tail := s[colon.value + 1..];
      assert tail[|tail| - 1] == ']';
    }
  }

  lemma BracketedEnds(inner: string, port: Option<string>)
    requires port.Some? ==> IsPort(port.value)
    ensures var s := Authority("[" + inner + "]", port);
            && Canonical(s) == Lowered(s) && s != "" && Lowered(s) != ""
            && (InBrackets(Lowered(s)) <==> port.None?)
  {
    hide Lowered;
    var s := Authority("[" + inner + "]", port);
    assert s[|s| - 1] == match port case None => ']' case Some(p) => if p == "" then ':' else p[|p| - 1];
    assert Lowered(s)[0] == Lower(s[0]) && Lowered(s)[|s| - 1] == Lower(s[|s| - 1]);
  }

  lemma AuthorityHas(name: string, port: Option<string>, c: char)
    requires Without(name, c) && c != ':'
    requires port.Some? ==> Without(port.value, c)
    ensures Without(Authority(name, port), c)
  {
  }

  lemma NoSuchChar(s: string, c: char)
    requires Without(s, c)
    ensures c !in s
  {
  }

  lemma SchemeCuts(scheme: string, rest: string)
    ensures var s := scheme + "://" + rest; s[..|scheme|] == scheme && s[|scheme| + 3..] == rest
  {
  }

  lemma SchemeEnds(scheme: string, rest: string)
    requires Without(scheme, ':')
    ensures IndexOf(scheme + "://" + rest, "://", 0) == Some(|scheme|)
  {
    var s := scheme + "://" + rest;
    forall k | 0 <= k < |scheme| ensures !HitAt(s, "://", k) {
      assert s[k..k + 3][0] == s[k] == scheme[k];
    }
    assert s[|scheme|..|scheme| + 3] == "://";
    IndexOfIsFirst(s, "://", 0, Some(|scheme|));
  }

  lemma AuthorityEnds(authority: string, path: string)
    requires Without(authority, '/') && (path == "" || path[0] == '/')
    ensures var rest := authority + path;
            var slash := IndexOf(rest, "/", 0);
            (if slash.None? then rest else rest[..slash.value]) == authority
  {
    if path == "" {
      assert authority + path == authority;
      FirstSeparator(authority, '/', "");
    } else {
      assert authority + path == authority + ['/'] + path[1..];
      FirstSeparator(authority, '/', path[1..]);
    }
  }

  lemma PortStrips(name: string, port: Option<string>)
    requires Without(name, ':') && !EndsWith(name, "]")
    requires port.Some? ==> Without(port.value, ':')
    ensures StripPort(Authority(name, port)) == if port.Some? && !IsPort(port.value) then Authority(name, port) else name
  {
    hide EndsWith;
    hide AllDigits;
    hide IsPort;
    var s := Authority(name, port);
    var colon := LastIndexOf(s, ':');
    if port.Some? {
      PortIsDigits(port.value);
      assert s == name + (":" + port.value);
      assert s[|name|] == ':' && s[|name| + 1..] == port.value && s[..|name|] == name;
      assert forall i :: |name| < i < |s| ==> s[i] == port.value[i - |name| - 1];
      assert colon == Some(|name|);
    }
  }

  lemma PortIsDigits(p: string)
    ensures IsPort(p) <==> AllDigits(p)
  {
  }

  lemma PortHas(p: string)
    requires IsPort(p)
    ensures Without(p, ':') && Without(p, '/') && Without(p, '@')
  {
  }
}
