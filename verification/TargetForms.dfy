/** What host, port and path a URL of the usual forms is read as: printing a URL from its parts, then parsing it. */
module TargetForms {
  import opened Options
  import opened Numbers
  import opened ByteStreams
  import opened Text
  import opened Numerals
  import opened TargetUrl

  // ---- splitting at a separator ----

  predicate Without(s: string, chars: set<char>) {
    forall i | 0 <= i < |s| :: s[i] !in chars
  }

  lemma FirstFrom(before: string, c: char, behind: string, from: nat)
    requires from <= |before| && forall i | from <= i < |before| :: before[i] != c
    ensures SplitFrom(before + [c] + behind, c, from) == (before, Some(behind))
  {
    var s := before + [c] + behind;
    FoundFrom(s, c, from);
    FindsFrom(s, c, from, |before|);
    assert s[..|before|] == before && s[|before| + 1..] == behind;
  }

  lemma {:induction false} FindsFrom(s: string, c: char, from: nat, at: nat)
    requires from <= at < |s| && s[at] == c && forall i | from <= i < at :: s[i] != c
    ensures IndexFrom(s, [c], from) == at
    decreases at - from
  {
    assert s[from..from + 1] == [s[from]];
    if from < at {
      FindsFrom(s, c, from + 1, at);
    }
  }

  lemma NoneFrom(s: string, c: char, from: nat)
    requires forall i | from <= i < |s| :: s[i] != c
    ensures SplitFrom(s, c, from) == (s, None)
  {
    FoundFrom(s, c, from);
  }

  lemma {:induction false} LastIs(s: string, c: char, at: int)
    requires -1 <= at < |s| && (at >= 0 ==> s[at] == c) && forall i | at < i < |s| :: s[i] != c
    ensures LastIndexOf(s, c) == at
  {
    if s != "" && at < |s| - 1 {
      LastIs(s[..|s| - 1], c, at);
    }
  }

  // ---- scheme, authority, rest ----

  predicate IsScheme(s: string) {
    s != "" && IsLetter(s[0]) && forall i | 0 <= i < |s| :: IsSchemeChar(s[i])
  }

  const BREAKS: set<char> := {'\t', '\r', '\n'}

  lemma {:induction false} NoBreaksDropped(s: string)
    requires Without(s, BREAKS)
    ensures DropBreaks(s) == s
  {
    if s != "" {
      NoBreaksDropped(s[1..]);
    }
  }

  lemma SchemeIsSplit(scheme: string, behind: string)
    requires IsScheme(scheme)
    ensures SplitScheme(scheme + [':'] + behind) == (Lower(scheme), behind)
  {
    hide IndexFrom;
    var url := scheme + [':'] + behind;
    forall i | 0 <= i < |scheme|
      ensures scheme[i] != ':'
    {
      assert IsSchemeChar(scheme[i]);
    }
    FindsFrom(url, ':', 0, |scheme|);
    assert url[..|scheme|] == scheme && url[|scheme| + 1..] == behind;
    assert ":" == [':'];
  }

  lemma {:induction false} AuthorityEndsAt(url: string, from: nat, end: nat)
    requires from <= end <= |url| && (forall i | from <= i < end :: url[i] !in {'/', '?', '#'})
    requires end < |url| ==> url[end] in {'/', '?', '#'}
    ensures AuthorityEnd(url, from) == end
    decreases end - from
  {
    if from < end {
      AuthorityEndsAt(url, from + 1, end);
    }
  }

  lemma AuthorityIsSplit(authority: string, rest: string)
    requires Without(authority, {'/', '?', '#'}) && IsRest(rest)
    ensures SplitAuthority("//" + authority + rest) == (authority, rest)
  {
    var url := "//" + authority + rest;
    AuthorityEndsAt(url, 2, |authority| + 2);
    assert url[2..|authority| + 2] == authority && url[|authority| + 2..] == rest;
  }

  /** Where the scheme, the authority and the rest of a URL are found. */
  lemma UrlIsSplit(scheme: string, authority: string, rest: string)
    requires IsScheme(scheme) && Without(authority, {'/', '?', '#'}) && IsRest(rest)
    requires Without(authority, BREAKS) && Without(rest, BREAKS)
    ensures var url := scheme + [':'] + ("//" + authority + rest);
            && SplitScheme(DropBreaks(DropControls(url))) == (Lower(scheme), "//" + authority + rest)
            && RestOf(url) == rest
  {
    hide SplitScheme, SplitAuthority, DropBreaks, DropControls;
    var url := scheme + [':'] + ("//" + authority + rest);
    assert IsSchemeChar(scheme[0]) && url[0] == scheme[0] && url[0] > ' ';
    NoControls(url);
    forall i | 0 <= i < |url|
      ensures url[i] !in BREAKS
    {
      if i < |scheme| {
        assert IsSchemeChar(scheme[i]);
      } else if i >= |scheme| + 3 + |authority| {
        assert url[i] == rest[i - |scheme| - 3 - |authority|];
      } else if i >= |scheme| + 3 {
        assert url[i] == authority[i - |scheme| - 3];
      }
    }
    NoBreaksDropped(url);
    SchemeIsSplit(scheme, "//" + authority + rest);
    AuthorityIsSplit(authority, rest);
  }

  // ---- host and port ----

  /** A host name or an IPv4 address, as it is written. */
  predicate IsHostText(host: string) {
    host != "" && Without(host, {'/', '?', '#', '@', '[', ']', ':', '%'}) && Without(host, BREAKS)
  }

  /** User information, with its final @, or nothing. */
  predicate IsUser(user: string) {
    && (user != "" ==> user[|user| - 1] == '@')
    && Without(user, {'/', '?', '#', '[', ']'}) && Without(user, BREAKS)
  }

  /** No port, or a colon and the text of one. */
  predicate IsPortText(text: string) {
    && (text != "" ==> text[0] == ':')
    && forall i | 1 <= i < |text| :: text[i] !in {'/', '?', '#', '@', '[', ']', ':'} && text[i] !in BREAKS
  }

  function PortDigits(text: string): string {
    if text == "" then "" else text[1..]
  }

  lemma BehindUser(user: string, hostInfo: string)
    requires (user != "" ==> user[|user| - 1] == '@') && Without(hostInfo, {'@'})
    ensures (user + hostInfo)[LastIndexOf(user + hostInfo, '@') + 1..] == hostInfo
  {
    var s := user + hostInfo;
    forall i | |user| <= i < |s|
      ensures s[i] != '@'
    {
      assert s[i] == hostInfo[i - |user|];
    }
    LastIs(s, '@', |user| - 1);
    assert s[|user|..] == hostInfo;
  }

  /** Host and port are found behind the user information, on either side of the colon. */
  lemma HostIsSplit(user: string, host: string, port: string)
    requires IsHostText(host) && IsUser(user) && IsPortText(port)
    ensures HostAndPort(user + (host + port)) == (host, PortDigits(port))
  {
    hide SplitFrom, LastIndexOf;
    var hostInfo := host + port;
    BehindUser(user, hostInfo);
    NoneFrom(hostInfo, '[', 0);
    if port == "" {
      assert hostInfo == host;
      NoneFrom(host, ':', 0);
    } else {
      assert hostInfo == host + [':'] + port[1..];
      FirstFrom(host, ':', port[1..], 0);
    }
  }

  /** An IPv6 address is found between its brackets, the port behind them. */
  lemma BracketedIsSplit(user: string, address: string, port: string)
    requires Without(address, {'/', '?', '#', '@', '[', ']'}) && IsUser(user) && IsPortText(port)
    ensures HostAndPort(user + (['['] + address + [']'] + port)) == (address, PortDigits(port))
  {
    hide SplitFrom, LastIndexOf;
    var hostInfo := ['['] + address + [']'] + port;
    forall i | 0 <= i < |hostInfo|
      ensures hostInfo[i] != '@'
    {
      if i >= |address| + 2 {
        assert hostInfo[i] == port[i - |address| - 2];
      } else if 0 < i <= |address| {
        assert hostInfo[i] == address[i - 1];
      }
    }
    BehindUser(user, hostInfo);
    assert hostInfo == "" + ['['] + (address + [']'] + port);
    FirstFrom("", '[', address + [']'] + port, 0);
    FirstFrom(address, ']', port, 0);
    if port == "" {
      NoneFrom("", ':', 0);
    } else {
      assert port == "" + [':'] + port[1..];
      FirstFrom("", ':', port[1..], 0);
    }
  }

  /** The host is lower-cased, but for a zone behind a percent sign. */
  lemma HostNameIs(name: string, zone: string)
    requires Without(name, {'%'})
    ensures HostName(name) == Lower(name) && HostName(name + ['%'] + zone) == Lower(name) + "%" + zone
  {
    hide SplitFrom, Lower;
    NoneFrom(name, '%', 0);
    FirstFrom(name, '%', zone, 0);
    assert Lower(name) + "" == Lower(name);
  }

  /** A port that is written is that number, up to 65535; none gives the scheme's; anything else is a ValueError. */
  lemma PortIs(default: nat, n: nat, text: string)
    ensures PortOf("", default) == Some(default)
    ensures PortOf(DecimalOf(n), default) == if n <= 65535 then Some(n) else None
    ensures (exists c <- text :: !('0' <= c <= '9')) ==> PortOf(text, default) == None
  {
    hide DecimalOf, ParseDecimal;
    DecimalDigits(n);
    ParseDecimalOf(n);
    if n <= 65535 {
      assert Power10(5) == 100000;
      DecimalLength(n, 5);
    }
    var s := DecimalOf(n);
    forall c <- s
      ensures '0' <= c <= '9'
    {
      var i :| 0 <= i < |s| && s[i] == c;
    }
  }

  // ---- the path ----

  /** Parts as they are written: parameters on the last segment only, and each part without the separators of the
      next. */
  predicate IsParts(p: Parts) {
    && (p.path != "" ==> p.path[0] == '/') && Without(p.path, {'?', '#'}) && Without(p.path, BREAKS)
    && (forall i | 0 <= i < |p.path| && p.path[i] == ';' :: exists j | i < j < |p.path| :: p.path[j] == '/')
    && (p.params.Some? ==> p.path != "" && Without(p.params.value, {'/', '?', '#'}) && Without(p.params.value, BREAKS))
    && (p.query.Some? ==> Without(p.query.value, {'#'}) && Without(p.query.value, BREAKS))
    && (p.fragment.Some? ==> Without(p.fragment.value, BREAKS))
  }

  lemma SplitJoined(before: string, c: char, behind: Option<string>)
    requires Without(before, {c})
    ensures Split(Joined(before, c, behind), c) == (before, behind)
  {
    if behind.Some? {
      assert Joined(before, c, behind) == before + [c] + behind.value;
      FirstFrom(before, c, behind.value, 0);
    } else {
      assert before + "" == before;
      NoneFrom(before, c, 0);
    }
  }

  lemma {:induction false} LastOfPath(path: string) returns (at: int)
    ensures -1 <= at < |path| && (at >= 0 ==> path[at] == '/') && forall i | at < i < |path| :: path[i] != '/'
  {
    at := |path| - 1;
    if path != "" && path[at] != '/' {
      at := LastOfPath(path[..at]);
    }
  }

  lemma ParamsAreSplit(p: Parts)
    requires IsParts(p)
    ensures var s := Joined(p.path, ';', p.params);
            SplitFrom(s, ';', Max(LastIndexOf(s, '/'), 0)) == (p.path, p.params)
  {
    hide SplitFrom, LastIndexOf;
    var s := Joined(p.path, ';', p.params);
    var at := LastOfPath(p.path);
    forall i | at < i < |s|
      ensures s[i] != '/'
    {
      if i > |p.path| {
        assert s[i] == p.params.value[i - |p.path| - 1];
      }
    }
    LastIs(s, '/', at);
    var from := Max(at, 0);
    forall i | from <= i < |p.path|
      ensures p.path[i] != ';'
    {
    }
    if p.params.Some? {
      assert s == p.path + [';'] + p.params.value;
      FirstFrom(p.path, ';', p.params.value, from);
    } else {
      assert p.path + "" == p.path;
      NoneFrom(p.path, ';', from);
    }
  }

  lemma JoinedWithout(before: string, separator: char, behind: Option<string>, chars: set<char>)
    requires Without(before, chars) && separator !in chars && (behind.Some? ==> Without(behind.value, chars))
    ensures Without(Joined(before, separator, behind), chars)
  {
    var s := Joined(before, separator, behind);
    forall i | 0 <= i < |s|
      ensures s[i] !in chars
    {
      if i > |before| {
        assert s[i] == behind.value[i - |before| - 1];
      }
    }
  }

  /** The parts are found again. */
  lemma PartsAreSplit(p: Parts)
    requires IsParts(p)
    ensures PartsOf(Whole(p)) == p && IsRest(Whole(p)) && Without(Whole(p), BREAKS)
  {
    hide SplitFrom, LastIndexOf, Joined;
    var beforeQuery := Joined(p.path, ';', p.params);
    var beforeFragment := Joined(beforeQuery, '?', p.query);
    JoinedWithout(p.path, ';', p.params, {'?'});
    JoinedWithout(p.path, ';', p.params, {'#'});
    JoinedWithout(p.path, ';', p.params, BREAKS);
    JoinedWithout(beforeQuery, '?', p.query, {'#'});
    JoinedWithout(beforeQuery, '?', p.query, BREAKS);
    JoinedWithout(beforeFragment, '#', p.fragment, BREAKS);
    SplitJoined(beforeFragment, '#', p.fragment);
    SplitJoined(beforeQuery, '?', p.query);
    ParamsAreSplit(p);
    WholeIsRest(p);
  }

  lemma WholeIsRest(p: Parts)
    requires IsParts(p)
    ensures IsRest(Whole(p))
  {
  }

  // ---- the whole URL ----

  function DefaultPortOf(scheme: string): nat {
    if Lower(scheme) == "http" then 80 else 443
  }

  /** What a URL is read as: the host in lower case, the port written or the scheme's, and for the path `/` if there is
      none, without parameters, then query and fragment unless they are empty. */
  lemma UrlIsRead(scheme: string, user: string, host: string, port: string, p: Parts)
    requires IsScheme(scheme) && Lower(scheme) in {"http", "https"}
    requires IsHostText(host) && IsUser(user) && IsPortText(port) && IsParts(p)
    ensures var url := scheme + [':'] + ("//" + (user + (host + port)) + Whole(p));
            ParseAbsoluteUrl(url) ==
            match PortOf(PortDigits(port), DefaultPortOf(scheme))
            case None => Bad(ValueError)
            case Some(n) =>
              Url(Target(Lower(host), n, (if p.path == "" then "/" else p.path)
                                         + (if p.query in {None, Some("")} then "" else "?" + p.query.value)
                                         + (if p.fragment in {None, Some("")} then "" else "#" + p.fragment.value)))
  {
    hide SplitScheme, SplitAuthority, DropBreaks, DropControls, HostAndPort, HostName, PortOf, PartsOf, Whole, Lower;
    var authority := user + (host + port);
    AuthorityText(user, host, port);
    PartsAreSplit(p);
    UrlIsSplit(scheme, authority, Whole(p));
    AuthorityIsSplit(authority, Whole(p));
    HostIsSplit(user, host, port);
    HostNameIs(host, "");
  }

  lemma AuthorityText(user: string, host: string, port: string)
    requires IsHostText(host) && IsUser(user) && IsPortText(port)
    ensures var authority := user + (host + port);
            Without(authority, {'/', '?', '#'}) && Without(authority, BREAKS) && '[' !in authority && ']' !in authority
  {
    var authority := user + (host + port);
    forall i | 0 <= i < |authority|
      ensures authority[i] !in {'/', '?', '#', '[', ']'} && authority[i] !in BREAKS
    {
      if i < |user| {
        assert authority[i] == user[i];
      } else if i < |user| + |host| {
        assert authority[i] == host[i - |user|];
      } else {
        assert authority[i] == port[i - |user| - |host|];
      }
    }
  }

  /** The forms that are refused: another scheme, or no host, is a TunnelError; a bracket without its partner,
      whatever the rest, is a ValueError. */
  lemma UrlIsRefused(scheme: string, authority: string, rest: string)
    requires IsScheme(scheme) && Without(authority, {'/', '?', '#'}) && IsRest(rest)
    requires Without(authority, BREAKS) && Without(rest, BREAKS)
    ensures var url := scheme + [':'] + ("//" + authority + rest);
            && (('[' in authority) != (']' in authority) ==> ParseAbsoluteUrl(url) == Bad(ValueError))
            && ('[' !in authority && ']' !in authority ==>
                  (Lower(scheme) !in {"http", "https"} || authority == "" ==>
                     ParseAbsoluteUrl(url) == Bad(TunnelError)))
  {
    hide SplitScheme, SplitAuthority, DropBreaks, DropControls, HostAndPort, HostName, PortOf, PartsOf, Lower;
    UrlIsSplit(scheme, authority, rest);
    AuthorityIsSplit(authority, rest);
    NoAuthorityNoHost();
  }

  lemma {:induction false} BreaksAreDropped(a: string, b: string)
    ensures DropBreaks(a + b) == DropBreaks(a) + DropBreaks(b)
  {
    if a == "" {
      assert a + b == b;
    } else {
      assert (a + b)[1..] == a[1..] + b;
      BreaksAreDropped(a[1..], b);
    }
  }

  lemma ControlDropped(c: char, url: string)
    requires c <= ' '
    ensures DropControls([c] + url) == DropControls(url)
  {
    assert ([c] + url)[1..] == url;
  }

  /** Control characters and spaces in front, and tabs and line breaks anywhere, make no difference. */
  lemma ControlsMakeNoDifference(c: char, a: string, b: string)
    ensures c <= ' ' ==> ParseAbsoluteUrl([c] + a) == ParseAbsoluteUrl(a)
    ensures c in BREAKS && a != "" && a[0] > ' ' ==> ParseAbsoluteUrl(a + [c] + b) == ParseAbsoluteUrl(a + b)
  {
    hide SplitScheme, SplitAuthority, HostAndPort, HostName, PortOf, PartsOf, DropControls, DropBreaks;
    if c <= ' ' {
      ControlDropped(c, a);
    }
    if c in BREAKS && a != "" && a[0] > ' ' {
      NoControls(a + [c] + b);
      NoControls(a + b);
      BreaksAreDropped(a + [c], b);
      BreaksAreDropped(a, [c]);
      BreaksAreDropped(a, b);
      BreakIsDropped(c);
      assert DropBreaks(a) + "" == DropBreaks(a);
    }
  }

  lemma BreakIsDropped(c: char)
    requires c in BREAKS
    ensures DropBreaks([c]) == ""
  {
    assert [c][1..] == "";
  }

  /** The Host that is added for a URL: the host in lower case, and the port unless it is 80. */
  lemma AddedHostIsRead(scheme: string, user: string, host: string, n: nat, p: Parts)
    requires IsScheme(scheme) && Lower(scheme) in {"http", "https"} && n <= 65535
    requires IsHostText(host) && IsUser(user) && IsParts(p)
    ensures var url := scheme + [':'] + ("//" + (user + (host + (":" + DecimalOf(n)))) + Whole(p));
            var parsed := ParseAbsoluteUrl(url);
            parsed.Url? && parsed.target.port == n
            && HostValue(parsed.target) == if n == 80 then Lower(host) else Lower(host) + ":" + DecimalOf(n)
    ensures var url := scheme + [':'] + ("//" + (user + (host + "")) + Whole(p));
            var parsed := ParseAbsoluteUrl(url);
            parsed.Url?
            && HostValue(parsed.target) == if Lower(scheme) == "http" then Lower(host) else Lower(host) + ":443"
  {
    hide ParseAbsoluteUrl, Lower, DecimalOf, PortOf, IsParts, Whole;
    var port := ":" + DecimalOf(n);
    DecimalDigits(n);
    assert port[1..] == DecimalOf(n);
    assert IsPortText(port) && IsPortText("");
    UrlIsRead(scheme, user, host, port, p);
    UrlIsRead(scheme, user, host, "", p);
    PortIs(DefaultPortOf(scheme), n, "");
    assert DecimalOf(443) == "443" by {
      Port443();
    }
    assert Lower(host) + ":" + "443" == Lower(host) + ":443";
  }

  lemma Port443()
    ensures DecimalOf(443) == "443"
  {
    assert DecimalOf(4) == "4" && DecimalOf(44) == "44";
  }
}
