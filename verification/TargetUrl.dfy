/** The absolute URL of a plain HTTP request (`_parse_absolute_url`): the host, port and path that are made of it, after
    the standard library's `urllib.parse.urlparse`.
  */
module TargetUrl {
  import opened Options
  import opened Numbers
  import opened ByteStreams
  import opened Text
  import opened Numerals

  datatype Target = Target(host: string, port: nat, path: string)

  /** ValueError escapes from the library; TunnelError is raised by the program. */
  datatype UrlError = TunnelError | ValueError

  datatype UrlResult = Url(target: Target) | Bad(error: UrlError)

  // ---- urlsplit ----

  /** Control characters and spaces in front are dropped. */
  function DropControls(url: string): string {
    if url != "" && url[0] <= ' ' then DropControls(url[1..]) else url
  }

  /** Tabs and line breaks are dropped anywhere. */
  function DropBreaks(url: string): string {
    if url == "" then ""
    else if url[0] in {'\t', '\r', '\n'} then DropBreaks(url[1..])
    else [url[0]] + DropBreaks(url[1..])
  }

  predicate IsLetter(c: char) {
    'a' <= c <= 'z' || 'A' <= c <= 'Z'
  }

  predicate IsSchemeChar(c: char) {
    IsLetter(c) || '0' <= c <= '9' || c in {'+', '-', '.'}
  }

  /** The scheme, in lower case, and what follows its colon. */
  function SplitScheme(url: string): (string, string) {
    var i := IndexOf(url, ":");
    if i > 0 && IsLetter(url[0]) && forall c <- url[..i] :: IsSchemeChar(c)
    then (Lower(url[..i]), url[i + 1..])
    else ("", url)
  }

  function AuthorityEnd(url: string, from: nat): (end: nat)
    requires from <= |url|
    ensures from <= end <= |url|
    ensures end < |url| ==> url[end] in {'/', '?', '#'}
    decreases |url| - from
  {
    if from == |url| || url[from] in {'/', '?', '#'} then from else AuthorityEnd(url, from + 1)
  }

  /** The authority, and what follows it. */
  function SplitAuthority(url: string): (string, string) {
    if "//" <= url then
      var end := AuthorityEnd(url, 2);
      (url[2..end], url[end..])
    else ("", url)
  }

  /** What stands before the first separator, and what behind it. */
  function Split(s: string, separator: char): (string, Option<string>) {
    SplitFrom(s, separator, 0)
  }

  function SplitFrom(s: string, separator: char, from: nat): (string, Option<string>) {
    var i := IndexFrom(s, [separator], from);
    if i == -1 then (s, None) else (s[..i], Some(s[i + 1..]))
  }

  function LastIndexOf(s: string, c: char): (i: int)
    ensures -1 <= i < |s|
  {
    if s == "" then -1 else if s[|s| - 1] == c then |s| - 1 else LastIndexOf(s[..|s| - 1], c)
  }

  /** What follows the authority: parameters belong to the last segment of the path. */
  datatype Parts = Parts(path: string, params: Option<string>, query: Option<string>, fragment: Option<string>)

  function PartsOf(rest: string): Parts {
    var (beforeFragment, fragment) := Split(rest, '#');
    var (beforeQuery, query) := Split(beforeFragment, '?');
    var (path, params) := SplitFrom(beforeQuery, ';', Max(LastIndexOf(beforeQuery, '/'), 0));
    Parts(path, params, query, fragment)
  }

  // ---- hostname and port ----

  function OrEmpty(s: Option<string>): string {
    match s
    case Some(t) => t
    case None => ""
  }

  /** Host name and port as written; brackets are those of an IPv6 address. */
  function HostAndPort(authority: string): (string, string) {
    var hostInfo := authority[LastIndexOf(authority, '@') + 1..];
    var (_, bracketed) := Split(hostInfo, '[');
    if bracketed.Some? then
      var (host, behind) := Split(bracketed.value, ']');
      (host, OrEmpty(Split(OrEmpty(behind), ':').1))
    else
      var (host, port) := Split(hostInfo, ':');
      (host, OrEmpty(port))
  }

  /** In lower case, but for a zone behind a percent sign. */
  function HostName(host: string): string {
    var (name, zone) := Split(host, '%');
    Lower(name) + (if zone.Some? then "%" + zone.value else "")
  }

  /** The port as a number, None for ValueError. */
  function PortOf(port: string, default: nat): Option<nat> {
    if port == "" then Some(default)
    else if exists c <- port :: !('0' <= c <= '9') then None
    else
      match ParseDecimal(port)
      case Some(n) => if 0 <= n <= 65535 then Some(n) else None
      case None => None
  }

  // ---- the program's own part ----

  function ForwardedPath(p: Parts): string {
    (if p.path == "" then "/" else p.path)
    + (if OrEmpty(p.query) == "" then "" else "?" + p.query.value)
    + (if OrEmpty(p.fragment) == "" then "" else "#" + p.fragment.value)
  }

  function ParseAbsoluteUrl(url: string): UrlResult {
    var (scheme, hierarchy) := SplitScheme(DropBreaks(DropControls(url)));
    var (authority, rest) := SplitAuthority(hierarchy);
    if ('[' in authority) != (']' in authority) then Bad(ValueError)
    else if scheme != "http" && scheme != "https" then Bad(TunnelError)
    else
      var (host, port) := HostAndPort(authority);
      if host == "" then Bad(TunnelError)
      else
        match PortOf(port, if scheme == "http" then 80 else 443)
        case None => Bad(ValueError)
        case Some(n) => Url(Target(HostName(host), n, ForwardedPath(PartsOf(rest))))
  }

  /** The value of an added Host header. */
  function HostValue(t: Target): string {
    if t.port == 80 then t.host else t.host + ":" + DecimalOf(t.port)
  }

  // ---- what is forwarded of the URL ----

  lemma {:induction false} FoundFrom(s: string, c: char, from: nat)
    ensures var i := IndexFrom(s, [c], from); i != -1 ==> from <= i < |s| && s[i] == c
    decreases |s| - from
  {
    if from + 1 <= |s| && !OccursAt(s, [c], from) {
      FoundFrom(s, c, from + 1);
    }
  }

  function Joined(before: string, separator: char, behind: Option<string>): string {
    before + (if behind.Some? then [separator] + behind.value else "")
  }

  lemma SplitJoins(s: string, c: char, from: nat)
    ensures var (before, behind) := SplitFrom(s, c, from);
            && Joined(before, c, behind) == s
            && (behind.Some? ==> from <= |before|)
            && (s != "" && s[0] != c ==> before != "" && before[0] == s[0])
  {
    FoundFrom(s, c, from);
    hide IndexFrom;
    var i := IndexFrom(s, [c], from);
    if i != -1 {
      assert s == s[..i] + [s[i]] + s[i + 1..];
      assert s[..i] != "" ==> s[..i][0] == s[0];
    } else {
      assert Joined(s, c, None) == s;
    }
  }

  /** What follows the authority starts with one of its ends. */
  predicate IsRest(rest: string) {
    rest == "" || rest[0] in {'/', '?', '#'}
  }

  /** The parts put together again. */
  function Whole(p: Parts): string {
    Joined(Joined(Joined(p.path, ';', p.params), '?', p.query), '#', p.fragment)
  }

  lemma PartsAreWhole(rest: string)
    ensures Whole(PartsOf(rest)) == rest
    ensures rest != "" && rest[0] == '/' ==> PartsOf(rest).path != ""
  {
    hide SplitFrom, LastIndexOf, Joined;
    SplitJoins(rest, '#', 0);
    SplitJoins(Split(rest, '#').0, '?', 0);
    var beforeQuery := Split(Split(rest, '#').0, '?').0;
    SplitJoins(beforeQuery, ';', Max(LastIndexOf(beforeQuery, '/'), 0));
  }

  lemma JoinedLength(before: string, separator: char, behind: Option<string>)
    ensures |Joined(before, separator, behind)| == |before| + Length(behind)
  {
  }

  lemma WholeForwardedExactly(p: Parts)
    requires p.path != ""
    ensures ForwardedPath(p) == Whole(p) <==> p.params == None && p.query != Some("") && p.fragment != Some("")
  {
    JoinedLength(p.path, ';', p.params);
    JoinedLength(Joined(p.path, ';', p.params), '?', p.query);
    JoinedLength(Joined(Joined(p.path, ';', p.params), '?', p.query), '#', p.fragment);
    assert |ForwardedPath(p)| == |p.path| + (if OrEmpty(p.query) == "" then 0 else Length(p.query))
                                 + (if OrEmpty(p.fragment) == "" then 0 else Length(p.fragment));
  }

  lemma PartsForwardedExactly(rest: string)
    requires IsRest(rest)
    ensures var p := PartsOf(rest);
            ForwardedPath(p) == rest <==>
            p.path != "" && p.params == None && p.query != Some("") && p.fragment != Some("")
  {
    hide PartsOf, Whole;
    var p := PartsOf(rest);
    PartsAreWhole(rest);
    if p.path == "" {
      assert ForwardedPath(p)[0] == '/';
    } else {
      hide ForwardedPath;
      WholeForwardedExactly(p);
    }
  }

  lemma NoAuthorityNoHost()
    ensures HostAndPort("").0 == ""
  {
    hide SplitFrom;
    NoSplit("", '[', 0);
    NoSplit("", ':', 0);
    assert ""[0..] == "";
  }

  /** What of the URL follows the authority. */
  function RestOf(url: string): string {
    SplitAuthority(SplitScheme(DropBreaks(DropControls(url))).1).1
  }

  /** The path forwarded is what follows the authority exactly when that has a path, no parameters on its last segment,
      and no query or fragment that is announced and empty: parameters are dropped. */
  lemma PathForwardedExactly(url: string)
    requires ParseAbsoluteUrl(url).Url?
    ensures var p := PartsOf(RestOf(url));
            ParseAbsoluteUrl(url).target.path == RestOf(url) <==>
            p.path != "" && p.params == None && p.query != Some("") && p.fragment != Some("")
  {
    hide HostAndPort, HostName, PortOf, ForwardedPath, PartsOf, SplitScheme;
    NoAuthorityNoHost();
    PartsForwardedExactly(RestOf(url));
  }

  /** The length of a separator and what stands behind it. */
  function Length(behind: Option<string>): nat {
    if behind.Some? then 1 + |behind.value| else 0
  }

  lemma SplitAt(before: string, c: char, behind: string)
    requires c !in before
    ensures Split(before + [c] + behind, c) == (before, Some(behind))
  {
    var s := before + [c] + behind;
    forall j: nat | j < |before|
      ensures !OccursAt(s, [c], j)
    {
      assert s[j..j + 1][0] == before[j];
    }
    assert s[|before|..|before| + 1] == [c];
    FirstIsIndexOf(s, [c], |before|);
    assert s[..|before|] == before && s[|before| + 1..] == behind;
  }

  lemma NoSplit(s: string, c: char, from: nat)
    requires c !in s
    ensures SplitFrom(s, c, from) == (s, None)
  {
    FoundFrom(s, c, from);
  }

  lemma ExampleScheme()
    ensures SplitScheme("http://\U{0B}h/a;b") == ("http", "//\U{0B}h/a;b")
  {
    hide IndexFrom;
    var behind := "//\U{0B}h/a;b";
    SplitAt("http", ':', behind);
    assert "http" + [':'] + behind == "http://\U{0B}h/a;b";
    assert Lower("http") == "http";
  }

  lemma ExampleAuthority()
    ensures SplitAuthority("//\U{0B}h/a;b") == ("\U{0B}h", "/a;b")
  {
    var s := "//\U{0B}h/a;b";
    assert AuthorityEnd(s, 4) == 4 && AuthorityEnd(s, 3) == 4 && AuthorityEnd(s, 2) == 4;
    assert s == "//" + "\U{0B}h" + "/a;b";
    assert s[2..4] == "\U{0B}h" && s[4..] == "/a;b";
  }

  lemma ExampleHost()
    ensures HostAndPort("\U{0B}h") == ("\U{0B}h", "") && HostName("\U{0B}h") == "\U{0B}h"
  {
    hide SplitFrom;
    NoSplit("\U{0B}h", '[', 0);
    NoSplit("\U{0B}h", ':', 0);
    NoSplit("\U{0B}h", '%', 0);
    assert "\U{0B}h"[..1] == "\U{0B}" && "\U{0B}"[..0] == "";
    assert LastIndexOf("\U{0B}h", '@') == -1;
    assert Lower("\U{0B}h") == "\U{0B}h";
  }

  lemma ExampleParts()
    ensures PartsOf("/a;b") == Parts("/a", Some("b"), None, None)
  {
    hide IndexFrom;
    NoSplit("/a;b", '#', 0);
    NoSplit("/a;b", '?', 0);
    assert "/a;b"[..3] == "/a;" && "/a;"[..2] == "/a" && "/a"[..1] == "/";
    assert LastIndexOf("/a;b", '/') == 0;
    SplitAt("/a", ';', "b");
    assert "/a" + [';'] + "b" == "/a;b";
  }

  lemma ExampleCleaned()
    ensures DropBreaks(DropControls("http://\U{0B}h/a;b")) == "http://\U{0B}h/a;b"
  {
    hide DropBreaks, DropControls;
    NothingDropped("http://\U{0B}h/a;b");
    NoControls("http://\U{0B}h/a;b");
  }

  lemma NoControls(url: string)
    requires url != "" && url[0] > ' '
    ensures DropControls(url) == url
  {
  }

  lemma {:induction false} NothingDropped(url: string)
    requires forall i | 0 <= i < |url| :: url[i] !in {'\t', '\r', '\n'}
    ensures DropBreaks(url) == url
  {
    if url != "" {
      NothingDropped(url[1..]);
    }
  }

  /** A URL whose last segment has parameters, which are lost, and whose host starts with a vertical tab, which the
      next hop strips off the value of a Host header. */
  lemma ParametersAreLost()
    ensures ParseAbsoluteUrl("http://\U{0B}h/a;b") == Url(Target("\U{0B}h", 80, "/a"))
    ensures !Trimmed(HostValue(Target("\U{0B}h", 80, "/a")), TextAlphabet)
  {
    hide DropBreaks, DropControls, SplitScheme, SplitAuthority, HostAndPort, HostName, PartsOf;
    ExampleCleaned();
    ExampleScheme();
    ExampleAuthority();
    ExampleHost();
    ExampleParts();
  }

  // ---- reading a Host value back ----

  /** Host and port as `host[:port]` is read, port 80 being the default; None where the port is no port. */
  function ReadHost(value: string): (string, Option<nat>) {
    var (host, port) := Split(value, ':');
    (host, PortOf(OrEmpty(port), 80))
  }

  lemma PortReadsBack(port: nat)
    requires port <= 65535
    ensures PortOf(DecimalOf(port), 80) == Some(port) && DecimalOf(port) != ""
  {
    assert Power10(5) == 100000;
    DecimalLength(port, 5);
    DecimalDigits(port);
    ParseDecimalOf(port);
    var s := DecimalOf(port);
    hide DecimalOf, ParseDecimal, Power10;
    forall c <- s
      ensures '0' <= c <= '9'
    {
      var i :| 0 <= i < |s| && s[i] == c;
    }
    assert '0' <= s[0] <= '9';
  }

  /** The Host value read back gives host and port of the target exactly when the host holds no colon: the brackets of
      an IPv6 address are lost. */
  lemma HostReadsBackExactly(t: Target)
    requires t.port <= 65535
    ensures ReadHost(HostValue(t)) == (t.host, Some(t.port)) <==> ':' !in t.host
  {
    hide PortOf, DecimalOf;
    PortReadsBack(t.port);
    var value := HostValue(t);
    if ':' !in t.host {
      if t.port == 80 {
        NoSplit(value, ':', 0);
        assert PortOf("", 80) == Some(80) by {
          DefaultPort();
        }
      } else {
        SplitAt(t.host, ':', DecimalOf(t.port));
        assert ":" == [':'];
      }
    } else {
      NoColonBefore(value);
    }
  }

  lemma DefaultPort()
    ensures PortOf("", 80) == Some(80)
  {
  }

  lemma NoColonBefore(value: string)
    ensures ':' !in Split(value, ':').0
  {
    var before := Split(value, ':').0;
    IndexOfIsFirst(value, ":");
    assert ":" == [':'];
    forall i | 0 <= i < |before|
      ensures before[i] != ':'
    {
      assert !OccursAt(value, ":", i);
      assert value[i..i + 1] == [value[i]];
    }
  }

  // ---- what can be in host and path ----

  /** No space and no line break. */
  predicate Free(s: string) {
    forall i | 0 <= i < |s| :: s[i] != ' ' && s[i] != '\r' && s[i] != '\n'
  }

  lemma {:induction false} WithoutControls(url: string)
    requires ' ' !in url
    ensures ' ' !in DropControls(url)
  {
    if url != "" {
      WithoutControls(url[1..]);
    }
  }

  lemma {:induction false} WithoutBreaks(url: string)
    requires ' ' !in url
    ensures Free(DropBreaks(url))
  {
    if url != "" {
      assert url[0] in url;
      WithoutBreaks(url[1..]);
    }
  }

  lemma SchemeFree(url: string)
    requires Free(url)
    ensures Free(SplitScheme(url).1)
  {
  }

  lemma AuthorityFree(url: string)
    requires Free(url)
    ensures Free(SplitAuthority(url).0) && Free(SplitAuthority(url).1)
  {
  }

  lemma SplitFree(s: string, c: char, from: nat)
    requires Free(s)
    ensures Free(SplitFrom(s, c, from).0) && Free(OrEmpty(SplitFrom(s, c, from).1))
  {
  }

  lemma LowerFree(s: string)
    requires Free(s)
    ensures Free(Lower(s))
  {
  }

  lemma HostFree(authority: string)
    requires Free(authority)
    ensures Free(HostAndPort(authority).0)
  {
    hide SplitFrom;
    var hostInfo := authority[LastIndexOf(authority, '@') + 1..];
    SplitFree(hostInfo, '[', 0);
    SplitFree(hostInfo, ':', 0);
    SplitFree(OrEmpty(Split(hostInfo, '[').1), ']', 0);
  }

  lemma NameFree(host: string)
    requires Free(host)
    ensures Free(HostName(host))
  {
    hide SplitFrom;
    SplitFree(host, '%', 0);
    LowerFree(Split(host, '%').0);
  }

  lemma PathFree(rest: string)
    requires Free(rest)
    ensures Free(ForwardedPath(PartsOf(rest)))
  {
    hide SplitFrom;
    SplitFree(rest, '#', 0);
    SplitFree(Split(rest, '#').0, '?', 0);
    var beforeQuery := Split(Split(rest, '#').0, '?').0;
    SplitFree(beforeQuery, ';', Max(LastIndexOf(beforeQuery, '/'), 0));
  }

  /** A target without a space gives a host and a path without spaces and line breaks, whatever it is. */
  lemma TargetFree(url: string)
    requires ' ' !in url && ParseAbsoluteUrl(url).Url?
    ensures Free(ParseAbsoluteUrl(url).target.path) && Free(HostValue(ParseAbsoluteUrl(url).target))
  {
    hide SplitScheme, SplitAuthority, HostAndPort, HostName, PortOf, ForwardedPath, PartsOf, DecimalOf;
    var cleaned := DropBreaks(DropControls(url));
    WithoutControls(url);
    WithoutBreaks(DropControls(url));
    SchemeFree(cleaned);
    AuthorityFree(SplitScheme(cleaned).1);
    var (authority, rest) := SplitAuthority(SplitScheme(cleaned).1);
    HostFree(authority);
    NameFree(HostAndPort(authority).0);
    PathFree(rest);
    DecimalDigits(ParseAbsoluteUrl(url).target.port);
  }
}
