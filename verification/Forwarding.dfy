/** The header filter (`sanitize_headers`), the request head the forwarder prints, and what the next
    hop reads back from it.
  */
module Forwarding {
  import opened Options
  import opened ByteStreams
  import opened Text
  import opened RequestHead
  import opened ChunkedCodec
  import opened TargetUrl

  const STRIP_HEADERS: set<string> := {
    "x-forwarded-for", "x-forwarded-host", "x-forwarded-proto", "x-real-ip", "x-proxy-id", "forwarded", "via",
    "proxy-authorization", "proxy-connection", "x-proxy-connection", "client-ip", "true-client-ip",
    "cf-connecting-ip", "x-cluster-client-ip", "x-original-forwarded-for", "x-proxyuser-ip"
  }

  const HOP_BY_HOP: set<string> := {
    "connection", "keep-alive", "proxy-authenticate", "proxy-authorization", "te", "trailers",
    "transfer-encoding", "upgrade"
  }

  predicate IsLeakyHeader(name: string) {
    Lower(name) in STRIP_HEADERS || Lower(name) in HOP_BY_HOP
  }

  /** The headers that survive the filter. */
  function Kept(headers: seq<Header>): seq<Header> {
    if headers == [] then []
    else if IsLeakyHeader(headers[0].name) then Kept(headers[1..])
    else [headers[0]] + Kept(headers[1..])
  }

  method SanitizeHeaders(rawHeaders: seq<Header>) returns (result: seq<Header>, strippedNames: seq<string>)
    ensures result == Kept(rawHeaders)
    ensures |result| + |strippedNames| == |rawHeaders|
  {
    hide IsLeakyHeader;
    result, strippedNames := [], [];
    for k := 0 to |rawHeaders|
      invariant result + Kept(rawHeaders[k..]) == Kept(rawHeaders)
      invariant |result| + |strippedNames| == k
    {
      assert rawHeaders[k..][1..] == rawHeaders[k + 1..];
      if IsLeakyHeader(rawHeaders[k].name) {
        strippedNames := strippedNames + [rawHeaders[k].name];
        continue;
      }
      result := result + [rawHeaders[k]];
    }
  }

  /** Where the headers of unlisted names stand, counting from `start`. */
  ghost function Positions(headers: seq<Header>, start: nat): seq<nat> {
    if headers == [] then []
    else if IsLeakyHeader(headers[0].name) then Positions(headers[1..], start + 1)
    else [start] + Positions(headers[1..], start + 1)
  }

  predicate IncreasingWithin(at: seq<nat>, low: nat, high: nat) {
    && (forall k | 0 <= k < |at| :: low <= at[k] < high)
    && (forall j, k | 0 <= j < k < |at| :: at[j] < at[k])
  }

  lemma {:induction false} PositionsIncrease(headers: seq<Header>, start: nat)
    ensures IncreasingWithin(Positions(headers, start), start, start + |headers|)
  {
    hide IsLeakyHeader;
    if headers != [] {
      PositionsIncrease(headers[1..], start + 1);
      assert start + 1 + |headers[1..]| == start + |headers|;
      var tail := Positions(headers[1..], start + 1);
      assert IncreasingWithin(tail, start + 1, start + |headers|);
    }
  }

  lemma {:induction false} PositionsOfUnlisted(headers: seq<Header>, start: nat, i: nat)
    requires i < |headers|
    ensures start + i in Positions(headers, start) <==> !IsLeakyHeader(headers[i].name)
  {
    hide IsLeakyHeader;
    PositionsIncrease(headers[1..], start + 1);
    if i > 0 {
      PositionsOfUnlisted(headers[1..], start + 1, i - 1);
    }
  }

  /** `kept` lists the headers that stand at the positions `at`, counting from `start`. */
  predicate Picks(kept: seq<Header>, headers: seq<Header>, at: seq<nat>, start: nat) {
    && |at| == |kept|
    && IncreasingWithin(at, start, start + |headers|)
    && forall k | 0 <= k < |at| :: kept[k] == headers[at[k] - start]
  }

  lemma PicksBehindFirst(kept: seq<Header>, headers: seq<Header>, at: seq<nat>, start: nat)
    requires headers != [] && Picks(kept, headers[1..], at, start + 1)
    ensures Picks(kept, headers, at, start)
    ensures Picks([headers[0]] + kept, headers, [start] + at, start)
  {
    assert start + 1 + |headers[1..]| == start + |headers|;
    forall k | 0 <= k < |at|
      ensures start + 1 <= at[k] < start + |headers| && kept[k] == headers[at[k] - start]
    {
      assert headers[1..][at[k] - (start + 1)] == headers[at[k] - start];
    }
  }

  lemma {:induction false} KeptAtPositions(headers: seq<Header>, start: nat)
    ensures Picks(Kept(headers), headers, Positions(headers, start), start)
  {
    hide IsLeakyHeader, Picks;
    if headers == [] {
      assert Picks([], [], [], start) by {
        PicksNothing(start);
      }
    } else {
      KeptAtPositions(headers[1..], start + 1);
      PicksBehindFirst(Kept(headers[1..]), headers, Positions(headers[1..], start + 1), start);
    }
  }

  lemma PicksNothing(start: nat)
    ensures Picks([], [], [], start)
  {
  }

  /** The survivors are the headers at increasing positions, which are exactly those of unlisted names. */
  lemma KeptInOrder(headers: seq<Header>)
    ensures Picks(Kept(headers), headers, Positions(headers, 0), 0)
    ensures forall i | 0 <= i < |headers| :: i in Positions(headers, 0) <==> !IsLeakyHeader(headers[i].name)
  {
    hide IsLeakyHeader, Positions, Kept, Picks;
    KeptAtPositions(headers, 0);
    forall i | 0 <= i < |headers|
      ensures i in Positions(headers, 0) <==> !IsLeakyHeader(headers[i].name)
    {
      PositionsOfUnlisted(headers, 0, i);
    }
  }

  lemma {:induction false} KeptTwice(headers: seq<Header>)
    ensures Kept(Kept(headers)) == Kept(headers)
  {
    hide IsLeakyHeader;
    if headers != [] {
      KeptTwice(headers[1..]);
    }
  }

  predicate IsHost(h: Header) {
    Lower(h.name) == "host"
  }

  /** The filtered headers, with a Host in front when none is left. */
  function Outgoing(headers: seq<Header>, hostValue: string): seq<Header> {
    var safe := Kept(headers);
    if exists h <- safe :: IsHost(h) then safe else [Header("Host", hostValue)] + safe
  }

  /** The stripped names, in any mixture of cases. */
  lemma LeakyNames(name: string)
    ensures IsLeakyHeader(name) <==>
            Lower(name) in {
              "forwarded", "via", "x-forwarded-for", "x-forwarded-host", "x-forwarded-proto",
              "x-original-forwarded-for", "x-real-ip", "client-ip", "true-client-ip", "cf-connecting-ip",
              "x-cluster-client-ip", "x-proxyuser-ip", "x-proxy-id", "x-proxy-connection",
              "proxy-authorization", "proxy-authenticate", "proxy-connection",
              "connection", "keep-alive", "te", "trailers", "transfer-encoding", "upgrade"
            }
  {
  }

  // ---- the printed head ----

  function RequestLine(r: Request): string {
    r.method_ + " " + r.target + " " + r.version
  }

  function HeaderLine(h: Header): string {
    h.name + ": " + h.value
  }

  function PrintHeaders(headers: seq<Header>): string {
    if headers == [] then "" else HeaderLine(headers[0]) + CRLF + PrintHeaders(headers[1..])
  }

  function PrintHead(r: Request): Bytes {
    RequestLine(r) + CRLF + PrintHeaders(r.headers) + CRLF
  }

  method JoinHeaderLines(headers: seq<Header>) returns (headerLines: string)
    ensures headerLines == PrintHeaders(headers)
  {
    headerLines := "";
    for k := 0 to |headers|
      invariant headerLines + PrintHeaders(headers[k..]) == PrintHeaders(headers)
    {
      assert headers[k..][1..] == headers[k + 1..];
      headerLines := headerLines + (HeaderLine(headers[k]) + CRLF);
    }
  }

  /** The head that is forwarded, or the error for a URL that cannot be. */
  method BuildHead(m: string, url: string, version: string, headers: seq<Header>)
    returns (rawRequest: Option<Bytes>, error: Option<UrlError>)
    ensures match ParseAbsoluteUrl(url)
            case Bad(e) => rawRequest == None && error == Some(e)
            case Url(t) =>
              && error == None
              && rawRequest == Some(PrintHead(Request(m, t.path, version, Outgoing(headers, HostValue(t)))))
  {
    hide IsLeakyHeader, Kept, PrintHeaders, IsHost, ParseAbsoluteUrl;
    var parsed := ParseAbsoluteUrl(url);
    if parsed.Bad? {
      return None, Some(parsed.error);
    }
    var safeHeaders, _ := SanitizeHeaders(headers);
    var hasHost := exists h <- safeHeaders :: IsHost(h);
    if !hasHost {
      var hostValue := HostValue(parsed.target);
      safeHeaders := [Header("Host", hostValue)] + safeHeaders;
    }
    var requestLine := m + " " + parsed.target.path + " " + version + CRLF;
    var headerLines := JoinHeaderLines(safeHeaders);
    return Some(requestLine + headerLines + CRLF), None;
  }

  // ---- well-formed heads ----

  predicate WellFormedHeader(h: Header) {
    && IsLine(h.name) && IndexOf(h.name, ":") == -1 && Trimmed(h.name, TextAlphabet)
    && IsLine(h.value) && Trimmed(h.value, TextAlphabet)
  }

  predicate IsToken(s: string) {
    IsLine(s) && IndexOf(s, " ") == -1
  }

  predicate WellFormed(r: Request) {
    && IsToken(r.method_) && NoLowerLetter(r.method_)
    && IsToken(r.target)
    && IsLine(r.version)
    && forall h <- r.headers :: WellFormedHeader(h)
  }

  /** A separator that is neither CR nor LF cannot complete a line break. */
  lemma JoinedIsLine(a: string, separator: char, b: string)
    requires IsLine(a) && IsLine(b) && separator != '\r' && separator != '\n'
    ensures IsLine(a + [separator] + b)
  {
    var s := a + [separator] + b;
    IndexOfIsFirst(a, CRLF);
    IndexOfIsFirst(b, CRLF);
    forall j: nat | j < |s| + 1
      ensures !OccursAt(s, CRLF, j)
    {
      assert !OccursAt(a, CRLF, j);
      if j > |a| {
        assert !OccursAt(b, CRLF, j - |a| - 1);
      }
      if j + 2 <= |s| {
        assert s[j..j + 2] == [s[j], s[j + 1]];
      }
    }
    AbsentIsIndexOf(s, CRLF);
  }

  lemma AbsentChar(s: string, pattern: string)
    requires pattern != "" && pattern[0] !in s
    ensures IndexOf(s, pattern) == -1
  {
    forall j: nat | j < |s| + 1
      ensures !OccursAt(s, pattern, j)
    {
      if j + |pattern| <= |s| {
        assert s[j..j + |pattern|][0] == s[j];
      }
    }
    AbsentIsIndexOf(s, pattern);
  }

  lemma FirstChar(s: string, c: char, more: string)
    requires IndexOf(s, [c]) == -1
    ensures IndexOf(s + [c] + more, [c]) == |s|
  {
    var t := s + [c] + more;
    IndexOfIsFirst(s, [c]);
    forall j: nat | j < |s|
      ensures !OccursAt(t, [c], j)
    {
      assert !OccursAt(s, [c], j);
      assert t[j..j + 1] == [s[j]] == s[j..j + 1];
    }
    assert t[|s|..|s| + 1] == [c];
    FirstIsIndexOf(t, [c], |s|);
  }

  // ---- printing, then parsing ----

  lemma SlicesAround(a: string, c: char, b: string)
    ensures (a + [c] + b)[..|a|] == a && (a + [c] + b)[|a| + 1..] == b
  {
  }

  lemma RequestLineSplits(a: string, b: string, c: string)
    requires IsToken(a) && IsToken(b)
    ensures SplitRequestLine(a + [' '] + (b + [' '] + c)) == Some((a, b, Some(c)))
  {
    hide IndexOf, IsLine;
    var tail := b + [' '] + c;
    FirstChar(a, ' ', tail);
    FirstChar(b, ' ', c);
    assert " " == [' '];
    SlicesAround(a, ' ', tail);
    SlicesAround(b, ' ', c);
  }

  lemma ParseRequestLine(r: Request)
    requires IsToken(r.method_) && IsToken(r.target) && IsLine(r.version)
    ensures SplitRequestLine(RequestLine(r)) == Some((r.method_, r.target, Some(r.version)))
    ensures IsLine(RequestLine(r))
  {
    hide IsLine, SplitRequestLine;
    var tail := r.target + [' '] + r.version;
    assert RequestLine(r) == r.method_ + [' '] + tail;
    RequestLineSplits(r.method_, r.target, r.version);
    JoinedIsLine(r.target, ' ', r.version);
    JoinedIsLine(r.method_, ' ', tail);
  }

  lemma HeaderLineSplits(name: string, value: string)
    requires IndexOf(name, ":") == -1
    requires Trimmed(name, TextAlphabet) && Trimmed(value, TextAlphabet)
    ensures ParseHeader(name + [':'] + (" " + value)) == Some(Header(name, value))
  {
    hide IndexOf;
    var spaced := " " + value;
    FirstChar(name, ':', spaced);
    assert ":" == [':'];
    SlicesAround(name, ':', spaced);
    StripTrimmed(name, TextAlphabet);
    assert spaced[1..] == value;
    StripTrimmed(value, TextAlphabet);
  }

  lemma SpacedIsLine(value: string)
    requires IsLine(value)
    ensures IsLine(" " + value)
  {
    hide IndexOf;
    AbsentIsIndexOf("", CRLF);
    JoinedIsLine("", ' ', value);
    assert "" + [' '] + value == " " + value;
  }

  lemma ParseHeaderLine(h: Header)
    requires WellFormedHeader(h)
    ensures ParseHeader(HeaderLine(h)) == Some(h)
    ensures IsLine(HeaderLine(h)) && HeaderLine(h) != ""
  {
    hide IsLine, ParseHeader, IndexOf, Trimmed;
    assert HeaderLine(h) == h.name + [':'] + (" " + h.value);
    HeaderLineSplits(h.name, h.value);
    SpacedIsLine(h.value);
    JoinedIsLine(h.name, ':', " " + h.value);
  }

  function HeaderLines(headers: seq<Header>): (lines: seq<string>)
    ensures |lines| == |headers|
  {
    seq(|headers|, k requires 0 <= k < |headers| => HeaderLine(headers[k]))
  }

  lemma {:induction false} ParseHeaderLines(headers: seq<Header>)
    requires forall h <- headers :: WellFormedHeader(h)
    ensures HeadersOf(HeaderLines(headers)) == headers
    ensures forall line <- HeaderLines(headers) :: IsLine(line) && line != ""
  {
    hide ParseHeader, IsLine, HeaderLine;
    if headers != [] {
      ParseHeaderLine(headers[0]);
      ParseHeaderLines(headers[1..]);
      assert HeaderLines(headers) == [HeaderLine(headers[0])] + HeaderLines(headers[1..]);
    }
  }

  function Join(lines: seq<string>): Bytes
    requires lines != []
  {
    if |lines| == 1 then lines[0] else lines[0] + CRLF + Join(lines[1..])
  }

  lemma {:induction false} LinesOfJoin(lines: seq<string>)
    requires lines != [] && forall line <- lines :: IsLine(line)
    ensures Lines(Join(lines)) == lines
  {
    hide IndexOf;
    assert IsLine(lines[0]);
    if |lines| > 1 {
      FirstCrlf(lines[0], Join(lines[1..]));
      LinesOfJoin(lines[1..]);
      var s := Join(lines);
      assert s[..|lines[0]|] == lines[0] && s[|lines[0]| + 2..] == Join(lines[1..]);
    }
  }

  lemma TwoPartLine(m: string, target: string)
    requires IsToken(m) && IsToken(target)
    ensures SplitRequestLine(m + [' '] + target) == Some((m, target, None))
    ensures IsLine(m + [' '] + target)
  {
    JoinedIsLine(m, ' ', target);
    hide IndexOf, IsLine;
    FirstChar(m, ' ', target);
    assert " " == [' '];
    SlicesAround(m, ' ', target);
  }

  /** How a header block is read: the method in upper case, the target, the version, which may hold spaces or be
      missing, and the headers of the lines that follow. */
  lemma HeadOfLines(m: string, target: string, version: string, lines: seq<string>)
    requires IsToken(m) && IsToken(target) && IsLine(version) && forall line <- lines :: IsLine(line)
    ensures ParseHead(Join([m + [' '] + (target + [' '] + version)] + lines)) ==
            Some(Request(Upper(m), target, version, HeadersOf(lines)))
    ensures ParseHead(Join([m + [' '] + target] + lines)) ==
            Some(Request(Upper(m), target, "HTTP/1.1", HeadersOf(lines)))
  {
    RequestLineSplits(m, target, version);
    TwoPartLine(m, target);
    JoinedIsLine(target, ' ', version);
    JoinedIsLine(m, ' ', target + [' '] + version);
    hide IndexOf, IsLine, SplitRequestLine, HeadersOf, Lines, Upper;
    LinesOfJoin([m + [' '] + (target + [' '] + version)] + lines);
    LinesOfJoin([m + [' '] + target] + lines);
  }

  lemma BlankStartsWithCrlf(s: Bytes, j: nat)
    requires !OccursAt(s, CRLF, j)
    ensures !OccursAt(s, BLANK_LINE, j)
  {
    if j + 4 <= |s| {
      assert s[j..j + 2] == s[j..j + 4][..2];
      assert BLANK_LINE[..2] == CRLF;
    }
  }

  lemma SecondHalfOfBlank(line: Bytes, behind: Bytes)
    requires !OccursAt(behind, CRLF, 0)
    ensures !OccursAt(line + CRLF + behind, BLANK_LINE, |line|)
  {
    var s := line + CRLF + behind;
    if |line| + 4 <= |s| {
      assert s[|line|..|line| + 4] == CRLF + behind[..2];
      assert behind[..2] == behind[0..2];
      assert (CRLF + behind[..2])[2..] == behind[..2] && BLANK_LINE[2..] == CRLF;
    }
  }

  /** A non-empty line and its CRLF put before text that starts with no CRLF push its blank lines back. */
  lemma BlankBehindLine(line: Bytes, behind: Bytes, n: nat)
    requires IsLine(line)
    requires n > 0 ==> !OccursAt(behind, CRLF, 0) && Absent(behind, BLANK_LINE, n)
    ensures Absent(line + CRLF + behind, BLANK_LINE, if n == 0 then |line| else |line| + 2 + n)
    ensures line != "" ==> !OccursAt(line + CRLF + behind, CRLF, 0)
  {
    hide IndexOf;
    var s := line + CRLF + behind;
    FirstCrlf(line, behind);
    IndexOfIsFirst(s, CRLF);
    forall j: nat | j < (if n == 0 then |line| else |line| + 2 + n)
      ensures !OccursAt(s, BLANK_LINE, j)
    {
      if j < |line| {
        assert !OccursAt(s, CRLF, j);
        BlankStartsWithCrlf(s, j);
      } else if j == |line| {
        SecondHalfOfBlank(line, behind);
      } else if j == |line| + 1 {
        assert s[j] == '\n';
      } else {
        assert !OccursAt(behind, BLANK_LINE, j - |line| - 2);
        if j + 4 <= |s| {
          assert s[j..j + 4] == behind[j - |line| - 2..j - |line| + 2];
        }
      }
    }
  }

  /** Non-empty lines hold no blank line: the first is the one put behind them. */
  lemma {:induction false} BlankLineBehind(lines: seq<string>, more: Bytes)
    requires lines != [] && forall line <- lines :: IsLine(line) && line != ""
    ensures Absent(Join(lines) + BLANK_LINE + more, BLANK_LINE, |Join(lines)|)
    ensures !OccursAt(Join(lines) + BLANK_LINE + more, CRLF, 0)
  {
    hide IsLine, OccursAt, Absent;
    var line := lines[0];
    assert line in lines;
    if |lines| == 1 {
      assert Join(lines) + BLANK_LINE + more == line + CRLF + (CRLF + more);
      BlankBehindLine(line, CRLF + more, 0);
    } else {
      var behind := Join(lines[1..]) + BLANK_LINE + more;
      assert lines[1] in lines && lines[1..][0] == lines[1];
      assert Join(lines) + BLANK_LINE + more == line + CRLF + behind;
      BlankLineBehind(lines[1..], more);
      JoinNonEmpty(lines[1..]);
      BlankBehindLine(line, behind, |Join(lines[1..])|);
    }
  }

  lemma JoinNonEmpty(lines: seq<string>)
    requires lines != [] && lines[0] != ""
    ensures |Join(lines)| > 0
  {
  }

  lemma {:induction false} PrintedHeadersJoin(first: string, headers: seq<Header>)
    ensures first + CRLF + PrintHeaders(headers) == Join([first] + HeaderLines(headers)) + CRLF
    decreases |headers|
  {
    var lines := [first] + HeaderLines(headers);
    if headers == [] {
      assert lines == [first];
    } else {
      PrintedHeadersJoin(HeaderLine(headers[0]), headers[1..]);
      assert lines[1..] == [HeaderLine(headers[0])] + HeaderLines(headers[1..]);
    }
  }

  /** Whatever follows it, a printed head that fits the size limit is read back as the request it was printed from. */
  lemma PrintedHeadReadsBack(r: Request, more: Bytes)
    requires WellFormed(r) && |PrintHead(r)| <= MAX_HEADER_SIZE
    ensures Receive(PrintHead(r) + more) == Success((r, |PrintHead(r)|))
  {
    hide IndexOf, IsLine, IsToken, WellFormedHeader, SplitRequestLine, RequestLine, HeadersOf, HeaderLines, Lines;
    var lines := [RequestLine(r)] + HeaderLines(r.headers);
    var block := Join(lines);
    ParseRequestLine(r);
    UpperOfUpper(r.method_);
    ParseHeaderLines(r.headers);
    assert RequestLine(r) != "" by {
      RequestLineNonEmpty(r);
    }
    PrintedHeadersJoin(RequestLine(r), r.headers);
    var stream := PrintHead(r) + more;
    assert stream == block + BLANK_LINE + more;
    BlankLineBehind(lines, more);
    FirstIsIndexOf(stream, BLANK_LINE, |block|);
    assert stream[..|block|] == block;
    LinesOfJoin(lines);
  }

  lemma RequestLineNonEmpty(r: Request)
    ensures RequestLine(r) != ""
  {
  }

  // ---- parsing, then printing ----

  lemma {:induction false} LinesAreLines(block: Bytes)
    ensures forall line <- Lines(block) :: IsLine(line)
    decreases |block|
  {
    hide IndexOf;
    var i := IndexOf(block, CRLF);
    if i != -1 {
      BeforeFirst(block, CRLF);
      LinesAreLines(block[i + 2..]);
    }
  }

  /** What comes before the first occurrence holds none. */
  lemma BeforeFirst(s: Bytes, pattern: Bytes)
    requires IndexOf(s, pattern) != -1 && pattern != ""
    ensures IndexOf(s[..IndexOf(s, pattern)], pattern) == -1
  {
    var i := IndexOf(s, pattern);
    IndexOfIsFirst(s, pattern);
    forall j: nat | j < i + 1
      ensures !OccursAt(s[..i], pattern, j)
    {
      if j + |pattern| <= i {
        OccursInPrefix(s[..i], s[i..], pattern, j);
        assert s[..i] + s[i..] == s;
      }
    }
    AbsentIsIndexOf(s[..i], pattern);
  }

  lemma ParsedHeaderIsWellFormed(line: string)
    requires IsLine(line) && ParseHeader(line).Some?
    ensures WellFormedHeader(ParseHeader(line).value)
  {
    hide IndexOf;
    var colon := IndexOf(line, ":");
    BeforeFirst(line, ":");
    SliceWithout(line, 0, colon, CRLF);
    SliceWithout(line, colon + 1, |line|, CRLF);
    assert line[0..colon] == line[..colon];
    assert line[..|line|] == line;
    var i, j := StripSlice(line[..colon], TextAlphabet);
    SliceWithout(line[..colon], i, j, CRLF);
    SliceWithout(line[..colon], i, j, ":");
    i, j := StripSlice(line[colon + 1..], TextAlphabet);
    SliceWithout(line[colon + 1..], i, j, CRLF);
  }

  lemma {:induction false} ParsedHeadersAreWellFormed(lines: seq<string>)
    requires forall line <- lines :: IsLine(line)
    ensures forall h <- HeadersOf(lines) :: WellFormedHeader(h)
  {
    hide IsLine, ParseHeader, WellFormedHeader;
    if lines != [] {
      ParsedHeadersAreWellFormed(lines[1..]);
      if ParseHeader(lines[0]).Some? {
        ParsedHeaderIsWellFormed(lines[0]);
      }
    }
  }

  lemma UpperIsToken(m: string)
    requires IsToken(m)
    ensures IsToken(Upper(m))
  {
    IndexOfIsFirst(m, CRLF);
    IndexOfIsFirst(m, " ");
    forall j: nat | j < |m| + 1
      ensures !OccursAt(Upper(m), CRLF, j) && !OccursAt(Upper(m), " ", j)
    {
      assert !OccursAt(m, CRLF, j) && !OccursAt(m, " ", j);
      if j + 2 <= |m| {
        assert m[j..j + 2] == [m[j], m[j + 1]] && Upper(m)[j..j + 2] == [UpperChar(m[j]), UpperChar(m[j + 1])];
      }
      if j + 1 <= |m| {
        assert m[j..j + 1] == [m[j]] && Upper(m)[j..j + 1] == [UpperChar(m[j])];
      }
    }
    AbsentIsIndexOf(Upper(m), CRLF);
    AbsentIsIndexOf(Upper(m), " ");
  }

  lemma ParsedRequestLineIsWellFormed(line: string)
    requires IsLine(line) && SplitRequestLine(line).Some?
    ensures var (m, target, version) := SplitRequestLine(line).value;
            IsToken(m) && IsToken(target) && (version.Some? ==> IsLine(version.value))
  {
    hide IndexOf;
    var i := IndexOf(line, " ");
    var tail := line[i + 1..];
    BeforeFirst(line, " ");
    SliceWithout(line, 0, i, CRLF);
    SliceWithout(line, i + 1, |line|, CRLF);
    assert line[0..i] == line[..i] && line[i + 1..|line|] == tail;
    var j := IndexOf(tail, " ");
    if j != -1 {
      BeforeFirst(tail, " ");
      SliceWithout(tail, 0, j, CRLF);
      SliceWithout(tail, j + 1, |tail|, CRLF);
      assert tail[0..j] == tail[..j] && tail[j + 1..|tail|] == tail[j + 1..];
    }
  }

  /** Every request that `_read_request` returns is well-formed. */
  lemma ReceivedIsWellFormed(block: Bytes)
    requires ParseHead(block).Some?
    ensures WellFormed(ParseHead(block).value)
  {
    hide IndexOf, IsToken, WellFormedHeader, Lines, SplitRequestLine, HeadersOf;
    var lines := Lines(block);
    LinesAreLines(block);
    assert lines[0] in lines;
    assert forall line <- lines[1..] :: line in lines;
    ParsedRequestLineIsWellFormed(lines[0]);
    ParsedHeadersAreWellFormed(lines[1..]);
    var (m, target, version) := SplitRequestLine(lines[0]).value;
    UpperIsToken(m);
    UpperHasNoLower(m);
    AbsentChar("HTTP/1.1", CRLF);
  }

  // ---- the next hop ----

  lemma {:induction false} KeptHeadersUnlisted(headers: seq<Header>)
    ensures forall h <- Kept(headers) :: h in headers && !IsLeakyHeader(h.name)
  {
    hide IsLeakyHeader;
    if headers != [] {
      KeptHeadersUnlisted(headers[1..]);
    }
  }

  lemma HostIsUnlisted(h: Header)
    ensures IsHost(Header("Host", h.value)) && !IsLeakyHeader("Host")
  {
    assert Lower("Host") == "host";
  }

  /** The forwarded headers are the surviving ones, in order, with at most one Host put in front; they hold a Host
      and no listed name, and another pass through the forwarder changes nothing. */
  lemma OutgoingIsStable(headers: seq<Header>, hostValue: string, otherHost: string)
    ensures var out := Outgoing(headers, hostValue);
            && (out == Kept(headers) || out == [Header("Host", hostValue)] + Kept(headers))
            && (exists h <- out :: Lower(h.name) == "host")
            && (forall h <- out :: !IsLeakyHeader(h.name))
            && Outgoing(out, otherHost) == out
  {
    hide IsLeakyHeader;
    var host, safe, out := Header("Host", hostValue), Kept(headers), Outgoing(headers, hostValue);
    KeptHeadersUnlisted(headers);
    KeptTwice(headers);
    HostIsUnlisted(host);
    if exists h <- safe :: IsHost(h) {
    } else {
      assert out[0] == host && IsHost(out[0]);
      assert Kept(out) == [host] + Kept(safe) by {
        assert out[1..] == safe;
      }
    }
  }

  /** A received request, forwarded with any path free of spaces and line breaks and any trimmed host value:
      the next hop reads back the same method, path, version and headers, provided the head fits its limit. */
  lemma NextHopReceives(block: Bytes, path: string, hostValue: string, more: Bytes)
    requires ParseHead(block).Some?
    requires IsToken(path) && IsLine(hostValue) && Trimmed(hostValue, TextAlphabet)
    ensures var request := ParseHead(block).value;
            var sent := Request(request.method_, path, request.version, Outgoing(request.headers, hostValue));
            |PrintHead(sent)| <= MAX_HEADER_SIZE ==>
            Receive(PrintHead(sent) + more) == Success((sent, |PrintHead(sent)|))
  {
    hide IsToken, WellFormedHeader, Kept, ParseHead;
    var request := ParseHead(block).value;
    var sent := Request(request.method_, path, request.version, Outgoing(request.headers, hostValue));
    ReceivedIsWellFormed(block);
    KeptHeadersUnlisted(request.headers);
    HostHeaderIsWellFormed(hostValue);
    if |PrintHead(sent)| <= MAX_HEADER_SIZE {
      PrintedHeadReadsBack(sent, more);
    }
  }

  lemma FreeIsToken(s: string)
    requires Free(s)
    ensures IsToken(s)
  {
    AbsentChar(s, CRLF);
    AbsentChar(s, " ");
  }

  lemma NoSpaceInTarget(block: Bytes)
    requires ParseHead(block).Some?
    ensures ' ' !in ParseHead(block).value.target
  {
    hide ParseHead, IndexOf;
    var target := ParseHead(block).value.target;
    ReceivedIsWellFormed(block);
    IndexOfIsFirst(target, " ");
    forall i | 0 <= i < |target|
      ensures target[i] != ' '
    {
      assert !OccursAt(target, " ", i);
      assert target[i..i + 1] == [target[i]];
    }
  }

  lemma NextHopReceivesWellFormed(r: Request, n: nat, more: Bytes)
    requires Receive(PrintHead(r) + more) == Success((r, n))
    ensures WellFormed(r)
  {
    hide ParseHead, IndexOf;
    var stream := PrintHead(r) + more;
    ReceivedIsWellFormed(stream[..IndexOf(stream, BLANK_LINE)]);
  }

  /** The request that goes out for a received one. */
  function Forwarded(request: Request, t: Target): Request {
    Request(request.method_, t.path, request.version, Outgoing(request.headers, HostValue(t)))
  }

  /** A received request for a URL that can be forwarded: the next hop reads back the same method, path, version and
      headers exactly when a Host is there already, or the URL's host has no space characters at its ends, which the
      next hop would strip. */
  lemma NextHopReceivesExactly(block: Bytes, more: Bytes)
    requires ParseHead(block).Some? && ParseAbsoluteUrl(ParseHead(block).value.target).Url?
    ensures var request := ParseHead(block).value;
            var t := ParseAbsoluteUrl(request.target).target;
            var sent := Forwarded(request, t);
            |PrintHead(sent)| <= MAX_HEADER_SIZE ==>
              (Receive(PrintHead(sent) + more) == Success((sent, |PrintHead(sent)|))
               <==> Outgoing(request.headers, HostValue(t)) == Kept(request.headers)
                    || Trimmed(HostValue(t), TextAlphabet))
  {
    hide ParseHead, ParseAbsoluteUrl, HostValue, Free, IsToken, PrintHead, Receive, Kept, Trimmed, IsLine;
    var request := ParseHead(block).value;
    var t := ParseAbsoluteUrl(request.target).target;
    var hostValue, sent := HostValue(t), Forwarded(request, t);
    NoSpaceInTarget(block);
    TargetFree(request.target);
    FreeIsToken(t.path);
    FreeIsToken(hostValue);
    TokenIsLine(hostValue);
    if Trimmed(hostValue, TextAlphabet) {
      NextHopReceives(block, t.path, hostValue, more);
    } else if Outgoing(request.headers, hostValue) == Kept(request.headers) {
      KeptNextHopReceives(block, t.path, hostValue, more);
    } else if Receive(PrintHead(sent) + more) == Success((sent, |PrintHead(sent)|)) {
      NextHopReceivesWellFormed(sent, |PrintHead(sent)|, more);
      assert sent.headers[0] == Header("Host", hostValue);
      TrimmedValue(sent.headers[0]);
    }
  }

  lemma TokenIsLine(s: string)
    requires IsToken(s)
    ensures IsLine(s)
  {
  }

  lemma TrimmedValue(h: Header)
    requires WellFormedHeader(h)
    ensures Trimmed(h.value, TextAlphabet)
  {
  }

  /** No Host is added, so that its value plays no part. */
  lemma KeptNextHopReceives(block: Bytes, path: string, hostValue: string, more: Bytes)
    requires ParseHead(block).Some? && IsToken(path)
    requires Outgoing(ParseHead(block).value.headers, hostValue) == Kept(ParseHead(block).value.headers)
    ensures var request := ParseHead(block).value;
            var sent := Request(request.method_, path, request.version, Outgoing(request.headers, hostValue));
            |PrintHead(sent)| <= MAX_HEADER_SIZE ==>
            Receive(PrintHead(sent) + more) == Success((sent, |PrintHead(sent)|))
  {
    hide IsToken, WellFormedHeader, Kept, ParseHead, PrintHead, Receive, Outgoing;
    var request := ParseHead(block).value;
    var sent := Request(request.method_, path, request.version, Outgoing(request.headers, hostValue));
    ReceivedIsWellFormed(block);
    KeptHeadersUnlisted(request.headers);
    if |PrintHead(sent)| <= MAX_HEADER_SIZE {
      PrintedHeadReadsBack(sent, more);
    }
  }

  lemma HostHeaderIsWellFormed(hostValue: string)
    requires IsLine(hostValue) && Trimmed(hostValue, TextAlphabet)
    ensures WellFormedHeader(Header("Host", hostValue))
  {
    AbsentChar("Host", CRLF);
    AbsentChar("Host", ":");
  }
}
