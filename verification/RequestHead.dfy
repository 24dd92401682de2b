/** Reading and parsing the request line and headers (`_read_request`). */
module RequestHead {
  import opened Options
  import opened ByteStreams
  import opened Text

  const MAX_HEADER_SIZE := 65536

  datatype Header = Header(name: string, value: string)

  datatype Request = Request(method_: string, target: string, version: string, headers: seq<Header>)

  datatype HeadError = HeadersTooLarge | Disconnected | MalformedRequestLine

  datatype Result<+T> = Success(value: T) | Failure(error: HeadError)

  /** `block.split(b"\r\n")` */
  function Lines(block: Bytes): (lines: seq<Bytes>)
    ensures lines != []
    decreases |block|
  {
    var i := IndexOf(block, CRLF);
    if i == -1 then [block] else [block[..i]] + Lines(block[i + 2..])
  }

  /** `line.split(" ", 2)`, when that has at least two parts. */
  function SplitRequestLine(line: string): Option<(string, string, Option<string>)> {
    var i := IndexOf(line, " ");
    if i == -1 then None
    else
      var tail := line[i + 1..];
      var j := IndexOf(tail, " ");
      if j == -1 then Some((line[..i], tail, None))
      else Some((line[..i], tail[..j], Some(tail[j + 1..])))
  }

  function ParseHeader(line: string): Option<Header> {
    var i := IndexOf(line, ":");
    if i == -1 then None
    else Some(Header(Strip(line[..i], TextAlphabet), Strip(line[i + 1..], TextAlphabet)))
  }

  /** The headers of the lines that hold a colon; the others are skipped. */
  function HeadersOf(lines: seq<string>): seq<Header> {
    if lines == [] then []
    else
      match ParseHeader(lines[0])
      case None => HeadersOf(lines[1..])
      case Some(h) => [h] + HeadersOf(lines[1..])
  }

  function ParseHead(block: Bytes): Option<Request> {
    var lines := Lines(block);
    match SplitRequestLine(lines[0])
    case None => None
    case Some((m, target, version)) =>
      Some(Request(Upper(m), target, if version.Some? then version.value else "HTTP/1.1", HeadersOf(lines[1..])))
  }

  /** What `_read_request` makes of a whole stream: the request and where its head ends. */
  function Receive(stream: Bytes): Result<(Request, nat)> {
    var end := IndexOf(stream, BLANK_LINE);
    if end != -1 && end + 4 <= MAX_HEADER_SIZE then
      match ParseHead(stream[..end])
      case None => Failure(MalformedRequestLine)
      case Some(request) => Success((request, end + 4))
    else if |stream| >= MAX_HEADER_SIZE then Failure(HeadersTooLarge)
    else Failure(Disconnected)
  }

  ghost predicate FirstBlankLine(stream: Bytes, end: nat) {
    OccursAt(stream, BLANK_LINE, end) && Absent(stream, BLANK_LINE, end)
  }

  ghost predicate SpaceInFirstLine(block: Bytes, space: nat) {
    space < |block| && block[space] == ' ' && Absent(block, CRLF, space)
  }

  ghost predicate HasSpace(block: Bytes) {
    exists space: nat :: SpaceInFirstLine(block, space)
  }

  // ---- what a line says ----

  /** A line without a colon is skipped; of any other, what stands before and behind the first colon is stripped. */
  lemma HeaderRead(line: string, name: string, value: string)
    ensures ':' !in line ==> HeadersOf([line]) == []
    ensures ':' !in name && line == name + [':'] + value ==>
              HeadersOf([line]) == [Header(Strip(name, TextAlphabet), Strip(value, TextAlphabet))]
  {
    hide IndexOf, Strip;
    IndexOfIsFirst(line, ":");
    var i := IndexOf(line, ":");
    if i != -1 {
      assert line[i..i + 1] == ":" && line[i] == ':';
    }
    if ':' !in name && line == name + [':'] + value {
      forall j: nat | j < |name|
        ensures !OccursAt(line, ":", j)
      {
        assert line[j..j + 1] == [name[j]];
      }
      assert line[|name|..|name| + 1] == ":";
      FirstIsIndexOf(line, ":", |name|);
      assert line[..|name|] == name && line[|name| + 1..] == value;
    }
    assert [line][1..] == [];
  }

  function HeaderList(line: string): seq<Header> {
    match ParseHeader(line)
    case None => []
    case Some(h) => [h]
  }

  lemma HeadersFirst(line: string, lines: seq<string>)
    ensures HeadersOf([line] + lines) == HeaderList(line) + HeadersOf(lines)
  {
    hide ParseHeader;
    assert ([line] + lines)[1..] == lines;
  }

  lemma NoHeaders()
    ensures HeadersOf([]) == []
  {
  }

  lemma Associates<T>(a: seq<T>, b: seq<T>, c: seq<T>)
    ensures a + (b + c) == a + b + c
  {
  }

  /** The headers are those of the lines, in their order. */
  lemma {:induction false} HeadersInOrder(a: seq<string>, b: seq<string>)
    ensures HeadersOf(a + b) == HeadersOf(a) + HeadersOf(b)
  {
    hide HeadersOf, HeaderList;
    if a == [] {
      NoHeaders();
      assert a + b == b;
    } else {
      HeadersInOrder(a[1..], b);
      HeadersFirst(a[0], a[1..]);
      HeadersFirst(a[0], a[1..] + b);
      assert [a[0]] + a[1..] == a;
      Associates([a[0]], a[1..], b);
      Associates(HeaderList(a[0]), HeadersOf(a[1..]), HeadersOf(b));
    }
  }

  lemma FirstLine(block: Bytes)
    ensures Lines(block)[0] <= block
    ensures Absent(block, CRLF, |Lines(block)[0]|)
    ensures |Lines(block)[0]| == |block| || OccursAt(block, CRLF, |Lines(block)[0]|)
  {
    IndexOfIsFirst(block, CRLF);
  }

  lemma SpaceFound(block: Bytes, line: Bytes, space: nat)
    requires line <= block && SpaceInFirstLine(block, space)
    requires |line| == |block| || OccursAt(block, CRLF, |line|)
    ensures IndexOf(line, " ") != -1
  {
    hide IndexOf;
    if |line| < |block| {
      assert block[|line|..|line| + 2] == [block[|line|], block[|line| + 1]];
    }
    assert line[space..space + 1] == " ";
    assert OccursAt(line, " ", space);
    IndexOfIsFirst(line, " ");
  }

  lemma SpaceAt(block: Bytes, line: Bytes)
    requires line <= block && Absent(block, CRLF, |line|) && IndexOf(line, " ") != -1
    ensures SpaceInFirstLine(block, IndexOf(line, " "))
  {
    hide IndexOf;
    var at := IndexOf(line, " ");
    IndexOfIsFirst(line, " ");
    assert line[at..at + 1][0] == line[at];
  }

  lemma ParsesWithSpace(block: Bytes)
    ensures ParseHead(block).Some? <==> HasSpace(block)
  {
    hide IndexOf, Lines, HeadersOf, SpaceInFirstLine;
    var line := Lines(block)[0];
    FirstLine(block);
    assert ParseHead(block).Some? == (IndexOf(line, " ") != -1);
    if IndexOf(line, " ") != -1 {
      SpaceAt(block, line);
    }
    forall space: nat | SpaceInFirstLine(block, space)
      ensures IndexOf(line, " ") != -1
    {
      SpaceFound(block, line, space);
    }
  }

  /** A request is received exactly when the stream's first blank line ends within the first 65536 bytes and there
      is a space before the first line break; it is what stands before the blank line. */
  lemma ReceivesExactly(stream: Bytes, end: nat)
    requires FirstBlankLine(stream, end)
    ensures Receive(stream).Success? <==> end + 4 <= 65536 && HasSpace(stream[..end])
    ensures Receive(stream).Success? ==> Some(Receive(stream).value.0) == ParseHead(stream[..end])
    ensures Receive(stream).Success? ==> Receive(stream).value.1 == end + 4
    ensures Receive(stream) == Failure(MalformedRequestLine) <==> end + 4 <= 65536 && !HasSpace(stream[..end])
    ensures Receive(stream) == Failure(HeadersTooLarge) <==> end + 4 > 65536
  {
    hide IndexOf, ParseHead, HasSpace;
    FirstIsIndexOf(stream, BLANK_LINE, end);
    ParsesWithSpace(stream[..end]);
  }

  /** A stream without a blank line fails by its length. */
  lemma NeverReceives(stream: Bytes)
    requires Absent(stream, BLANK_LINE, |stream|)
    ensures Receive(stream) == Failure(if |stream| >= 65536 then HeadersTooLarge else Disconnected)
  {
    hide IndexOf, ParseHead;
    IndexOfIsFirst(stream, BLANK_LINE);
  }

  method ParseHeaders(lines: seq<string>) returns (headers: seq<Header>)
    ensures headers == HeadersOf(lines)
  {
    headers := [];
    for k := 0 to |lines|
      invariant headers + HeadersOf(lines[k..]) == HeadersOf(lines)
    {
      var line := lines[k];
      assert lines[k..][1..] == lines[k + 1..];
      var colon := IndexOf(line, ":");
      if colon == -1 {
        continue;
      }
      var name := Strip(line[..colon], TextAlphabet);
      var value := Strip(line[colon + 1..], TextAlphabet);
      headers := headers + [Header(name, value)];
    }
  }

  /** Collects the bytes up to and past the blank line, the head's own end falling in the last read. */
  method ReadHeadBytes(reader: StreamReader) returns (r: Result<Bytes>)
    modifies reader
    ensures var stream := old(reader.rest);
            var end := IndexOf(stream, BLANK_LINE);
            if end != -1 && end + 4 <= MAX_HEADER_SIZE then
              && r.Success? && stream == r.value + reader.rest
              && end + 4 <= |r.value| <= MAX_HEADER_SIZE && |r.value| < end + 4 + READ_SIZE
              && IndexOf(r.value, BLANK_LINE) == end
            else r == Failure(if |stream| >= MAX_HEADER_SIZE then HeadersTooLarge else Disconnected)
  {
    hide IndexOf;
    var headerBuf := "";
    ghost var before := "";
    while IndexOf(headerBuf, BLANK_LINE) == -1
      invariant old(reader.rest) == headerBuf + reader.rest
      invariant |headerBuf| <= MAX_HEADER_SIZE
      invariant before <= headerBuf && |headerBuf| <= |before| + READ_SIZE
      invariant IndexOf(before, BLANK_LINE) == -1
      decreases |reader.rest|
    {
      IndexOfStable(headerBuf, reader.rest, BLANK_LINE);
      if |headerBuf| >= MAX_HEADER_SIZE {
        return Failure(HeadersTooLarge);
      }
      var remaining := MAX_HEADER_SIZE - |headerBuf|;
      var chunk := reader.Read(if READ_SIZE <= remaining then READ_SIZE else remaining);
      if chunk == "" {
        assert headerBuf == old(reader.rest);
        return Failure(Disconnected);
      }
      before := headerBuf;
      headerBuf := headerBuf + chunk;
    }
    IndexOfStable(headerBuf, reader.rest, BLANK_LINE);
    IndexOfStable(before, headerBuf[|before|..], BLANK_LINE);
    assert before + headerBuf[|before|..] == headerBuf;
    r := Success(headerBuf);
  }

  /** In whatever pieces the stream arrives, the request is the one the whole stream determines; the bytes read
      past the head are given back, and together with what is unread they are what follows the head. */
  method ReadRequest(reader: StreamReader) returns (r: Result<(Request, Bytes)>)
    modifies reader
    ensures var stream := old(reader.rest);
            match Receive(stream)
            case Failure(e) => r == Failure(e)
            case Success((request, headEnd)) =>
              && r.Success? && r.value.0 == request
              && stream == stream[..headEnd] + r.value.1 + reader.rest
              && |r.value.1| < 4096 && headEnd + |r.value.1| <= 65536
  {
    hide IndexOf, Lines, SplitRequestLine, HeadersOf;
    var bytes := ReadHeadBytes(reader);
    if bytes.Failure? {
      return Failure(bytes.error);
    }
    var headerData := bytes.value;
    var headerEnd := IndexOf(headerData, BLANK_LINE);
    var headerBlock := headerData[..headerEnd];
    var bodyStart := headerData[headerEnd + 4..];
    assert old(reader.rest)[..headerEnd] == headerBlock;
    assert old(reader.rest)[..headerEnd + 4] == headerData[..headerEnd + 4];

    var lines := Lines(headerBlock);
    var parts := SplitRequestLine(lines[0]);
    if parts == None {
      return Failure(MalformedRequestLine);
    }
    var (m, target, version) := parts.value;
    var headers := ParseHeaders(lines[1..]);
    var request := Request(Upper(m), target, if version.Some? then version.value else "HTTP/1.1", headers);
    r := Success((request, bodyStart));
  }
}
