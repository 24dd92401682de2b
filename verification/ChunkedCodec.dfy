/** What the chunked decoder accepts: exactly the chunked messages, each with its own body. */
module ChunkedCodec {
  import opened Options
  import opened ByteStreams
  import opened Text
  import opened Numerals
  import opened Chunked

  /** A chunk on the wire: its size line (extensions included) and its data. */
  datatype WireChunk = WireChunk(sizeLine: Bytes, data: Bytes)

  datatype Message = Message(chunks: seq<WireChunk>, lastLine: Bytes, trailers: seq<Bytes>)

  predicate IsLine(line: Bytes) {
    IndexOf(line, CRLF) == -1
  }

  predicate ValidChunk(c: WireChunk) {
    c.data != "" && IsLine(c.sizeLine) && SizeOf(c.sizeLine) == Some(|c.data|)
  }

  predicate ValidTrailers(trailers: seq<Bytes>) {
    forall t <- trailers :: t != "" && IsLine(t)
  }

  predicate ValidMessage(m: Message) {
    && (forall c <- m.chunks :: ValidChunk(c))
    && IsLine(m.lastLine) && SizeOf(m.lastLine) == Some(0)
    && ValidTrailers(m.trailers) && |m.trailers| < 100
  }

  function PrintChunks(chunks: seq<WireChunk>): Bytes {
    if chunks == [] then ""
    else chunks[0].sizeLine + CRLF + chunks[0].data + CRLF + PrintChunks(chunks[1..])
  }

  function PrintTrailers(trailers: seq<Bytes>): Bytes {
    if trailers == [] then CRLF else trailers[0] + CRLF + PrintTrailers(trailers[1..])
  }

  function Print(m: Message): Bytes {
    PrintChunks(m.chunks) + (m.lastLine + CRLF + PrintTrailers(m.trailers))
  }

  function BodyOf(chunks: seq<WireChunk>): Bytes {
    if chunks == [] then "" else chunks[0].data + BodyOf(chunks[1..])
  }

  // ---- printing, then decoding ----

  lemma SplitPrintedLine(line: Bytes, more: Bytes)
    requires IsLine(line)
    ensures SplitLine(line + CRLF + more) == Some((line, more))
  {
    FirstCrlf(line, more);
    var s := line + CRLF + more;
    assert s[..|line|] == line && s[|line| + 2..] == more;
  }

  lemma {:induction false} SkipPrintedTrailers(trailers: seq<Bytes>, left: nat, more: Bytes)
    requires ValidTrailers(trailers)
    ensures SkipTrailers(PrintTrailers(trailers) + more, left) ==
            if |trailers| < left then Success(more) else Failure(TooManyTrailerLines)
  {
    hide SplitLine;
    if left == 0 {
    } else if trailers == [] {
      SplitPrintedLine("", more);
      assert "" + CRLF + more == CRLF + more;
    } else {
      var after := PrintTrailers(trailers[1..]) + more;
      assert PrintTrailers(trailers) + more == trailers[0] + CRLF + after;
      SplitPrintedLine(trailers[0], after);
      SkipPrintedTrailers(trailers[1..], left - 1, more);
    }
  }

  lemma NextPrintedChunk(c: WireChunk, more: Bytes, taken: nat, maxSize: nat)
    requires ValidChunk(c)
    ensures var s := c.sizeLine + CRLF + (c.data + CRLF + more);
            NextSize(s, taken, maxSize) ==
            if taken + |c.data| <= maxSize then Size(|c.data|, c.data + CRLF + more) else BadSize(BodyTooLarge)
    ensures NextData(c.data + CRLF + more, |c.data|) == Data(c.data, more)
  {
    SplitPrintedLine(c.sizeLine, c.data + CRLF + more);
    var s := c.data + CRLF + more;
    assert s[..|c.data|] == c.data && s[|c.data|..|c.data| + 2] == CRLF && s[|c.data| + 2..] == more;
  }

  lemma NextPrintedLast(line: Bytes, more: Bytes, taken: nat, maxSize: nat)
    requires IsLine(line) && SizeOf(line) == Some(0)
    ensures NextSize(line + CRLF + more, taken, maxSize) == LastChunk(more)
  {
    SplitPrintedLine(line, more);
  }

  lemma {:induction false} DecodePrintedChunks(chunks: seq<WireChunk>, lastLine: Bytes, after: Bytes,
                                               taken: nat, maxSize: nat, cuts: seq<nat>)
    requires forall c <- chunks :: ValidChunk(c)
    requires IsLine(lastLine) && SizeOf(lastLine) == Some(0)
    ensures DecodeChunks(PrintChunks(chunks) + (lastLine + CRLF + after), taken, maxSize, cuts) ==
            if chunks == [] || taken + |BodyOf(chunks)| <= maxSize then Complete(BodyOf(chunks), after)
            else Failed(BodyTooLarge)
    decreases |chunks|
  {
    hide NextSize, NextData, SizeOf, IsLine;
    var s := PrintChunks(chunks) + (lastLine + CRLF + after);
    if chunks == [] {
      assert s == lastLine + CRLF + after;
      NextPrintedLast(lastLine, after, taken, maxSize);
    } else {
      var c := chunks[0];
      var more := PrintChunks(chunks[1..]) + (lastLine + CRLF + after);
      assert s == c.sizeLine + CRLF + (c.data + CRLF + more);
      NextPrintedChunk(c, more, taken, maxSize);
      if taken + |c.data| <= maxSize {
        DecodePrintedChunks(chunks[1..], lastLine, after, taken + |c.data|, maxSize, cuts);
      }
    }
  }

  /** Decoding what a valid message prints gives its body, or fails when that is over the limit. */
  lemma DecodePrinted(m: Message, unread: Bytes, maxSize: nat, cuts: seq<nat>)
    requires ValidMessage(m)
    ensures Decode(Print(m) + unread, maxSize, cuts) ==
            if |BodyOf(m.chunks)| <= maxSize then Complete(BodyOf(m.chunks), unread) else Failed(BodyTooLarge)
  {
    var after := PrintTrailers(m.trailers) + unread;
    assert Print(m) + unread == PrintChunks(m.chunks) + (m.lastLine + CRLF + after);
    DecodePrintedChunks(m.chunks, m.lastLine, after, 0, maxSize, cuts);
    SkipPrintedTrailers(m.trailers, MAX_TRAILER_LINES, unread);
  }

  // ---- decoding, then printing ----

  lemma {:induction false} SkippedTrailers(s: Bytes, left: nat) returns (trailers: seq<Bytes>)
    requires SkipTrailers(s, left).Success?
    ensures ValidTrailers(trailers) && |trailers| < left
    ensures s == PrintTrailers(trailers) + SkipTrailers(s, left).value
    decreases left
  {
    var (line, after) := SplitLine(s).value;
    SplitLineJoins(s);
    if line == "" {
      trailers := [];
    } else {
      var rest := SkippedTrailers(after, left - 1);
      trailers := [line] + rest;
    }
  }

  lemma ReadSizeLine(s: Bytes, taken: nat, maxSize: nat) returns (line: Bytes, after: Bytes)
    requires !NextSize(s, taken, maxSize).BadSize?
    ensures IsLine(line) && s == line + CRLF + after && NextSize(s, taken, maxSize).after == after
    ensures SizeOf(line) == Some(if NextSize(s, taken, maxSize).Size? then NextSize(s, taken, maxSize).n else 0)
  {
    SplitLineJoins(s);
    line, after := SplitLine(s).value.0, SplitLine(s).value.1;
  }

  lemma PrintOneMore(c: WireChunk, chunks: seq<WireChunk>, more: Bytes)
    ensures PrintChunks([c] + chunks) + more == c.sizeLine + CRLF + (c.data + CRLF + (PrintChunks(chunks) + more))
    ensures BodyOf([c] + chunks) == c.data + BodyOf(chunks)
  {
    assert ([c] + chunks)[1..] == chunks;
  }

  lemma DataJoins(s: Bytes, take: nat)
    requires NextData(s, take).Data?
    ensures s == NextData(s, take).data + CRLF + NextData(s, take).after
  {
  }

  /** Every accepted run of chunks is a run of valid chunks with the body that is returned. */
  lemma {:induction false} DecodedChunks(s: Bytes, taken: nat, maxSize: nat)
    returns (chunks: seq<WireChunk>, lastLine: Bytes)
    requires DecodeChunks(s, taken, maxSize, []).Complete?
    ensures forall c <- chunks :: ValidChunk(c)
    ensures IsLine(lastLine) && SizeOf(lastLine) == Some(0)
    ensures var d := DecodeChunks(s, taken, maxSize, []);
            && s == PrintChunks(chunks) + (lastLine + CRLF + d.unread)
            && BodyOf(chunks) == d.body
            && (chunks != [] ==> taken + |d.body| <= maxSize)
    decreases |s|
  {
    hide NextSize, SizeOf, IsLine;
    var line, after := ReadSizeLine(s, taken, maxSize);
    var size := NextSize(s, taken, maxSize);
    if size.LastChunk? {
      chunks, lastLine := [], line;
      assert PrintChunks([]) + (line + CRLF + after) == s;
    } else {
      DecodeChunk(s, taken, maxSize, []);
      DataJoins(after, size.n);
      hide DecodeChunks, NextData, PrintChunks, BodyOf;
      var chunk := NextData(after, size.n);
      var tail;
      tail, lastLine := DecodedChunks(chunk.after, taken + |chunk.data|, maxSize);
      NothingBehindNothing(tail);
      var first := WireChunk(line, chunk.data);
      chunks := [first] + tail;
      PrintOneMore(first, tail, lastLine + CRLF + DecodeChunks(s, taken, maxSize, []).unread);
    }
  }

  lemma NothingBehindNothing(chunks: seq<WireChunk>)
    ensures chunks == [] ==> BodyOf(chunks) == ""
  {
  }

  ghost predicate IsEncoding(m: Message, s: Bytes, body: Bytes, unread: Bytes) {
    ValidMessage(m) && s == Print(m) + unread && BodyOf(m.chunks) == body
  }

  /** Every accepted stream starts with a valid message whose body is the one returned. */
  lemma DecodedMessage(s: Bytes, maxSize: nat) returns (m: Message)
    requires Decode(s, maxSize, []).Complete?
    ensures var d := Decode(s, maxSize, []);
            IsEncoding(m, s, d.body, d.unread) && |d.body| <= maxSize
  {
    hide DecodeChunks, SkipTrailers, PrintChunks, PrintTrailers, BodyOf, SizeOf, IsLine;
    var after := DecodeChunks(s, 0, maxSize, []).unread;
    var chunks, lastLine := DecodedChunks(s, 0, maxSize);
    var trailers := SkippedTrailers(after, MAX_TRAILER_LINES);
    m := Message(chunks, lastLine, trailers);
    var unread := Decode(s, maxSize, []).unread;
    assert s == PrintChunks(chunks) + (lastLine + CRLF + (PrintTrailers(trailers) + unread)) == Print(m) + unread;
    NothingBehindNothing(chunks);
  }

  /** Without a negative size in the way, a stream is accepted with body `body` and `unread` behind it
      exactly when it is some valid chunked message for a `body` within the limit, followed by `unread`. */
  lemma AcceptedExactly(s: Bytes, maxSize: nat, body: Bytes, unread: Bytes)
    ensures Decode(s, maxSize, []) == Complete(body, unread) <==>
            |body| <= maxSize && exists m :: IsEncoding(m, s, body, unread)
  {
    if Decode(s, maxSize, []) == Complete(body, unread) {
      var m := DecodedMessage(s, maxSize);
      assert IsEncoding(m, s, body, unread);
    }
    forall m | IsEncoding(m, s, body, unread) && |body| <= maxSize
      ensures Decode(s, maxSize, []) == Complete(body, unread)
    {
      DecodePrinted(m, unread, maxSize, []);
    }
  }

  // ---- a sender's encoder ----

  /** A size line as section 4.1 of RFC 7230 has it: the size in hexadecimal, then chunk extensions. */
  function SizeLine(n: nat, extensions: Bytes): Bytes {
    HexOf(n) + extensions
  }

  predicate ValidExtensions(e: Bytes) {
    IsLine(e) && (e != "" ==> e[0] == ';')
  }

  lemma SizeLineIsLine(n: nat, extensions: Bytes)
    requires ValidExtensions(extensions)
    ensures IsLine(SizeLine(n, extensions))
  {
    var hex, line := HexOf(n), SizeLine(n, extensions);
    IndexOfIsFirst(extensions, CRLF);
    forall j: nat | j < |line| + 1
      ensures !OccursAt(line, CRLF, j)
    {
      if |hex| <= j <= |line| - 2 {
        assert !OccursAt(extensions, CRLF, j - |hex|);
        assert line[j..j + 2] == extensions[j - |hex|..j - |hex| + 2];
      } else if j < |hex| && j + 2 <= |line| {
        assert line[j..j + 2][0] == hex[j] && IsDigit(hex[j], 16);
      }
    }
    AbsentIsIndexOf(line, CRLF);
  }

  lemma SemicolonBehindHex(n: nat, extensions: Bytes)
    requires ValidExtensions(extensions)
    ensures IndexOf(SizeLine(n, extensions), ";") == if extensions == "" then -1 else |HexOf(n)|
  {
    var hex, line := HexOf(n), SizeLine(n, extensions);
    forall j: nat | j < |hex|
      ensures !OccursAt(line, ";", j)
    {
      assert line[j..j + 1] == [hex[j]] && IsDigit(hex[j], 16);
    }
    if extensions == "" {
      AbsentIsIndexOf(line, ";");
    } else {
      assert line[|hex|..|hex| + 1] == ";";
      FirstIsIndexOf(line, ";", |hex|);
    }
  }

  /** Reading the size back from the line a sender writes. */
  lemma SizeLineReadsBack(n: nat, extensions: Bytes)
    requires ValidExtensions(extensions)
    ensures IsLine(SizeLine(n, extensions)) && SizeOf(SizeLine(n, extensions)) == Some(n)
  {
    hide IndexOf, ParseHex;
    var hex, line := HexOf(n), SizeLine(n, extensions);
    SizeLineIsLine(n, extensions);
    SemicolonBehindHex(n, extensions);
    assert line[..|hex|] == hex && hex + "" == hex;
    assert IsDigit(hex[0], 16) && IsDigit(hex[|hex| - 1], 16);
    assert Strip(hex, ByteAlphabet) == hex;
    ParseHexOf(n);
  }

  function EncodeChunks(pieces: seq<Bytes>, extensions: seq<Bytes>): (chunks: seq<WireChunk>)
    requires |extensions| == |pieces|
    ensures |chunks| == |pieces|
  {
    seq(|pieces|, i requires 0 <= i < |pieces| => WireChunk(SizeLine(|pieces[i]|, extensions[i]), pieces[i]))
  }

  function Concat(pieces: seq<Bytes>): Bytes {
    if pieces == [] then "" else pieces[0] + Concat(pieces[1..])
  }

  lemma {:induction false} EncodedBody(pieces: seq<Bytes>, extensions: seq<Bytes>)
    requires |extensions| == |pieces|
    ensures BodyOf(EncodeChunks(pieces, extensions)) == Concat(pieces)
  {
    if pieces != [] {
      EncodedBody(pieces[1..], extensions[1..]);
      assert EncodeChunks(pieces, extensions)[1..] == EncodeChunks(pieces[1..], extensions[1..]);
    }
  }

  /** Non-empty pieces of at most `maxSize` bytes together, sent with any extensions and fewer than 100 trailer
      lines, arrive as their concatenation. */
  lemma RoundTrip(pieces: seq<Bytes>, extensions: seq<Bytes>, lastExtensions: Bytes, trailers: seq<Bytes>,
                  unread: Bytes, maxSize: nat, cuts: seq<nat>)
    requires |extensions| == |pieces| && |Concat(pieces)| <= maxSize
    requires forall p <- pieces :: p != ""
    requires forall e <- extensions :: ValidExtensions(e)
    requires ValidExtensions(lastExtensions) && ValidTrailers(trailers) && |trailers| < 100
    ensures var m := Message(EncodeChunks(pieces, extensions), SizeLine(0, lastExtensions), trailers);
            && ValidMessage(m)
            && Decode(Print(m) + unread, maxSize, cuts) == Complete(Concat(pieces), unread)
  {
    var m := Message(EncodeChunks(pieces, extensions), SizeLine(0, lastExtensions), trailers);
    forall c <- m.chunks
      ensures ValidChunk(c)
    {
      var i :| 0 <= i < |pieces| && c == m.chunks[i];
      assert pieces[i] in pieces && extensions[i] in extensions;
      SizeLineReadsBack(|pieces[i]|, extensions[i]);
    }
    SizeLineReadsBack(0, lastExtensions);
    EncodedBody(pieces, extensions);
    DecodePrinted(m, unread, maxSize, cuts);
  }
}
