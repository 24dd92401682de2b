/** Which accepted streams are chunked messages as the standard has them: `int(text, 16)` reads signs, the prefix 0x,
    underscores and surrounding spaces too, and a size line of RFC 7230, section 4.1, is plain hexadecimal digits and
    then extensions. (Extensions and trailers are any text without a line break here.)
  */
module ChunkedStandard {
  import opened Options
  import opened ByteStreams
  import opened Text
  import opened Numerals
  import opened Chunked
  import opened ChunkedCodec

  /** A size line without its extensions. */
  function SizeText(line: Bytes): Bytes {
    var semicolon := IndexOf(line, ";");
    if semicolon == -1 then line else line[..semicolon]
  }

  predicate IsPlain(line: Bytes) {
    AllDigits(SizeText(line), 16)
  }

  /** A message as the standard has it. */
  predicate IsStandard(m: Message) {
    && (forall c <- m.chunks ::
          c.data != "" && IsLine(c.sizeLine) && IsPlain(c.sizeLine) && PlaceValue(SizeText(c.sizeLine), 16) == |c.data|)
    && IsLine(m.lastLine) && IsPlain(m.lastLine) && PlaceValue(SizeText(m.lastLine), 16) == 0
    && ValidTrailers(m.trailers) && |m.trailers| < 100
  }

  /** A plain size is read as the number it stands for. */
  lemma PlainSizeReads(line: Bytes)
    requires IsPlain(line)
    ensures SizeOf(line) == Some(PlaceValue(SizeText(line), 16))
  {
    hide IndexOf;
    var digits := SizeText(line);
    assert IsDigit(digits[0], 16) && IsDigit(digits[|digits| - 1], 16);
    assert |digits| > 1 ==> IsDigit(digits[1], 16);
    assert Strip(digits, ByteAlphabet) == digits;
    ParseHexForms(digits);
  }

  /** Space around the digits is ignored, and so are extensions. */
  lemma PaddedSizeReads(before: Bytes, digits: Bytes, behind: Bytes, extensions: Bytes)
    requires AllDigits(digits, 16) && ValidExtensions(extensions)
    requires (forall c <- before :: IsSpace(c, ByteAlphabet)) && (forall c <- behind :: IsSpace(c, ByteAlphabet))
    ensures SizeOf(before + digits + behind + extensions) == Some(PlaceValue(digits, 16))
  {
    var padded := before + digits + behind;
    var line := padded + extensions;
    forall i | 0 <= i < |padded|
      ensures padded[i] != ';'
    {
      if i < |before| {
        assert padded[i] in before;
      } else if i < |before| + |digits| {
        assert IsDigit(digits[i - |before|], 16);
      } else {
        assert padded[i] in behind;
      }
    }
    SemicolonBehind(padded, extensions);
    assert line[..|padded|] == padded && padded + "" == padded;
    assert IsDigit(digits[0], 16) && IsDigit(digits[|digits| - 1], 16);
    hide IndexOf, ParseHex;
    StripPadded(before, digits, behind, ByteAlphabet);
    ParseHexForms(digits);
  }

  lemma SemicolonBehind(s: Bytes, extensions: Bytes)
    requires ValidExtensions(extensions) && forall i | 0 <= i < |s| :: s[i] != ';'
    ensures IndexOf(s + extensions, ";") == if extensions == "" then -1 else |s|
  {
    var line := s + extensions;
    forall j: nat | j < |s|
      ensures !OccursAt(line, ";", j)
    {
      assert line[j..j + 1] == [s[j]];
    }
    if extensions == "" {
      AbsentIsIndexOf(line, ";");
    } else {
      assert line[|s|..|s| + 1] == ";";
      FirstIsIndexOf(line, ";", |s|);
    }
  }

  lemma StandardIsValid(m: Message)
    requires IsStandard(m)
    ensures ValidMessage(m)
  {
    hide SizeOf, IsPlain, IsLine;
    forall c <- m.chunks
      ensures ValidChunk(c)
    {
      PlainSizeReads(c.sizeLine);
    }
    PlainSizeReads(m.lastLine);
  }

  lemma PlainIsStandard(m: Message)
    requires ValidMessage(m) && (forall c <- m.chunks :: IsPlain(c.sizeLine)) && IsPlain(m.lastLine)
    ensures IsStandard(m)
  {
    hide SizeOf, IsLine;
    forall c <- m.chunks
      ensures PlaceValue(SizeText(c.sizeLine), 16) == |c.data|
    {
      PlainSizeReads(c.sizeLine);
    }
    PlainSizeReads(m.lastLine);
  }

  predicate StartsPlain(s: Bytes) {
    SplitLine(s).Some? && IsPlain(SplitLine(s).value.0)
  }

  /** Every size line up to the last chunk's is plain. */
  predicate PlainSizes(s: Bytes, taken: nat, maxSize: nat)
    decreases |s|
  {
    match NextSize(s, taken, maxSize)
    case BadSize(_) => false
    case LastChunk(_) => StartsPlain(s)
    case Size(n, after) =>
      && StartsPlain(s) && n > 0
      && match NextData(after, n)
         case NoData(_) => false
         case Data(data, rest) => PlainSizes(rest, taken + |data|, maxSize)
  }

  lemma StartsWithLine(line: Bytes, more: Bytes)
    requires IsLine(line)
    ensures StartsPlain(line + CRLF + more) <==> IsPlain(line)
  {
    hide IsPlain, SplitLine, IsLine;
    SplitPrintedLine(line, more);
  }

  /** What the first size line contributes. */
  lemma PlainSizesUnfold(s: Bytes, taken: nat, maxSize: nat)
    ensures PlainSizes(s, taken, maxSize) <==>
            match NextSize(s, taken, maxSize)
            case BadSize(_) => false
            case LastChunk(_) => StartsPlain(s)
            case Size(n, after) =>
              && StartsPlain(s) && n > 0 && NextData(after, n).Data?
              && PlainSizes(NextData(after, n).after, taken + |NextData(after, n).data|, maxSize)
  {
    hide NextSize, NextData, StartsPlain;
  }

  lemma {:induction false} PlainSizesOfPrinted(chunks: seq<WireChunk>, lastLine: Bytes, after: Bytes,
                                               taken: nat, maxSize: nat)
    requires forall c <- chunks :: ValidChunk(c)
    requires IsLine(lastLine) && SizeOf(lastLine) == Some(0)
    requires chunks == [] || taken + |BodyOf(chunks)| <= maxSize
    ensures PlainSizes(PrintChunks(chunks) + (lastLine + CRLF + after), taken, maxSize) <==>
            (forall c <- chunks :: IsPlain(c.sizeLine)) && IsPlain(lastLine)
    decreases |chunks|
  {
    hide NextSize, NextData, SizeOf, IsLine, IsPlain, StartsPlain, PlainSizes;
    var s := PrintChunks(chunks) + (lastLine + CRLF + after);
    PlainSizesUnfold(s, taken, maxSize);
    if chunks == [] {
      assert s == lastLine + CRLF + after;
      NextPrintedLast(lastLine, after, taken, maxSize);
      StartsWithLine(lastLine, after);
    } else {
      var c := chunks[0];
      var more := PrintChunks(chunks[1..]) + (lastLine + CRLF + after);
      assert s == c.sizeLine + CRLF + (c.data + CRLF + more);
      NextPrintedChunk(c, more, taken, maxSize);
      StartsWithLine(c.sizeLine, c.data + CRLF + more);
      PlainSizesOfPrinted(chunks[1..], lastLine, after, taken + |c.data|, maxSize);
      assert chunks == [c] + chunks[1..];
    }
  }

  lemma PlainEncoding(m: Message, s: Bytes, maxSize: nat, body: Bytes, unread: Bytes)
    requires IsEncoding(m, s, body, unread) && |body| <= maxSize
    ensures PlainSizes(s, 0, maxSize) <==> (forall c <- m.chunks :: IsPlain(c.sizeLine)) && IsPlain(m.lastLine)
  {
    hide IsPlain, SizeOf, IsLine, PlainSizes;
    var after := PrintTrailers(m.trailers) + unread;
    assert s == PrintChunks(m.chunks) + (m.lastLine + CRLF + after);
    PlainSizesOfPrinted(m.chunks, m.lastLine, after, 0, maxSize);
  }

  /** An accepted stream is a message of the standard, with the body returned, exactly when every size line in it is
      plain. */
  lemma StandardExactly(s: Bytes, maxSize: nat, body: Bytes, unread: Bytes)
    requires Decode(s, maxSize, []) == Complete(body, unread)
    ensures (exists m :: IsStandard(m) && IsEncoding(m, s, body, unread)) <==> PlainSizes(s, 0, maxSize)
  {
    hide IsStandard, Decode, PlainSizes, IsPlain;
    var m := DecodedMessage(s, maxSize);
    PlainEncoding(m, s, maxSize, body, unread);
    if PlainSizes(s, 0, maxSize) {
      assert ValidMessage(m);
      PlainIsStandard(m);
    }
    forall other | IsStandard(other) && IsEncoding(other, s, body, unread)
      ensures PlainSizes(s, 0, maxSize)
    {
      PlainEncoding(other, s, maxSize, body, unread);
      StandardIsPlain(other);
    }
  }

  lemma StandardIsPlain(m: Message)
    requires IsStandard(m)
    ensures (forall c <- m.chunks :: IsPlain(c.sizeLine)) && IsPlain(m.lastLine)
  {
  }
}
