/** The chunked transfer coding (section 4.1 of RFC 7230, section 7.1 of RFC 9112) as
    `_read_chunked_body` undoes it, first as a function of the whole byte stream,
    then as the buffered reader that sees the stream in pieces.
  */
module Chunked {
  import opened Options
  import opened ByteStreams
  import opened Text
  import opened Numerals

  const MAX_TRAILER_LINES := 100

  datatype ChunkError = UnexpectedEof | MalformedChunkSize | BodyTooLarge | TooManyTrailerLines | MissingCrlf

  datatype Result<+T> = Success(value: T) | Failure(error: ChunkError)

  /** `unread` is what follows the message. CutNeeded: a negative chunk size was reached, and what the
      program does with it depends on how much of the stream happened to be buffered. */
  datatype Decoded = Complete(body: Bytes, unread: Bytes) | Failed(error: ChunkError) | CutNeeded

  function Prepend(data: Bytes, d: Decoded): Decoded {
    match d
    case Complete(body, unread) => Complete(data + body, unread)
    case _ => d
  }

  lemma PrependNothing(d: Decoded)
    ensures Prepend("", d) == d
  {
  }

  lemma PrependTwice(a: Bytes, b: Bytes, d: Decoded)
    ensures Prepend(a, Prepend(b, d)) == Prepend(a + b, d)
  {
    if d.Complete? {
      assert a + (b + d.body) == a + b + d.body;
    }
  }

  /** The first line and what follows its CRLF. */
  function SplitLine(s: Bytes): (r: Option<(Bytes, Bytes)>)
    ensures r.Some? ==> |r.value.1| < |s|
  {
    var i := IndexOf(s, CRLF);
    if i == -1 then None else Some((s[..i], s[i + 2..]))
  }

  lemma SplitLineJoins(s: Bytes)
    requires SplitLine(s).Some?
    ensures var (line, after) := SplitLine(s).value;
            s == line + CRLF + after && IndexOf(line, CRLF) == -1
  {
    var i := IndexOf(s, CRLF);
    IndexOfIsFirst(s, CRLF);
    assert s == s[..i] + s[i..i + 2] + s[i + 2..];
    forall j: nat | j < |s[..i]| + 1
      ensures !OccursAt(s[..i], CRLF, j)
    {
      if j + 2 <= i {
        OccursInPrefix(s[..i], s[i..], CRLF, j);
        assert s[..i] + s[i..] == s;
      }
    }
    AbsentIsIndexOf(s[..i], CRLF);
  }

  /** The size a chunk-size line announces, its extensions ignored. */
  function SizeOf(line: Bytes): Option<int> {
    var semicolon := IndexOf(line, ";");
    ParseHex(Strip(if semicolon == -1 then line else line[..semicolon], ByteAlphabet))
  }

  /** What follows the trailer part: lines up to the empty one, `left` of them at most. */
  function SkipTrailers(s: Bytes, left: nat): Result<Bytes>
    decreases |s|
  {
    if left == 0 then Failure(TooManyTrailerLines)
    else
      match SplitLine(s)
      case None => Failure(UnexpectedEof)
      case Some((line, after)) => if line == "" then Success(after) else SkipTrailers(after, left - 1)
  }

  /** Python's `buf[:n]` keeps this many of `buffered` bytes. */
  function SliceLength(n: int, buffered: nat): nat {
    if n >= 0 then n else if buffered + n >= 0 then buffered + n else 0
  }

  datatype SizeLine = Size(n: int, after: Bytes) | LastChunk(after: Bytes) | BadSize(error: ChunkError)

  /** The next chunk-size line, checked against the room left in the body. */
  function NextSize(s: Bytes, taken: nat, maxSize: nat): (r: SizeLine)
    ensures r.Size? ==> |r.after| < |s| && r.n != 0 && taken + r.n <= maxSize
  {
    match SplitLine(s)
    case None => BadSize(UnexpectedEof)
    case Some((line, after)) =>
      match SizeOf(line)
      case None => BadSize(MalformedChunkSize)
      case Some(n) =>
        if n == 0 then LastChunk(after)
        else if taken + n > maxSize then BadSize(BodyTooLarge)
        else Size(n, after)
  }

  datatype Chunk = Data(data: Bytes, after: Bytes) | NoData(error: ChunkError)

  /** `take` bytes and the CRLF behind them. */
  function NextData(s: Bytes, take: nat): (r: Chunk)
    ensures r.Data? ==> |r.data| == take && |s| == take + 2 + |r.after|
  {
    if |s| < take + 2 then NoData(UnexpectedEof)
    else if s[take..take + 2] != CRLF then NoData(MissingCrlf)
    else Data(s[..take], s[take + 2..])
  }

  /** The chunks at the head of `s`, with `taken` body bytes already assembled, and what follows the size line
      of the last one. `cuts` lists how many bytes were buffered when each chunk of negative size was read. */
  function DecodeChunks(s: Bytes, taken: nat, maxSize: nat, cuts: seq<nat>): Decoded
    decreases |s|
  {
    match NextSize(s, taken, maxSize)
    case BadSize(e) => Failed(e)
    case LastChunk(after) => Complete("", after)
    case Size(n, after) =>
      if n < 0 && cuts == [] then CutNeeded
      else
        match NextData(after, TakeOf(n, after, cuts))
        case NoData(e) => Failed(e)
        case Data(data, rest) => Prepend(data, DecodeChunks(rest, taken + |data|, maxSize, Later(n, cuts)))
  }

  /** How many bytes are taken for a chunk of size `n`. */
  function TakeOf(n: int, after: Bytes, cuts: seq<nat>): nat
    requires n < 0 ==> cuts != []
  {
    SliceLength(n, if n < 0 && cuts[0] < |after| then cuts[0] else |after|)
  }

  /** The cuts for the chunks behind one of size `n`. */
  function Later(n: int, cuts: seq<nat>): seq<nat>
    requires n < 0 ==> cuts != []
  {
    if n < 0 then cuts[1..] else cuts
  }

  /** What one chunk contributes. */
  lemma DecodeChunk(s: Bytes, taken: nat, maxSize: nat, cuts: seq<nat>)
    requires NextSize(s, taken, maxSize).Size?
    ensures var size := NextSize(s, taken, maxSize);
            if size.n < 0 && cuts == [] then DecodeChunks(s, taken, maxSize, cuts) == CutNeeded
            else
              match NextData(size.after, TakeOf(size.n, size.after, cuts))
              case NoData(e) => DecodeChunks(s, taken, maxSize, cuts) == Failed(e)
              case Data(data, rest) =>
                DecodeChunks(s, taken, maxSize, cuts) ==
                Prepend(data, DecodeChunks(rest, taken + |data|, maxSize, Later(size.n, cuts)))
  {
    hide NextSize, NextData;
  }

  /** What it is when no chunk follows. */
  lemma DecodeNoChunk(s: Bytes, taken: nat, maxSize: nat, cuts: seq<nat>)
    requires !NextSize(s, taken, maxSize).Size?
    ensures DecodeChunks(s, taken, maxSize, cuts) ==
            match NextSize(s, taken, maxSize)
            case BadSize(e) => Failed(e)
            case LastChunk(after) => Complete("", after)
  {
    hide NextSize, NextData;
  }

  /** Decoding a whole stream. */
  function Decode(s: Bytes, maxSize: nat, cuts: seq<nat>): Decoded {
    match DecodeChunks(s, 0, maxSize, cuts)
    case Complete(body, after) =>
      (match SkipTrailers(after, MAX_TRAILER_LINES)
       case Success(unread) => Complete(body, unread)
       case Failure(e) => Failed(e))
    case d => d
  }

  /** Of `buffered` bytes, `left` remain when `used` bytes were taken: the rest of them, or, where they did not suffice,
      what the last read got too much. */
  predicate BufferLeft(buffered: nat, used: nat, left: nat) {
    if used <= buffered then left == buffered - used else left < READ_SIZE
  }

  lemma BufferLeftTwice(buffered: nat, used: nat, left: nat, more: nat, after: nat)
    requires BufferLeft(buffered, used, left) && BufferLeft(left, more, after)
    ensures BufferLeft(buffered, used + more, after)
  {
  }

  lemma SliceOfRest(s: Bytes, take: nat)
    requires take <= |s|
    ensures |s| >= take + 2 ==> s[take..][..2] == s[take..take + 2] && s[take..][2..] == s[take + 2..]
  {
  }

  /** The buffer that `_read_chunked_body` shares with its two nested readers. */
  class ChunkedReader {
    const reader: StreamReader
    var buf: Bytes

    ghost function Pending(): Bytes
      reads this, reader
    {
      buf + reader.rest
    }

    constructor (reader: StreamReader, alreadyRead: Bytes)
      ensures this.reader == reader && buf == alreadyRead
    {
      this.reader := reader;
      buf := alreadyRead;
    }

    /** One more read into the buffer; false at end of stream. */
    method Fill() returns (more: bool)
      modifies this, reader
      ensures Pending() == old(Pending())
      ensures old(buf) <= buf && |buf| <= old(|buf|) + READ_SIZE
      ensures more == (old(reader.rest) != "")
      ensures more ==> |reader.rest| < old(|reader.rest|)
      ensures !more ==> buf == old(buf) == Pending()
    {
      var chunk := reader.Read(READ_SIZE);
      more := chunk != "";
      buf := buf + chunk;
    }

    /** Takes the first line off the pending bytes, or fails when they hold no CRLF. */
    method ReadLine() returns (line: Option<Bytes>)
      modifies this, reader
      ensures match SplitLine(old(Pending()))
              case None => line == None && Pending() == old(Pending())
              case Some((first, after)) =>
                && line == Some(first) && Pending() == after
                && BufferLeft(old(|buf|), |old(Pending())| - |after|, |buf|)
    {
      hide IndexOf;
      ghost var before, filled := "", false;
      while IndexOf(buf, CRLF) == -1
        invariant Pending() == old(Pending())
        invariant if filled then |old(buf)| <= |before| else buf == old(buf)
        invariant filled ==> before <= buf && |buf| <= |before| + READ_SIZE && IndexOf(before, CRLF) == -1
        decreases |reader.rest|
      {
        before, filled := buf, true;
        var more := Fill();
        if !more {
          return None;
        }
      }
      IndexOfStable(buf, reader.rest, CRLF);
      if filled {
        IndexOfStable(before, buf[|before|..], CRLF);
        assert before + buf[|before|..] == buf;
      }
      var idx := IndexOf(buf, CRLF);
      line := Some(buf[..idx]);
      assert Pending()[..idx] == buf[..idx];
      assert Pending()[idx + 2..] == buf[idx + 2..] + reader.rest;
      buf := buf[idx + 2..];
    }

    /** Takes `n` bytes off the pending ones; a negative `n` takes all but the last -n bytes of the buffer. */
    method ReadExactly(n: int) returns (data: Option<Bytes>)
      modifies this, reader
      ensures n < 0 ==> data.Some?
      ensures var pending := old(Pending()); var take := SliceLength(n, old(|buf|));
              if |pending| < take then data == None && Pending() == pending
              else data == Some(pending[..take]) && Pending() == pending[take..] && BufferLeft(old(|buf|), take, |buf|)
    {
      while |buf| < n
        invariant Pending() == old(Pending())
        invariant buf == old(buf) || (old(|buf|) < n && |buf| < n + READ_SIZE)
        decreases |reader.rest|
      {
        var more := Fill();
        if !more {
          return None;
        }
      }
      var take := SliceLength(n, |buf|);
      assert Pending()[..take] == buf[..take];
      assert Pending()[take..] == buf[take..] + reader.rest;
      data := Some(buf[..take]);
      buf := buf[take..];
    }

    /** Reads a chunk-size line, with `taken` body bytes assembled so far. */
    method ReadSize(taken: nat, maxSize: nat) returns (size: Result<int>)
      modifies this, reader
      ensures match NextSize(old(Pending()), taken, maxSize)
              case BadSize(e) => size == Failure(e)
              case LastChunk(after) => size == Success(0) && Pending() == after
              case Size(n, after) =>
                && size == Success(n) && Pending() == after
                && BufferLeft(old(|buf|), |old(Pending())| - |after|, |buf|)
    {
      var line := ReadLine();
      if line == None {
        return Failure(UnexpectedEof);
      }
      var n := SizeOf(line.value);
      if n == None {
        return Failure(MalformedChunkSize);
      }
      if n.value != 0 && taken + n.value > maxSize {
        return Failure(BodyTooLarge);
      }
      return Success(n.value);
    }

    /** Reads chunk data and the CRLF behind it. */
    method ReadData(n: int) returns (data: Result<Bytes>)
      modifies this, reader
      ensures match NextData(old(Pending()), SliceLength(n, old(|buf|)))
              case NoData(e) => data == Failure(e)
              case Data(d, after) =>
                && data == Success(d) && Pending() == after
                && BufferLeft(old(|buf|), |old(Pending())| - |after|, |buf|)
    {
      var d := ReadExactly(n);
      if d == None {
        return Failure(UnexpectedEof);
      }
      ghost var left := |buf|;
      assert Pending() == old(Pending())[|d.value|..];
      SliceOfRest(old(Pending()), |d.value|);
      var crlf := ReadExactly(2);
      if crlf == None {
        return Failure(UnexpectedEof);
      }
      if crlf.value != CRLF {
        return Failure(MissingCrlf);
      }
      BufferLeftTwice(old(|buf|), |d.value|, left, 2, |buf|);
      return Success(d.value);
    }

    /** The trailer part: lines up to an empty one. */
    method ReadTrailers(limit: nat) returns (error: Option<ChunkError>)
      modifies this, reader
      ensures match SkipTrailers(old(Pending()), limit)
              case Failure(e) => error == Some(e)
              case Success(unread) => error == None && Pending() == unread
    {
      for i := 0 to limit
        invariant SkipTrailers(old(Pending()), limit) == SkipTrailers(Pending(), limit - i)
      {
        var trailer := ReadLine();
        if trailer == None {
          return Some(UnexpectedEof);
        }
        if trailer.value == "" {
          return None;
        }
      }
      return Some(TooManyTrailerLines);
    }
  }

  /** The loop of `_read_chunked_body` has assembled `result` from `whole` and `pending` is left to decode. */
  ghost predicate Decoding(whole: Bytes, maxSize: nat, cuts: seq<nat>, result: Bytes, pending: Bytes) {
    forall more: seq<nat> ::
      DecodeChunks(whole, 0, maxSize, cuts + more) == Prepend(result, DecodeChunks(pending, |result|, maxSize, more))
  }

  lemma DecodingStart(whole: Bytes, maxSize: nat)
    ensures Decoding(whole, maxSize, [], "", whole)
  {
    hide DecodeChunks;
    forall more: seq<nat>
      ensures DecodeChunks(whole, 0, maxSize, [] + more) == Prepend("", DecodeChunks(whole, 0, maxSize, more))
    {
      assert [] + more == more;
      PrependNothing(DecodeChunks(whole, 0, maxSize, more));
    }
  }

  /** No chunk follows: the body is complete, or the size line is bad. */
  lemma DecodingEnds(whole: Bytes, maxSize: nat, cuts: seq<nat>, result: Bytes, pending: Bytes)
    requires Decoding(whole, maxSize, cuts, result, pending)
    ensures match NextSize(pending, |result|, maxSize)
            case BadSize(e) => DecodeChunks(whole, 0, maxSize, cuts) == Failed(e)
            case LastChunk(after) => DecodeChunks(whole, 0, maxSize, cuts) == Complete(result, after)
            case Size(_, _) => true
  {
    hide NextSize, NextData;
    assert cuts + [] == cuts;
    assert result + "" == result;
  }

  /** One chunk further, read with `buffered` bytes in the buffer behind its size line. */
  lemma DecodingStep(whole: Bytes, maxSize: nat, cuts: seq<nat>, result: Bytes, pending: Bytes, buffered: nat)
    requires Decoding(whole, maxSize, cuts, result, pending)
    requires var size := NextSize(pending, |result|, maxSize); size.Size? && buffered <= |size.after|
    ensures var size := NextSize(pending, |result|, maxSize);
            var longer := if size.n < 0 then cuts + [buffered] else cuts;
            match NextData(size.after, SliceLength(size.n, buffered))
            case NoData(e) => DecodeChunks(whole, 0, maxSize, longer) == Failed(e)
            case Data(data, after) => Decoding(whole, maxSize, longer, result + data, after)
  {
    hide NextSize, NextData;
    var size := NextSize(pending, |result|, maxSize);
    var longer := if size.n < 0 then cuts + [buffered] else cuts;
    var chunk := NextData(size.after, SliceLength(size.n, buffered));
    forall more: seq<nat>
      ensures DecodeChunks(whole, 0, maxSize, longer + more) ==
              Prepend(result, if chunk.NoData? then Failed(chunk.error)
                              else
                                Prepend(chunk.data, DecodeChunks(chunk.after, |result| + |chunk.data|, maxSize, more)))
    {
      var oracle := if size.n < 0 then [buffered] + more else more;
      assert longer + more == cuts + oracle;
      assert size.n < 0 ==> oracle[1..] == more;
    }
    if chunk.NoData? {
      assert longer + [] == longer;
    } else {
      forall more: seq<nat>
        ensures DecodeChunks(whole, 0, maxSize, longer + more) ==
                Prepend(result + chunk.data, DecodeChunks(chunk.after, |result + chunk.data|, maxSize, more))
      {
        PrependTwice(result, chunk.data, DecodeChunks(chunk.after, |result| + |chunk.data|, maxSize, more));
      }
    }
  }

  // ---- which cuts a run can meet ----

  /** How many bytes are buffered behind the size line of a chunk of negative size; for any other that plays no part. */
  function NextCut(n: int, cuts: seq<nat>): nat
    requires n < 0 ==> cuts != []
  {
    if n < 0 then cuts[0] else 0
  }

  /** With `buffered` bytes buffered in front of `s`, a run can have `cut` of them behind the size line. */
  predicate CanCut(s: Bytes, after: Bytes, n: int, buffered: nat, cut: nat)
    requires |after| <= |s|
  {
    n < 0 ==> cut <= |after| && BufferLeft(buffered, |s| - |after|, cut)
  }

  /** And then `left` behind the chunk, which takes `used` bytes, `take` of them data. */
  predicate CanLeave(used: nat, rest: Bytes, n: int, buffered: nat, cut: nat, take: nat, left: nat) {
    left <= |rest| && if n < 0 then BufferLeft(cut, take + 2, left) else BufferLeft(buffered, used, left)
  }

  /** `cuts` are numbers of bytes that a run can have buffered at the chunks of negative size in `s`, when it has
      `buffered` bytes in the buffer in front of `s`. */
  ghost predicate RunCuts(s: Bytes, buffered: nat, taken: nat, maxSize: nat, cuts: seq<nat>)
    decreases |s|, 0
  {
    match NextSize(s, taken, maxSize)
    case Size(n, after) =>
      if n < 0 && cuts == [] then true
      else
        && CanCut(s, after, n, buffered, NextCut(n, cuts))
        && (match NextData(after, TakeOf(n, after, cuts))
            case NoData(_) => true
            case Data(data, rest) =>
              RunBehind(|s| - |rest|, rest, n, buffered, NextCut(n, cuts), taken, |data|, maxSize, Later(n, cuts)))
    case _ => true
  }

  /** Likewise behind a chunk of `used` bytes, `take` of them data. */
  ghost predicate RunBehind(used: nat, rest: Bytes, n: int, buffered: nat, cut: nat, taken: nat, take: nat,
                            maxSize: nat, cuts: seq<nat>)
    decreases |rest|, 1
  {
    exists left: nat ::
      CanLeave(used, rest, n, buffered, cut, take, left) && RunCuts(rest, left, taken + take, maxSize, cuts)
  }

  /** Cuts met so far, and any that can be met in what is pending, can be met in the whole. */
  ghost predicate CutsSoFar(whole: Bytes, already: nat, maxSize: nat, cuts: seq<nat>,
                            taken: nat, pending: Bytes, buffered: nat) {
    forall more: seq<nat> ::
      RunCuts(pending, buffered, taken, maxSize, more) ==> RunCuts(whole, already, 0, maxSize, cuts + more)
  }

  lemma CutsStart(whole: Bytes, already: nat, maxSize: nat)
    ensures CutsSoFar(whole, already, maxSize, [], 0, whole, already)
  {
    hide RunCuts;
    forall more: seq<nat>
      ensures [] + more == more
    {
    }
  }

  /** The chunk that follows, with `behind` bytes buffered behind its size line. */
  ghost predicate AtChunk(pending: Bytes, taken: nat, maxSize: nat, buffered: nat, behind: nat) {
    var size := NextSize(pending, taken, maxSize);
    size.Size? && behind <= |size.after| && BufferLeft(buffered, |pending| - |size.after|, behind)
  }

  /** The chunk's own cut, if its size is negative, and those behind it. */
  function CutsFrom(n: int, behind: nat, more: seq<nat>): seq<nat> {
    if n < 0 then [behind] + more else more
  }

  /** The chunk's data are there, and `left` bytes are buffered behind them. */
  ghost predicate PastChunk(pending: Bytes, taken: nat, maxSize: nat, behind: nat, left: nat) {
    var size := NextSize(pending, taken, maxSize);
    && size.Size?
    && var chunk := NextData(size.after, SliceLength(size.n, behind));
       chunk.Data? && left <= |chunk.after| && BufferLeft(behind, |chunk.data| + 2, left)
  }

  /** The run's cut at the next chunk, if its size is negative, and the run behind it. */
  lemma RunCutsChunk(s: Bytes, buffered: nat, taken: nat, maxSize: nat, cuts: seq<nat>)
    requires NextSize(s, taken, maxSize).Size? && (NextSize(s, taken, maxSize).n < 0 ==> cuts != [])
    ensures var size := NextSize(s, taken, maxSize);
            var chunk := NextData(size.after, TakeOf(size.n, size.after, cuts));
            RunCuts(s, buffered, taken, maxSize, cuts) <==>
            && CanCut(s, size.after, size.n, buffered, NextCut(size.n, cuts))
            && (chunk.Data? ==>
                  RunBehind(|s| - |chunk.after|, chunk.after, size.n, buffered, NextCut(size.n, cuts), taken,
                            |chunk.data|, maxSize, Later(size.n, cuts)))
  {
    hide NextSize, NextData, CanCut, RunBehind, TakeOf;
  }

  lemma RunBehindWith(used: nat, rest: Bytes, n: int, buffered: nat, cut: nat, taken: nat, take: nat, maxSize: nat,
                      cuts: seq<nat>, left: nat)
    requires CanLeave(used, rest, n, buffered, cut, take, left) && RunCuts(rest, left, taken + take, maxSize, cuts)
    ensures RunBehind(used, rest, n, buffered, cut, taken, take, maxSize, cuts)
  {
    hide RunCuts, CanLeave;
  }

  lemma RunOverChunk(pending: Bytes, taken: nat, maxSize: nat, buffered: nat, behind: nat, left: nat, more: seq<nat>)
    requires AtChunk(pending, taken, maxSize, buffered, behind) && PastChunk(pending, taken, maxSize, behind, left)
    requires var size := NextSize(pending, taken, maxSize);
             var chunk := NextData(size.after, SliceLength(size.n, behind));
             RunCuts(chunk.after, left, taken + |chunk.data|, maxSize, more)
    ensures RunCuts(pending, buffered, taken, maxSize, CutsFrom(NextSize(pending, taken, maxSize).n, behind, more))
  {
    hide RunCuts, RunBehind;
    var size := NextSize(pending, taken, maxSize);
    var chunk := NextData(size.after, SliceLength(size.n, behind));
    BufferLeftTwice(buffered, |pending| - |size.after|, behind, |chunk.data| + 2, left);
    hide NextSize, NextData, BufferLeft;
    var oracle := CutsFrom(size.n, behind, more);
    assert Later(size.n, oracle) == more && TakeOf(size.n, size.after, oracle) == SliceLength(size.n, behind);
    RunBehindWith(|pending| - |chunk.after|, chunk.after, size.n, buffered, NextCut(size.n, oracle), taken,
                  |chunk.data|, maxSize, more, left);
    RunCutsChunk(pending, buffered, taken, maxSize, oracle);
  }

  /** One chunk further. */
  lemma CutsStep(whole: Bytes, already: nat, maxSize: nat, cuts: seq<nat>, taken: nat, pending: Bytes, buffered: nat,
                 behind: nat, left: nat)
    requires CutsSoFar(whole, already, maxSize, cuts, taken, pending, buffered)
    requires AtChunk(pending, taken, maxSize, buffered, behind) && PastChunk(pending, taken, maxSize, behind, left)
    ensures var size := NextSize(pending, taken, maxSize);
            var chunk := NextData(size.after, SliceLength(size.n, behind));
            CutsSoFar(whole, already, maxSize, if size.n < 0 then cuts + [behind] else cuts,
                      taken + |chunk.data|, chunk.after, left)
  {
    hide NextSize, NextData, RunCuts, AtChunk, BufferLeft;
    var size := NextSize(pending, taken, maxSize);
    var chunk := NextData(size.after, SliceLength(size.n, behind));
    var longer := if size.n < 0 then cuts + [behind] else cuts;
    forall more: seq<nat> | RunCuts(chunk.after, left, taken + |chunk.data|, maxSize, more)
      ensures RunCuts(whole, already, 0, maxSize, longer + more)
    {
      RunOverChunk(pending, taken, maxSize, buffered, behind, left, more);
      assert longer + more == cuts + CutsFrom(size.n, behind, more);
    }
  }

  /** Where the chunk's data are missing, the cuts met are those of the whole. */
  lemma CutsAtMissingData(whole: Bytes, already: nat, maxSize: nat, cuts: seq<nat>, taken: nat, pending: Bytes,
                          buffered: nat, behind: nat)
    requires CutsSoFar(whole, already, maxSize, cuts, taken, pending, buffered)
    requires AtChunk(pending, taken, maxSize, buffered, behind)
    requires var size := NextSize(pending, taken, maxSize);
             NextData(size.after, SliceLength(size.n, behind)).NoData?
    ensures var size := NextSize(pending, taken, maxSize);
            RunCuts(whole, already, 0, maxSize, if size.n < 0 then cuts + [behind] else cuts)
  {
    hide NextSize, NextData, BufferLeft;
    var size := NextSize(pending, taken, maxSize);
    var oracle := if size.n < 0 then [behind] else [];
    assert RunCuts(pending, buffered, taken, maxSize, oracle);
    assert cuts + oracle == if size.n < 0 then cuts + [behind] else cuts;
  }

  /** Likewise where no chunk follows. */
  lemma CutsAtEnd(whole: Bytes, already: nat, maxSize: nat, cuts: seq<nat>, taken: nat, pending: Bytes, buffered: nat)
    requires CutsSoFar(whole, already, maxSize, cuts, taken, pending, buffered)
    requires !NextSize(pending, taken, maxSize).Size?
    ensures RunCuts(whole, already, 0, maxSize, cuts)
  {
    hide NextSize, NextData;
    assert RunCuts(pending, buffered, taken, maxSize, []);
    assert cuts + [] == cuts;
  }

  /** Whatever pieces the stream comes in, the outcome is that of decoding the whole stream; the pieces matter through
      `cuts` alone, which are such as a run can meet that has the bytes read already in its buffer at first. What is
      left of the stream is the tail of what follows the message. */
  method ReadChunkedBody(reader: StreamReader, alreadyRead: Bytes, maxSize: nat)
    returns (r: Result<Bytes>, ghost cuts: seq<nat>)
    modifies reader
    ensures match Decode(alreadyRead + old(reader.rest), maxSize, cuts)
            case Complete(body, unread) =>
              r == Success(body) && |reader.rest| <= |unread| && unread[|unread| - |reader.rest|..] == reader.rest
            case Failed(e) => r == Failure(e)
            case CutNeeded => false
    ensures RunCuts(alreadyRead + old(reader.rest), |alreadyRead|, 0, maxSize, cuts)
  {
    hide NextSize, NextData, SkipTrailers, Decoding, DecodeChunks, CutsSoFar, RunCuts, BufferLeft;
    var state := new ChunkedReader(reader, alreadyRead);
    var result := "";
    ghost var whole := state.Pending();
    cuts := [];
    DecodingStart(whole, maxSize);
    CutsStart(whole, |alreadyRead|, maxSize);
    while true
      invariant state.reader == reader && fresh(state)
      invariant Decoding(whole, maxSize, cuts, result, state.Pending())
      invariant CutsSoFar(whole, |alreadyRead|, maxSize, cuts, |result|, state.Pending(), |state.buf|)
      decreases |state.Pending()|
    {
      ghost var pending := state.Pending();
      DecodingEnds(whole, maxSize, cuts, result, pending);
      if !NextSize(pending, |result|, maxSize).Size? {
        CutsAtEnd(whole, |alreadyRead|, maxSize, cuts, |result|, pending, |state.buf|);
      }
      ghost var buffered := |state.buf|;
      var size := state.ReadSize(|result|, maxSize);
      if size.Failure? {
        return Failure(size.error), cuts;
      }
      if size.value == 0 {
        var error := state.ReadTrailers(MAX_TRAILER_LINES);
        if error.Some? {
          return Failure(error.value), cuts;
        }
        break;
      }
      ghost var behind, met := |state.buf|, cuts;
      DecodingStep(whole, maxSize, cuts, result, pending, behind);
      if size.value < 0 {
        cuts := cuts + [behind];
      }
      var data := state.ReadData(size.value);
      if data.Failure? {
        CutsAtMissingData(whole, |alreadyRead|, maxSize, met, |result|, pending, buffered, behind);
        return Failure(data.error), cuts;
      }
      CutsStep(whole, |alreadyRead|, maxSize, met, |result|, pending, buffered, behind, |state.buf|);
      result := result + data.value;
    }
    r := Success(result);
  }
}
