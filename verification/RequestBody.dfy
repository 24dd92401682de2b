/** Assembling the body of a plain HTTP request (`_handle_http`), and what a client that frames its request
    correctly gets delivered, however the network cuts the stream.
  */
module RequestBody {
  import opened Options
  import opened Numbers
  import opened ByteStreams
  import opened Text
  import opened Numerals
  import opened RequestHead
  import C = Chunked
  import opened ChunkedCodec
  import opened ChunkedCuts

  const MAX_BODY_SIZE := 10 * 1024 * 1024

  /** The body handed to the forwarder, or the 400 or 413 response sent instead. */
  datatype Delivery = Body(bytes: Bytes) | BadRequest | ContentTooLarge

  predicate NamesChunked(h: Header) {
    Lower(h.name) == "transfer-encoding" && IndexOf(Lower(h.value), "chunked") != -1
  }

  predicate IsChunked(headers: seq<Header>) {
    exists h <- headers :: NamesChunked(h)
  }

  /** The first Content-Length header decides; without one, or with one that is no number, it is 0. */
  function ContentLength(headers: seq<Header>): int {
    if headers == [] then 0
    else if Lower(headers[0].name) == "content-length" then
      match ParseDecimal(headers[0].value)
      case Some(n) => n
      case None => 0
    else ContentLength(headers[1..])
  }

  /** What is delivered when `after` follows the head and its first `cut` bytes were read together with the head;
      `cuts` matters only to chunks of negative size. */
  function Deliver(headers: seq<Header>, after: Bytes, cut: nat, cuts: seq<nat>): Delivery {
    if IsChunked(headers) then
      match C.Decode(after, MAX_BODY_SIZE, cuts)
      case Complete(body, _) => if |body| > MAX_BODY_SIZE then ContentTooLarge else Body(body)
      case _ => BadRequest
    else
      var n := ContentLength(headers);
      if n > MAX_BODY_SIZE then ContentTooLarge
      else Body(after[..Min(|after|, Max(n, cut))])
  }

  // ---- what the framing headers say ----

  /** The chunked coding is announced by a Transfer-Encoding header, its name in any case, whose value holds the word
      chunked, in any case and with anything around it; and by nothing else. */
  lemma ChunkedExactly(headers: seq<Header>)
    ensures IsChunked(headers) <==>
            exists h <- headers ::
              Lower(h.name) == "transfer-encoding" && exists i: nat :: OccursAt(Lower(h.value), "chunked", i)
  {
    forall h: Header
      ensures IndexOf(Lower(h.value), "chunked") != -1 <==> exists i: nat :: OccursAt(Lower(h.value), "chunked", i)
    {
      IndexOfIsFirst(Lower(h.value), "chunked");
    }
    hide IndexOf, Lower;
  }

  predicate NamesLength(h: Header) {
    Lower(h.name) == "content-length"
  }

  lemma {:induction false} FirstLengthDecides(before: seq<Header>, h: Header, after: seq<Header>)
    requires NamesLength(h) && forall b <- before :: !NamesLength(b)
    ensures ContentLength(before + [h] + after) == ContentLength([h])
  {
    var headers := before + [h] + after;
    if before == [] {
      assert headers == [h] + after;
    } else {
      FirstLengthDecides(before[1..], h, after);
      assert headers[0] == before[0] && !NamesLength(before[0]);
      assert headers[1..] == before[1..] + [h] + after;
    }
  }

  /** The first Content-Length header, its name in any case, gives the number that its value prints, also with a sign; a
      value that is no number gives 0, and so do headers without one. */
  lemma ContentLengthRead(before: seq<Header>, h: Header, after: seq<Header>, n: nat)
    requires forall b <- before :: Lower(b.name) != "content-length"
    ensures ContentLength(before) == 0
    ensures Lower(h.name) == "content-length" && |DecimalOf(n)| <= 4300 ==>
              && (h.value == DecimalOf(n) || h.value == "+" + DecimalOf(n) ==> ContentLength(before + [h] + after) == n)
              && (h.value == "-" + DecimalOf(n) ==> ContentLength(before + [h] + after) + n == 0)
    ensures Lower(h.name) == "content-length" && (h.value == "" || NoNumber(h.value)) ==>
              ContentLength(before + [h] + after) == 0
  {
    hide ParseDecimal, DecimalOf;
    NoLengthIsZero(before);
    if NamesLength(h) {
      FirstLengthDecides(before, h, after);
      ParseDecimalOf(n);
      EmptyIsRefused();
      if NoNumber(h.value) {
        var i :| 0 <= i < |h.value| && Foreign(h.value[i]);
        OthersAreRefused(h.value, i);
      }
    }
  }

  /** A character that no number holds. */
  predicate Foreign(c: char) {
    !IsDigit(c, 16) && c !in {'_', '+', '-', 'x', 'X'}
  }

  predicate NoNumber(value: string) {
    exists i | 0 <= i < |value| :: Foreign(value[i])
  }

  lemma {:induction false} NoLengthIsZero(headers: seq<Header>)
    requires forall h <- headers :: !NamesLength(h)
    ensures ContentLength(headers) == 0
  {
    if headers != [] {
      assert !NamesLength(headers[0]);
      NoLengthIsZero(headers[1..]);
    }
  }

  method DetectChunked(headers: seq<Header>) returns (chunked: bool)
    ensures chunked == IsChunked(headers)
  {
    for k := 0 to |headers|
      invariant forall j | 0 <= j < k :: !NamesChunked(headers[j])
    {
      if NamesChunked(headers[k]) {
        return true;
      }
    }
    return false;
  }

  method FindContentLength(headers: seq<Header>) returns (contentLength: int)
    ensures contentLength == ContentLength(headers)
  {
    contentLength := 0;
    for k := 0 to |headers|
      invariant contentLength == 0
      invariant ContentLength(headers) == ContentLength(headers[k..])
    {
      assert headers[k..][1..] == headers[k + 1..];
      if Lower(headers[k].name) == "content-length" {
        var n := ParseDecimal(headers[k].value);
        if n.Some? {
          contentLength := n.value;
        }
        break;
      }
    }
  }

  method AssembleBody(headers: seq<Header>, bodyStart: Bytes, reader: StreamReader)
    returns (delivery: Delivery, ghost cuts: seq<nat>)
    modifies reader
    ensures delivery == Deliver(headers, bodyStart + old(reader.rest), |bodyStart|, cuts)
  {
    hide C.Decode;
    cuts := [];
    var isChunked := DetectChunked(headers);
    if isChunked {
      var body;
      body, cuts := C.ReadChunkedBody(reader, bodyStart, MAX_BODY_SIZE);
      if body.Failure? {
        return BadRequest, cuts;
      }
      if |body.value| > MAX_BODY_SIZE {
        return ContentTooLarge, cuts;
      }
      return Body(body.value), cuts;
    }
    var contentLength := FindContentLength(headers);
    if contentLength > MAX_BODY_SIZE {
      return ContentTooLarge, cuts;
    }
    var bodyBuf := bodyStart;
    while contentLength > |bodyBuf|
      invariant bodyBuf + reader.rest == bodyStart + old(reader.rest)
      invariant |bodyStart| <= |bodyBuf| <= Max(contentLength, |bodyStart|)
      decreases |reader.rest|
    {
      var extra := reader.Read(contentLength - |bodyBuf|);
      if extra == "" {
        break;
      }
      bodyBuf := bodyBuf + extra;
    }
    assert bodyBuf == (bodyStart + old(reader.rest))[..|bodyBuf|];
    delivery := Body(bodyBuf);
  }

  /** A head that the first read cuts can fall behind: its blank line comes first in the stream at its end. */
  predicate IsHead(head: Bytes, request: Request) {
    && IndexOf(head + BLANK_LINE, BLANK_LINE) == |head|
    && |head| + 4 <= MAX_HEADER_SIZE
    && ParseHead(head) == Some(request)
  }

  /** `_read_request` followed by the body assembly, on a connection that starts with such a head. The number of
      body bytes read with the head and the cuts at negative chunk sizes are all the network can choose. */
  method ReceiveRequest(reader: StreamReader, ghost head: Bytes, ghost request: Request, ghost after: Bytes)
    returns (received: Request, delivery: Delivery, ghost cut: nat, ghost cuts: seq<nat>)
    requires IsHead(head, request) && reader.rest == head + BLANK_LINE + after
    modifies reader
    ensures received == request && delivery == Deliver(request.headers, after, cut, cuts)
    ensures cut <= LastCut(head, after)
  {
    hide IndexOf, ParseHead, IsChunked, C.Decode;
    HeadReceived(head, request, after);
    var r := ReadRequest(reader);
    var stream := head + BLANK_LINE + after;
    assert after == stream[|head| + 4..];
    assert stream[..|head| + 4] + (r.value.1 + reader.rest) == stream;
    assert after == r.value.1 + reader.rest;
    received := r.value.0;
    cut := |r.value.1|;
    delivery, cuts := AssembleBody(received.headers, r.value.1, reader);
  }

  /** The most bytes of what follows the head that can be read together with it. */
  function LastCut(head: Bytes, after: Bytes): nat
    requires |head| + 4 <= MAX_HEADER_SIZE
  {
    Min(|after|, Min(READ_SIZE - 1, MAX_HEADER_SIZE - (|head| + 4)))
  }

  lemma HeadReceived(head: Bytes, request: Request, after: Bytes)
    requires IsHead(head, request)
    ensures Receive(head + BLANK_LINE + after) == Success((request, |head| + 4))
  {
    hide IndexOf, ParseHead;
    IndexOfStable(head + BLANK_LINE, after, BLANK_LINE);
    PrefixOfThree(head, BLANK_LINE, after);
  }

  lemma PrefixOfThree(a: Bytes, b: Bytes, c: Bytes)
    ensures (a + b + c)[..|a|] == a
  {
  }

  /** A head that announces the chunked coding, followed by any valid chunked message within the limit:
      exactly that message's body is delivered, for every cut. */
  lemma ChunkedDelivered(headers: seq<Header>, m: Message, unread: Bytes, cut: nat, cuts: seq<nat>)
    requires IsChunked(headers) && ValidMessage(m)
    ensures Deliver(headers, Print(m) + unread, cut, cuts) ==
            if |BodyOf(m.chunks)| <= MAX_BODY_SIZE then Body(BodyOf(m.chunks)) else BadRequest
  {
    hide C.Decode, Print, ValidMessage, IsChunked;
    DecodePrinted(m, unread, MAX_BODY_SIZE, cuts);
  }

  /** Exactly when 413 is sent: for an announced length over the limit, or for an accepted chunked body in which a chunk
      of negative size took more than there was room for. For nothing else does the second size check, behind the
      chunked reader, fire. */
  lemma TooLargeExactly(headers: seq<Header>, after: Bytes, cut: nat, cuts: seq<nat>)
    ensures Deliver(headers, after, cut, cuts) == ContentTooLarge <==>
            if IsChunked(headers)
            then C.Decode(after, MAX_BODY_SIZE, cuts).Complete? && Overruns(after, 0, MAX_BODY_SIZE, cuts)
            else ContentLength(headers) > 10485760
  {
    hide C.DecodeChunks, Overruns, IsChunked, ContentLength, C.SkipTrailers;
    if IsChunked(headers) && C.DecodeChunks(after, 0, MAX_BODY_SIZE, cuts).Complete? {
      OverLimitExactly(after, 0, MAX_BODY_SIZE, cuts);
    }
  }

  /** Without negative chunk sizes: 413 is sent for an announced length over the limit and for nothing else; and 400 is
      sent exactly for a chunked body that no valid message within the limit starts. */
  lemma RefusedExactly(headers: seq<Header>, after: Bytes, cut: nat, cuts: seq<nat>)
    requires IsChunked(headers) ==> C.Decode(after, MAX_BODY_SIZE, []) != C.CutNeeded
    ensures Deliver(headers, after, cut, cuts) == ContentTooLarge <==>
            !IsChunked(headers) && ContentLength(headers) > MAX_BODY_SIZE
    ensures Deliver(headers, after, cut, cuts) == BadRequest <==>
            && IsChunked(headers)
            && forall m, body, unread :: IsEncoding(m, after, body, unread) ==> |body| > MAX_BODY_SIZE
  {
    hide C.Decode, IsEncoding, IsChunked, ContentLength;
    if IsChunked(headers) {
      CutsIrrelevant(after, MAX_BODY_SIZE, cuts);
      var d := C.Decode(after, MAX_BODY_SIZE, []);
      if d.Complete? {
        AcceptedExactly(after, MAX_BODY_SIZE, d.body, d.unread);
      }
      forall m, body, unread | IsEncoding(m, after, body, unread) && |body| <= MAX_BODY_SIZE
        ensures d == C.Complete(body, unread)
      {
        AcceptedExactly(after, MAX_BODY_SIZE, body, unread);
      }
    }
  }

  /** A head whose first Content-Length header prints the number of bytes that follow: they are delivered, for every
      cut. */
  lemma ContentLengthDelivered(before: seq<Header>, h: Header, others: seq<Header>, body: Bytes, cut: nat)
    requires !IsChunked(before + [h] + others) && forall b <- before :: Lower(b.name) != "content-length"
    requires Lower(h.name) == "content-length" && h.value == DecimalOf(|body|)
    requires |body| <= MAX_BODY_SIZE && cut <= |body|
    ensures Deliver(before + [h] + others, body, cut, []) == Body(body)
  {
    hide DecimalOf, IsChunked, ContentLength;
    assert Power10(8) == 100000000;
    DecimalLength(|body|, 8);
    ContentLengthRead(before, h, others, |body|);
    assert body[..|body|] == body;
  }

  /** Without a Content-Length, what was read together with the head is delivered. */
  lemma NothingAnnounced(headers: seq<Header>, after: Bytes, cut: nat)
    requires !IsChunked(headers) && forall h <- headers :: Lower(h.name) != "content-length"
    ensures Deliver(headers, after, cut, []) == Body(after[..Min(|after|, cut)])
  {
    hide IsChunked, ContentLength;
    NoLengthIsZero(headers);
  }

  /** The number of bytes a head announces; a negative Content-Length announces none. */
  function Announced(headers: seq<Header>): nat {
    Max(ContentLength(headers), 0)
  }

  /** When more bytes follow than announced, the delivery is the announced prefix for every cut exactly when the
      head cannot be read together with more than the announced bytes: the program does not trim them. */
  lemma AnnouncedPrefixExactly(headers: seq<Header>, head: Bytes, after: Bytes)
    requires |head| + 4 <= MAX_HEADER_SIZE
    requires !IsChunked(headers) && ContentLength(headers) <= MAX_BODY_SIZE
    ensures (forall cut: nat | cut <= LastCut(head, after) ::
               Deliver(headers, after, cut, []) == Body(after[..Min(Announced(headers), |after|)]))
            <==> LastCut(head, after) <= Announced(headers)
  {
    hide IsChunked, ContentLength;
    var n, last := Announced(headers), LastCut(head, after);
    if last > n {
      assert Deliver(headers, after, last, []) == Body(after[..last]);
      assert |after[..last]| != |after[..Min(n, |after|)]|;
    }
  }
}
