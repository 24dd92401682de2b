/** A request, body included, that goes out to another relay of the same kind: what that one receives and delivers. */
module NextHop {
  import opened Options
  import opened Numbers
  import opened ByteStreams
  import opened Text
  import opened RequestHead
  import opened RequestBody
  import opened Forwarding
  import opened TargetUrl

  /** The chunked coding is never announced to the next hop. */
  lemma OutgoingIsNotChunked(headers: seq<Header>, hostValue: string)
    ensures !IsChunked(Outgoing(headers, hostValue))
  {
    hide IsHost;
    KeptHeadersUnlisted(headers);
    HostIsUnlisted(Header("Host", hostValue));
    hide Kept;
    forall h <- Outgoing(headers, hostValue)
      ensures !NamesChunked(h)
    {
      assert !IsLeakyHeader(h.name);
      assert "transfer-encoding" in HOP_BY_HOP;
    }
  }

  lemma ContentLengthIsUnlisted(name: string)
    requires Lower(name) == "content-length"
    ensures !IsLeakyHeader(name)
  {
  }

  lemma {:induction false} KeptContentLength(headers: seq<Header>)
    ensures ContentLength(Kept(headers)) == ContentLength(headers)
  {
    hide IsLeakyHeader;
    if headers != [] {
      KeptContentLength(headers[1..]);
      if Lower(headers[0].name) == "content-length" {
        ContentLengthIsUnlisted(headers[0].name);
      }
      assert ([headers[0]] + Kept(headers[1..]))[1..] == Kept(headers[1..]);
    }
  }

  /** A Content-Length goes out as it came in, and none is added. */
  lemma OutgoingContentLength(headers: seq<Header>, hostValue: string)
    ensures ContentLength(Outgoing(headers, hostValue)) == ContentLength(headers)
  {
    hide IsHost, Kept;
    KeptContentLength(headers);
    var host := Header("Host", hostValue);
    assert Lower("Host") == "host";
    assert ([host] + Kept(headers))[1..] == Kept(headers);
  }

  /** The next hop, whose stream holds `body` behind a head of `headSize` bytes, delivers that body in all cases. */
  ghost predicate DeliversAlways(headers: seq<Header>, headSize: nat, body: Bytes)
    requires headSize <= MAX_HEADER_SIZE
  {
    forall cut: nat, cuts: seq<nat> | cut <= Min(|body|, Min(READ_SIZE - 1, MAX_HEADER_SIZE - headSize)) ::
      Deliver(headers, body, cut, cuts) == Body(body)
  }

  /** The request's Content-Length is large enough for the body, and not too large to be accepted. */
  predicate Announces(headers: seq<Header>, body: Bytes) {
    ContentLength(headers) <= MAX_BODY_SIZE && (body == "" || |body| <= ContentLength(headers))
  }

  /** However the stream to it is cut, the next hop delivers the very body that was sent exactly when the request came
      with a Content-Length that covers it: a dechunked body goes out without one of its own. */
  lemma BodyForwardedExactly(headers: seq<Header>, hostValue: string, headSize: nat, body: Bytes)
    requires headSize <= MAX_HEADER_SIZE
    ensures DeliversAlways(Outgoing(headers, hostValue), headSize, body) <==> Announces(headers, body)
  {
    hide IsChunked, ContentLength, Outgoing;
    var out := Outgoing(headers, hostValue);
    OutgoingIsNotChunked(headers, hostValue);
    OutgoingContentLength(headers, hostValue);
    var n := ContentLength(headers);
    assert body[..|body|] == body;
    if !Announces(headers, body) {
      assert n <= MAX_BODY_SIZE ==> Deliver(out, body, 0, []) == Body(body[..Min(|body|, Max(n, 0))]);
      assert Deliver(out, body, 0, []) != Body(body);
    }
  }

  /** The next hop receives the request that was sent, and delivers the same body, for every cut. */
  ghost predicate HopKeeps(sent: Request, body: Bytes) {
    && |PrintHead(sent)| <= MAX_HEADER_SIZE
    && Receive(PrintHead(sent) + body) == Success((sent, |PrintHead(sent)|))
    && DeliversAlways(sent.headers, |PrintHead(sent)|, body)
  }

  /** From the first hop's stream to the second hop's delivery. A request is received for a URL that can be forwarded,
      its body is delivered to the forwarder, and both go out. The next hop receives that request and delivers that
      body exactly when the printed head fits the limit, the added Host value (if one is added) is trimmed, and the
      request came with a Content-Length that covers the body. */
  lemma HopKeepsExactly(block: Bytes, body: Bytes)
    requires ParseHead(block).Some? && ParseAbsoluteUrl(ParseHead(block).value.target).Url?
    ensures var request := ParseHead(block).value;
            var t := ParseAbsoluteUrl(request.target).target;
            var sent := Forwarded(request, t);
            HopKeeps(sent, body) <==>
            && |PrintHead(sent)| <= MAX_HEADER_SIZE
            && (sent.headers == Kept(request.headers) || Trimmed(HostValue(t), TextAlphabet))
            && Announces(request.headers, body)
  {
    hide ParseHead, ParseAbsoluteUrl, HostValue, PrintHead, Receive, Kept, Trimmed, Outgoing;
    hide DeliversAlways, Announces;
    var request := ParseHead(block).value;
    var t := ParseAbsoluteUrl(request.target).target;
    var sent := Forwarded(request, t);
    NextHopReceivesExactly(block, body);
    if |PrintHead(sent)| <= MAX_HEADER_SIZE {
      BodyForwardedExactly(request.headers, HostValue(t), |PrintHead(sent)|, body);
    }
  }

  /** With the first hop's delivery put in. A body framed by a Content-Length is covered by it exactly when it was not
      read together with more bytes than announced; a dechunked one when a Content-Length came along that covers it. */
  lemma DeliveredIsAnnouncedExactly(headers: seq<Header>, after: Bytes, cut: nat, cuts: seq<nat>)
    requires Deliver(headers, after, cut, cuts).Body?
    ensures var body := Deliver(headers, after, cut, cuts).bytes;
            !IsChunked(headers) ==>
              (Announces(headers, body) <==> after == "" || Min(|after|, cut) <= Announced(headers))
  {
    hide IsChunked, ContentLength;
  }
}
