# proxy-relay, modelled in Dafny

proxy-relay is a local HTTP/CONNECT relay with an optional capture pipeline that talks to a browser over the Chrome
DevTools Protocol (CDP). This project models the parts of it whose correctness is not visible in any one function
body, and proves what they promise for all inputs, all schedules and all runs. `dafny verify dfyconfig.toml` checks it.

Code that changes state in steps is modelled as it is written, by classes and loops. Each such method is proved against
a specification function or a step function, and what the program promises is proved about that function. Code that
runs concurrently under asyncio interleaves only at `await`; it is a step machine, one step for each stretch between two
awaits, and the methods of the class refine the steps one by one.

| part | modules |
|---|---|
| request framing over a stream that arrives in pieces | `ByteStreams`, `Text`, `Numerals`, `RequestHead`, `Chunked`, `ChunkedCodec`, `ChunkedStandard`, `ChunkedCuts`, `RequestBody` |
| header filter, target URL, the printed request head, and the next hop | `TargetUrl`, `TargetForms`, `Forwarding`, `NextHop` |
| CDP commands and responses | `CdpProtocol` (steps), `CdpOutcomes`, `CdpClient` (class) |
| capture collector: truncation, storage log, cookie log, request times | `Truncation`, `StorageLog`, `CookieLog`, `RequestTimes`, `Collector` (class) |
| connection monitor | `MonitorProtocol` (steps), `Monitor` (class), `Statistics` |
| tunnel relay | `Relay`, `RelayOutcome` |
| traffic statistics | `Behavior`, `Statistics` |
| reconnecting, retention, connection accounting, health check | `Reconnect`, `Retention`, `Server` |

**Streams.** `StreamReader.Read(n)` returns any 1 to n bytes of what is still to come, and nothing only at its end. So
what is proved of a method that reads holds for every way the network can cut the stream.

**Properties that fail, and exactly when.** Where the code does not meet a property on all inputs, the model follows the
code, and a lemma says exactly when the property holds:

- A chunk size may carry a minus sign, which `int(text, 16)` reads (proxy_relay/handler.py:454). What is taken from the
  buffer then depends on how many bytes happen to be buffered: `NegativeSizeDependsOnCut` shows one stream both accepted
  and rejected. The specification lists those numbers of buffered bytes in `cuts`, which nothing else depends on.
  `CutsIrrelevantExactly` says of every stream, accepted or not, when all runs have one outcome. `RunsAgreeExactly`: a
  stream that some run accepts has the same outcome in all runs exactly when every negative size reached announces at
  least as many bytes as still follow; otherwise `HarmfulCut` names the number of bytes to have read already for
  the stream to be rejected.
- `int(text, 16)` also reads a plus sign, 0x, underscores and spaces. `StandardExactly`: an accepted stream is a message
  of RFC 7230 exactly when every size in it is plain hexadecimal digits.
- A negative size can also carry the body over the size limit (`NegativeSizeBreaksLimit`). `OverLimitExactly`: an
  accepted body is over the limit exactly when some chunk of negative size took more than there was room for; and
  exactly then, for a chunked request, the second size check, at proxy_relay/handler.py:348, fires (`TooLargeExactly`).
- A body that was read together with the head is not trimmed to its Content-Length (proxy_relay/handler.py:354-380).
  `AnnouncedPrefixExactly`: the announced prefix is delivered for every cut exactly when the head cannot be read
  together with more than that.
- The forwarded path is not all that follows the authority: parameters behind a `;` in the last segment are dropped
  (`ParametersAreLost`, from proxy_relay/forwarder.py:181-186). `PathForwardedExactly` says when nothing is lost.
- The next hop does not read back an added Host whose value has space characters at its ends.
  `NextHopReceivesExactly` says when it reads back what was sent.
- The brackets of an IPv6 address are lost in an added Host. `HostReadsBackExactly`: host and port are read back exactly
  when the host holds no colon.
- A dechunked body goes out without a Content-Length of its own. `HopKeepsExactly` says when a next hop of the same kind
  receives the request that was sent and delivers the same body.
- An end of stream does not say that everything was relayed. Reader and writer of one side share a transport
  (proxy_relay/tunnel.py:128), so that the pipe that leaves first, by closing its writer, ends the other pipe's source;
  `EofCanLoseBytes` is a schedule that loses bytes and reports a clean end. `EofDeliversExactly`: a direction that ends
  by an end of stream has written everything exactly when the opposite pipe had not left by then, or nothing was unread;
  `EofAlwaysDeliversExactly`: all schedules that see it deliver everything only where there is nothing to deliver.
- What the relay returns says little about the streams: True after a connection error (`ConnectionErrorReturnsTrue`),
  and an exception instead of False (`ExceptionCanComeOut`, from proxy_relay/tunnel.py:208-212). `TrueExactly` and
  `RaisesExactly` say what comes out of every schedule, and `TrueMeansEndOfStream` when True means an end of stream.
- The storage log loses snapshots when two areas share a state key `origin|type` (`AmbiguityLosesSnapshot`).
  `FaithfulExactly`: replaying the log is faithful in all runs over a set of areas exactly when no two areas of
  the set share one; `NoBarUnambiguous` says that origins without `|` do not.
- The cookie log loses cookies when two pairs of domain and name share a key `domain|name` (`AmbiguityLosesCookie`,
  `BarMakesAmbiguous`). `CookieLog.AgreesExactly` and `CookieLog.NoBarUnambiguous` are the same two statements for it.
- Two cookies of one domain and name make the cookie log flicker (`DuplicateFlickers`). `PollAgreesExactly` and
  `RepeatedPollSilentExactly` give the conditions.
- A rotation whose awaiting task is cancelled leaves its errors in the window and still counts
  (`CancellationLeavesErrors`, from proxy_relay/monitor.py:299-309, where CancelledError is not caught).
  `StepKeepsBelowLimit` says that this, over a window at the limit, is the one step that breaks the bound on the window;
  `SerialRunConserves` says how many rotations the recorded errors pay for, cancelled ones being counted apart, and
  `AccountOfAllExactly` in which configurations they pay for all.
- A negative `max_bytes` makes truncation drop bytes from the end, or fail. `Truncate` says when, by
  `DecodePrefixExactly`.
- A backoff factor below 1 shrinks the cap as well. `CappedPowerExactly` says when the delay is the capped power.

**Where code and documentation disagree** the model follows the code. The comment at proxy_relay/handler.py:341-342
speaks of forwarding a Content-Length request, but no code adds that header to a dechunked request. The documentation of
`relay_data` ties True to an end of stream and an unexpected exception to False; neither holds, as said above. `close()`
of the CDP client cancels the receive loop, whose clean-up at proxy_relay/capture/cdp_client.py:322-326 is then skipped:
only the disconnect is claimed to leave nothing pending.

## Model

| member | source | states |
|---|---|---|
| `ByteStreams.IndexOfStable` | proxy_relay/handler.py:428-433 | An occurrence found in the bytes buffered so far is the first one in the whole stream; if there is none yet, the first one ends in bytes still to come. This is what lets a search in a partial buffer decide. |
| `Text.CaseExactly` | proxy_relay/handler.py:242-242 | Upper-casing turns each lower-case letter into its partner and leaves everything else alone, and lower-casing the reverse. |
| `Text.UpperOfLower` | proxy_relay/handler.py:336-336 | Comparing lower-cased names ignores case, and nothing else. |
| `Text.StripSlice` | proxy_relay/handler.py:253-254 | Stripping leaves a slice of the text that has no space at either end, and takes off only space. |
| `Text.StripPadded` | proxy_relay/handler.py:253-254 | Space around trimmed text is taken off, and nothing else. |
| `Text.SpacesAre` | proxy_relay/handler.py:253-254 | Which characters count as space, in bytes and in text. |
| `Numerals.ParseHexOf` | proxy_relay/handler.py:452-454 | Every size a sender writes in hexadecimal is read back as that number. |
| `Numerals.ParseHexForms` | proxy_relay/handler.py:454-454 | Digits in either case are read as the number they stand for, place by place, and with a sign. |
| `Numerals.ParseHexPrefixed` | proxy_relay/handler.py:454-454 | Likewise behind the prefix 0x, with an underscore after it, and with a sign before it. |
| `Numerals.UnderscoreIgnored` | proxy_relay/handler.py:454-454 | A single underscore between digits changes nothing. |
| `Numerals.DoubleUnderscoreRefused` | proxy_relay/handler.py:454-456 | Two underscores in a row make no number. |
| `Numerals.OthersAreRefused` | proxy_relay/handler.py:454-456 | Text with a character that belongs to no number is refused. |
| `Numerals.ParseDecimalOf` | proxy_relay/handler.py:359-359 | Every number printed in decimal is read back, also with a sign, up to the 4300 digits that the language reads. |
| `Chunked.SplitLineJoins` | proxy_relay/handler.py:426-436 | A line taken off the stream, its CRLF and what follows are the stream again, and the line holds no CRLF. |
| `Chunked.ChunkedReader.Fill` | proxy_relay/handler.py:429-432 | A further read leaves the pending bytes (buffer, then unread stream) what they were, extends the buffer at its end, and reports the end of the stream only when everything pending is in the buffer. |
| `Chunked.ChunkedReader.ReadLine` | proxy_relay/handler.py:426-436 | Takes off the first line of the pending bytes, however they are split over buffer and stream, and fails exactly when they hold no CRLF; terminates. |
| `Chunked.ChunkedReader.ReadExactly` | proxy_relay/handler.py:438-447 | Takes off exactly the first n pending bytes or fails, without loss, when there are fewer; for negative n it takes Python's slice of the buffer. |
| `Chunked.ChunkedReader.ReadSize` | proxy_relay/handler.py:450-477 | The size the next line announces, or the error for a missing line, a malformed size or a body over the limit. |
| `Chunked.ChunkedReader.ReadData` | proxy_relay/handler.py:479-485 | The chunk's data, taken off together with the CRLF that must follow it. |
| `Chunked.ChunkedReader.ReadTrailers` | proxy_relay/handler.py:458-472 | Takes off lines up to the first empty one; an error when 100 lines hold no empty one or the stream ends before it. |
| `Chunked.DecodingStep` | proxy_relay/handler.py:449-485 | One turn of the loop: decoding the whole stream is the body so far followed by decoding the pending bytes, before and after. |
| `Chunked.CutsStep` | proxy_relay/handler.py:438-447 | One turn of the loop: the numbers of bytes buffered at negative sizes stay such as a run can meet, from what is buffered before the chunk to what is left behind it. |
| `Chunked.ReadChunkedBody` | proxy_relay/handler.py:423-487 | For every way to cut the stream into the bytes read already and further reads, the result, body or error, is that of decoding the whole stream at once, with cuts that a run with these bytes in its buffer can meet; what is left unread is a tail of what follows the message; it terminates. |
| `ChunkedCodec.SkipPrintedTrailers` | proxy_relay/handler.py:463-472 | Any non-empty trailer lines are skipped to their end when there are fewer than the limit, and refused otherwise. |
| `ChunkedCodec.DecodePrinted` | proxy_relay/handler.py:449-487 | Every chunked message whose size lines the program reads as the sizes of their chunks (extensions, trailers, signs and underscores included), followed by anything, decodes to its own body with exactly what follows left over, or fails as too large when the body is over the limit. |
| `ChunkedCodec.DecodedMessage` | proxy_relay/handler.py:449-487 | Soundness: every accepted stream starts with such a message of the returned body, which is within the limit. |
| `ChunkedCodec.AcceptedExactly` | proxy_relay/handler.py:449-487 | A stream is accepted with a body and a rest if and only if it is some such encoding of that body, within the limit, followed by that rest (sizes being non-negative). |
| `ChunkedStandard.PlainSizeReads` | proxy_relay/handler.py:450-454 | A size of plain hexadecimal digits is read as the number they stand for. |
| `ChunkedStandard.PaddedSizeReads` | proxy_relay/handler.py:452-454 | Space around the digits, and extensions, are ignored. |
| `ChunkedStandard.StandardExactly` | proxy_relay/handler.py:449-487 | An accepted stream is a message as the standard has it, of the body returned, if and only if every size line in it is plain. |
| `ChunkedCuts.CutsIrrelevant` | proxy_relay/handler.py:423-487 | As long as no negative size is reached, the outcome, body or error, is a function of the bytes alone. |
| `ChunkedCuts.HarmlessCuts` | proxy_relay/handler.py:445-446 | If each negative size reached announces at least what still follows, all cuts give the same outcome, accepted or not. |
| `ChunkedCuts.HarmfulCut` | proxy_relay/handler.py:438-447 | For an accepted stream with any other negative size on its way there is a number of bytes such that every run that starts with so many bytes read already rejects the stream. |
| `ChunkedCuts.RunsAgreeExactly` | proxy_relay/handler.py:423-487 | A stream that some run accepts is accepted with the same outcome by all runs, whatever was read already, if and only if no harmful negative size is reached. |
| `ChunkedCuts.OneOutcomeForAll` | proxy_relay/handler.py:449-485 | If that condition holds, all runs have the same outcome. |
| `ChunkedCuts.TwoOutcomes` | proxy_relay/handler.py:449-485 | If not, some run ends at a missing CRLF and some other does not. |
| `ChunkedCuts.CutsIrrelevantExactly` | proxy_relay/handler.py:423-487 | For every stream, accepted or rejected: all runs, whatever was read already and however the rest is cut, have one outcome if and only if a recursive condition on the bytes holds: the first harmful size, if any, is -1 before a last CRLF, or every way on from it misses a CRLF. |
| `ChunkedCuts.OverLimitExactly` | proxy_relay/handler.py:474-480 | For every accepted stream and all cuts: the body is over the limit if and only if some chunk of negative size took more than there was room for. |
| `ChunkedCuts.NegativeSizeDependsOnCut` | proxy_relay/handler.py:452-485 | A concrete stream with size -2 is rejected for one cut and accepted for another. |
| `ChunkedCuts.NegativeSizeBreaksLimit` | proxy_relay/handler.py:474-480 | A concrete stream with size -2 is accepted with seven bytes under a limit of two. |
| `ChunkedCodec.SizeLineReadsBack` | proxy_relay/handler.py:450-454 | A size line with any extensions behind a semicolon gives the size that was written, and is one line. |
| `ChunkedCodec.RoundTrip` | proxy_relay/handler.py:449-487 | Non-empty pieces within the limit, with any extensions and fewer than 100 trailer lines, arrive as their concatenation, for every cut, and what follows is left over. |
| `RequestHead.ParsesWithSpace` | proxy_relay/handler.py:236-240 | A header block parses if and only if there is a space before its first line break. |
| `RequestHead.HeaderRead` | proxy_relay/handler.py:248-255 | A line without a colon is no header; of any other, what stands before and behind the first colon, stripped. |
| `RequestHead.HeadersInOrder` | proxy_relay/handler.py:247-255 | The headers are those of the lines, in their order. |
| `RequestHead.ReceivesExactly` | proxy_relay/handler.py:212-240 | For a stream whose first blank line is at `end`: accepted iff that ends within 65536 bytes and there is a space in the first line, as what is parsed of the bytes before it; malformed iff only the space is missing, too large iff it ends later. |
| `RequestHead.NeverReceives` | proxy_relay/handler.py:215-224 | Without a blank line the outcome is "too large" from 65536 bytes on, and a disconnect below that. |
| `RequestHead.ParseHeaders` | proxy_relay/handler.py:246-255 | The headers are those of the lines with a colon, in order, the others being skipped. |
| `RequestHead.ReadHeadBytes` | proxy_relay/handler.py:212-228 | Collects, in whatever pieces, a beginning of the stream that holds the first blank line and is never over 65536 bytes, the head ending in the last read; fails exactly when there is none in reach. |
| `RequestHead.ReadRequest` | proxy_relay/handler.py:193-258 | Method, target, version, headers and error do not depend on how the stream is cut; head, the bytes read past it, and the unread rest are the stream. |
| `RequestBody.ChunkedExactly` | proxy_relay/handler.py:334-338 | The chunked coding is announced if and only if some header is named transfer-encoding, in any case, and its value holds the word chunked, in any case. |
| `RequestBody.ContentLengthRead` | proxy_relay/handler.py:355-362 | The first Content-Length header, its name in any case, gives the number its value prints, signed or not; a value with a character of no number, an empty one, or no such header gives 0. |
| `RequestBody.DetectChunked` | proxy_relay/handler.py:334-338 | Says whether any header announces the chunked coding. |
| `RequestBody.FindContentLength` | proxy_relay/handler.py:355-362 | The value of the first Content-Length header, 0 without one or with one that is no number. |
| `RequestBody.AssembleBody` | proxy_relay/handler.py:334-380 | What is delivered, body or 400 or 413, is a function of the bytes behind the head and of how many of them were read with it. |
| `RequestBody.ReceiveRequest` | proxy_relay/handler.py:212-380 | Reading the request and then its body on a connection that starts with a complete head: the parsed request and the delivery the specification gives, for every segmentation. |
| `RequestBody.ChunkedDelivered` | proxy_relay/handler.py:340-350 | A head that announces chunked, followed by a valid chunked message and anything else: exactly that message's body is delivered wherever the first read cuts, or 400 when it is over the limit. |
| `RequestBody.TooLargeExactly` | proxy_relay/handler.py:343-371 | For every request: 413 is sent iff an announced Content-Length is over the limit, or an accepted chunked body was carried over it by a chunk of negative size. |
| `RequestBody.RefusedExactly` | proxy_relay/handler.py:343-371 | Without negative sizes, moreover: 400 is sent iff the request is chunked and no valid message within the limit starts what follows the head. |
| `RequestBody.ContentLengthDelivered` | proxy_relay/handler.py:352-380 | A head whose first Content-Length header prints n, followed by exactly n bytes: exactly these are delivered, wherever the first read cuts. |
| `RequestBody.NothingAnnounced` | proxy_relay/handler.py:354-373 | Without a Content-Length, what was read together with the head is delivered, and no more is read. |
| `RequestBody.AnnouncedPrefixExactly` | proxy_relay/handler.py:354-380 | For every Content-Length within the limit, negative ones announcing nothing: the announced prefix is delivered for every cut if and only if the head cannot be read together with more than the announced bytes. |
| `Forwarding.SanitizeHeaders` | proxy_relay/sanitizer.py:62-75 | The loop keeps the headers of unlisted names; every header is either kept or counted as stripped. |
| `Forwarding.LeakyNames` | proxy_relay/sanitizer.py:14-44 | A name is stripped if and only if it is one of the listed names, in any case. |
| `Forwarding.KeptInOrder` | proxy_relay/sanitizer.py:62-75 | The result is the original list read at strictly increasing positions, and a position is picked if and only if its name is not listed. |
| `TargetUrl.PathForwardedExactly` | proxy_relay/forwarder.py:181-188 | The path forwarded is all of the URL behind the authority if and only if that has a path, no parameters on its last segment, and no empty query or fragment. |
| `TargetUrl.TargetFree` | proxy_relay/forwarder.py:165-188 | Whatever the target is (it holds no space), neither the path nor the Host value made of it holds a space or a line break. |
| `TargetUrl.ParametersAreLost` | proxy_relay/forwarder.py:181-186 | A URL whose parameters are lost, and whose host does not survive as the value of a Host header. |
| `TargetUrl.HostReadsBackExactly` | proxy_relay/forwarder.py:77-80 | The value of an added Host, read as host and port, gives those of the target if and only if the host holds no colon. |
| `TargetForms.UrlIsRead` | proxy_relay/forwarder.py:165-188 | A URL printed from its scheme, user information, host, port and parts is read as the host in lower case, the port written or the scheme's own, and the path (`/` if there is none) with query and fragment unless empty, without parameters; a port that is none is an error. |
| `TargetForms.PortIs` | proxy_relay/forwarder.py:179-179 | A printed port is read as that number up to 65535 and refused beyond, none gives the scheme's, and any other text is refused. |
| `TargetForms.BracketedIsSplit` | proxy_relay/forwarder.py:175-179 | An IPv6 address is found between its brackets, behind user information, and the port behind them. |
| `TargetForms.HostNameIs` | proxy_relay/forwarder.py:175-175 | The host is lower-cased, but for a zone behind a percent sign. |
| `TargetForms.PartsAreSplit` | proxy_relay/forwarder.py:181-186 | Path, parameters, query and fragment are found again in what they are put together to. |
| `TargetForms.UrlIsRefused` | proxy_relay/forwarder.py:167-177 | Another scheme, or no host, is a TunnelError; a bracket without its partner is a ValueError. |
| `TargetForms.ControlsMakeNoDifference` | proxy_relay/forwarder.py:165-165 | Control characters in front, and tabs and line breaks anywhere, make no difference. |
| `TargetForms.AddedHostIsRead` | proxy_relay/forwarder.py:77-80 | For a URL with a port, the added Host is the host in lower case and the port unless that is 80; without one, the host for http and the host with 443 for https. |
| `Forwarding.BuildHead` | proxy_relay/forwarder.py:67-85 | The bytes sent are the printed form of the request with the path and Host made of the URL, the filtered headers, and a Host in front if none was left; or the error of a URL that cannot be forwarded. |
| `Forwarding.HeadOfLines` | proxy_relay/handler.py:235-257 | A block whose first line has three parts is read as the method in upper case, the target and the version; with two parts the version is HTTP/1.1; the headers are those of the other lines. |
| `Forwarding.PrintedHeadReadsBack` | proxy_relay/handler.py:212-255 | Whatever follows it, a printed head within the size limit, its method without lower-case letters, is read back as the very request it was printed from, and as ending where it ends. |
| `Forwarding.ReceivedIsWellFormed` | proxy_relay/handler.py:235-255 | Every request the reader returns can be printed without changing its meaning: no line breaks anywhere, no colon in names, trimmed values, an upper-case method. |
| `Forwarding.OutgoingIsStable` | proxy_relay/forwarder.py:73-80 | The forwarded headers are the kept ones with at most one Host put in front; they hold a Host and no listed name, and a second hop changes nothing. |
| `Forwarding.NextHopReceivesExactly` | proxy_relay/forwarder.py:67-85 | Reader, URL parser, filter, printer and reader composed: the next hop gets the same method, path, version and header list if and only if a Host was there already or the Host value made of the URL is trimmed. |
| `NextHop.BodyForwardedExactly` | proxy_relay/forwarder.py:73-85 | The next hop delivers the very body that was sent, for every cut, if and only if the request came with a Content-Length that covers it and is within the limit. |
| `NextHop.HopKeepsExactly` | proxy_relay/handler.py:340-391 | From the first hop's stream to the second hop's delivery: it receives the request sent and delivers the same body if and only if the head fits, an added Host value is trimmed, and a Content-Length covers the body. |
| `NextHop.DeliveredIsAnnouncedExactly` | proxy_relay/handler.py:352-380 | For a request that is not chunked, the delivered body is covered if and only if it was not read together with more than announced. |
| `CdpProtocol.StepKeepsInv` | proxy_relay/capture/cdp_client.py:201-326 | Every step of every sender, the receive loop and the environment keeps: ids issued are exactly those below the next one, pending ids were issued, an unfinished command is pending iff nothing has happened to its future, an answer carries the command's own id. |
| `CdpProtocol.StepKeepsCommands` | proxy_relay/capture/cdp_client.py:204-233 | A new command gets an id no command had, ids never go back, and a finished command keeps its outcome. |
| `CdpProtocol.FirstResponseIsFirst` | proxy_relay/capture/cdp_client.py:280-285 | The response picked out of a run is one received after the command was issued, with none to that command between. |
| `CdpProtocol.RepeatedResponseIgnored` | proxy_relay/capture/cdp_client.py:280-285 | In every run, once a command was responded to since it was issued, a further response to it changes nothing. |
| `CdpProtocol.ResponseChangesExactly` | proxy_relay/capture/cdp_client.py:280-285 | In every run, a response changes something if and only if its command is open or was left behind by an aborted sender. |
| `CdpProtocol.NothingHeard` | proxy_relay/capture/cdp_client.py:322-342 | Once the receive loop is over, by disconnect or close, no future gets a response any more, in any continuation. |
| `CdpProtocol.DisconnectIsFinal` | proxy_relay/capture/cdp_client.py:322-326 | However a run goes on after a disconnect: nothing issued before is pending again, and an answer is one that had come in before. |
| `CdpProtocol.RunKeeps` | proxy_relay/capture/cdp_client.py:201-326 | In every run the invariant holds, ids are issued one after the other from 1, and every resolved future holds the first response to its own id. |
| `CdpOutcomes.OutcomeExactly` | proxy_relay/capture/cdp_client.py:201-326 | In every run each issued command is where the steps put it: failed to send, timed out or aborted iff that step occurred, answered with the first response to it iff its sender was woken after that, else waiting or being sent; its future holds that response, or a cancellation iff the WebSocket was lost since. |
| `CdpOutcomes.ResponseAnswers` | proxy_relay/capture/cdp_client.py:222-233 | A response answers its command: a waiting sender whose command has got one can be woken, and ends with the first one. |
| `CdpOutcomes.FlagsExactly` | proxy_relay/capture/cdp_client.py:201-202 | The client listens until a disconnect, a cancellation or its closing, and takes commands until it is closed. |
| `CdpProtocol.AnsweredByFirstResponse` | proxy_relay/capture/cdp_client.py:221-233 | A command that ends with an answer ends with the first response to its own id that came after it was issued, in every interleaving. |
| `CdpProtocol.FinishedForGood` | proxy_relay/capture/cdp_client.py:201-326 | A command finishes at most once: however the run goes on, it stays as it ended. |
| `CdpProtocol.IssuedIdsPartitioned` | proxy_relay/capture/cdp_client.py:201-326 | In every run each issued id is in exactly one of: open, settled, answered, timed out, failed to send, aborted; the pending table holds the open ones and what aborted senders left. |
| `CdpClient.CdpClient.BeginSend` | proxy_relay/capture/cdp_client.py:201-209 | Registers a fresh future under the next id, or refuses when closed: the protocol's step. |
| `CdpClient.CdpClient.WriteFailed` | proxy_relay/capture/cdp_client.py:217-219 | The entry is dropped and the command ends as failed to send: the protocol's step. |
| `CdpClient.CdpClient.Expired` | proxy_relay/capture/cdp_client.py:221-225 | The future is cancelled, its entry dropped and the command timed out: the protocol's step. |
| `CdpClient.CdpClient.Woken` | proxy_relay/capture/cdp_client.py:222-233 | The sender gets the message its future was resolved with, or is aborted when it was cancelled: the protocol's step. |
| `CdpClient.CdpClient.Receive` | proxy_relay/capture/cdp_client.py:280-285 | A response resolves the one future pending under its id and no other, through the object the sender shares. |
| `CdpClient.CdpClient.CancelPending` | proxy_relay/capture/cdp_client.py:323-325 | Exactly the pending futures that were not done are cancelled. |
| `CdpClient.CdpClient.Disconnected` | proxy_relay/capture/cdp_client.py:322-326 | The receive loop's end: the protocol's disconnect step. |
| `CdpClient.CdpClient.Close` | proxy_relay/capture/cdp_client.py:334-342 | Nothing can be sent or received any more, and pending entries stay. |
| `Truncation.EncodingIsUtf8` | proxy_relay/capture/collector.py:457-457 | The encoding is that of section 3 of RFC 3629: 1, 2, 3 or 4 bytes exactly for code points below 0x80, 0x800, 0x10000 and 0x110000, with the lead and continuation bytes prescribed, together the code point. |
| `Truncation.AsciiExactly` | proxy_relay/capture/collector.py:457-459 | Text takes one byte for each character if and only if it is ASCII. |
| `Truncation.DecodeEncoded` | proxy_relay/capture/collector.py:457-463 | The strict UTF-8 decoder gives back any text from its encoding. |
| `Truncation.TruncatedIsLongest` | proxy_relay/capture/collector.py:432-463 | The result is a prefix, and a prefix of k characters fits in the limit if and only if it is no longer than the result. |
| `Truncation.TruncatedTwice` | proxy_relay/capture/collector.py:432-463 | Truncating is idempotent. |
| `Truncation.WalkBack` | proxy_relay/capture/collector.py:460-462 | Walking back from the limit passes continuation bytes only, at most three, and stops where the longest fitting prefix ends. |
| `Truncation.DecodePrefixExactly` | proxy_relay/capture/collector.py:463-463 | The first k bytes of an encoding decode to a text if and only if that starts the encoded text and takes k bytes. |
| `Truncation.Truncate` | proxy_relay/capture/collector.py:457-463 | For limits of at least 0 the byte walk computes that longest prefix, and its slice always decodes; for negative ones the result is the prefix that takes so many bytes less than the text, and an error if there is none. |
| `StorageLog.OneEventPerDifference` | proxy_relay/capture/collector.py:229-255 | One call logs one event for each key that was added, changed or removed, and none for any other. |
| `StorageLog.RepeatedSnapshotSilent` | proxy_relay/capture/collector.py:229-255 | The same snapshot again logs nothing. |
| `StorageLog.DiffReplays` | proxy_relay/capture/collector.py:229-255 | Replaying one call's events turns what shows the previous snapshot into what shows the new one. |
| `StorageLog.RunIsFaithful` | proxy_relay/capture/collector.py:226-257 | In every run over areas with distinct state keys, replaying the whole log gives each area its last snapshot, truncated. |
| `StorageLog.AmbiguityLosesSnapshot` | proxy_relay/capture/collector.py:226-227 | Two areas that share a state key have a run whose log misses a snapshot. |
| `StorageLog.FaithfulExactly` | proxy_relay/capture/collector.py:226-257 | For any set of areas: the log is faithful in all runs over them if and only if no two share a state key. |
| `StorageLog.NoBarUnambiguous` | proxy_relay/capture/collector.py:226-226 | Areas whose origins hold no `\|` share no state key. |
| `CookieLog.RowsAreNews` | proxy_relay/capture/collector.py:189-212 | A row is logged if and only if it has the domain, name, flags, expiry and path of a cookie in the poll, and its value, hashed iff httpOnly, which is not the one remembered. |
| `CookieLog.ContentAfterPoll` | proxy_relay/capture/collector.py:189-212 | After a poll the log gives each domain and name the last value in the poll that differs from the previous snapshot, and otherwise what it gave before. |
| `CookieLog.PollAgreesExactly` | proxy_relay/capture/collector.py:187-214 | Whatever log and snapshot were before: after a poll the log, read by domain and name, gives each of its cookies its value if and only if the poll is steady. |
| `CookieLog.LogAgreesWithLastPoll` | proxy_relay/capture/collector.py:187-214 | In every run of polls without a pair of domain and name twice, over pairs with keys of their own, the log, read by domain and name, gives each cookie of the last poll its value. |
| `CookieLog.AmbiguityLosesCookie` | proxy_relay/capture/collector.py:195-199 | Two pairs that share a key have a run without duplicates whose log misses a cookie of the last poll. |
| `CookieLog.AgreesExactly` | proxy_relay/capture/collector.py:187-214 | For any set of pairs of domain and name: the log agrees with the last poll in all runs over them if and only if no two share a key. |
| `CookieLog.NoBarUnambiguous` | proxy_relay/capture/collector.py:195-195 | Pairs whose domains hold no `\|` share no key. |
| `CookieLog.BarMakesAmbiguous` | proxy_relay/capture/collector.py:195-199 | A concrete run, with `\|` in a domain, whose log misses a cookie. |
| `CookieLog.RepeatedPollSilentExactly` | proxy_relay/capture/collector.py:195-199 | Polling the same cookies again logs nothing if and only if cookies under one key have one stored value. |
| `CookieLog.LogHidesSecrets` | proxy_relay/capture/collector.py:193-212 | Runs that differ only in httpOnly values of equal hash produce the same log and state: these values reach neither except through the hash. |
| `CookieLog.DuplicateFlickers` | proxy_relay/capture/collector.py:195-199 | Polled twice, two cookies of one name on different paths leave the log at the first one's value and the snapshot at the second one's: the log does not agree with the poll. |
| `RequestTimes.TableExactly` | proxy_relay/capture/collector.py:93-101 | With a monotonic clock, the table holds exactly the unanswered requests at most 300 seconds old at the latest request, each with its own latest time. |
| `Collector.CaptureCollector.EmitChanged` | proxy_relay/capture/collector.py:229-241 | The loop queues the specified events, in the order of the data. |
| `Collector.CaptureCollector.EmitRemoved` | proxy_relay/capture/collector.py:243-255 | The loop queues one removal for each previous key that is gone. |
| `Collector.CaptureCollector.OnStorage` | proxy_relay/capture/collector.py:216-257 | One call is one step of the run that the replay theorems are about. |
| `Collector.CaptureCollector.OnCookies` | proxy_relay/capture/collector.py:176-214 | One poll queues the specified rows, comparing with the previous poll only, and remembers the new one. |
| `Collector.CaptureCollector.OnRequest` | proxy_relay/capture/collector.py:93-101 | Enters the time and forgets what is over 300 seconds old: the step of `RequestTimes`. |
| `Collector.CaptureCollector.OnResponse` | proxy_relay/capture/collector.py:146-151 | Takes the request's time out of the table, giving the elapsed time if it was there. |
| `MonitorProtocol.WindowIsLastRecords` | proxy_relay/monitor.py:112-179 | In every run, callbacks interleaving as they may, the window is the last records made since it was last emptied, as many as fit. |
| `MonitorProtocol.ErrorCountAppend` | proxy_relay/monitor.py:177-192 | A record adds at most itself to the error count, whatever the full window drops for it. |
| `MonitorProtocol.StepKeepsBelowLimit` | proxy_relay/monitor.py:188-199 | Each step keeps the window below max(1, threshold) errors while no callback is in flight, except exactly the cancellation of the last one in flight over a window at that limit. |
| `MonitorProtocol.RunKeeps` | proxy_relay/monitor.py:123-199 | In every run rotations <= errors <= connections; without cancellations the window is below the limit whenever no callback is in flight. |
| `MonitorProtocol.CancellationLeavesErrors` | proxy_relay/monitor.py:299-309 | A run without overlapping records in which a cancelled rotation leaves the window at the limit with nothing in flight, and the rotations counted exceed what the errors pay for. |
| `MonitorProtocol.TotalsExactly` | proxy_relay/monitor.py:123-309 | In every run: successes and errors are counted as connections, errors as errors; a rotation is counted, and its callback started, exactly when an error reaches the threshold among the last records and no shutdown came before; the monitor is shut down iff that step occurred. |
| `MonitorProtocol.NoCallbackAfterShutdown` | proxy_relay/monitor.py:269-294 | Once a shutdown occurred in a run, however it goes on, no callback starts and no rotation is counted. |
| `MonitorProtocol.StepConserves` | proxy_relay/monitor.py:188-309 | A step that records nothing during a callback, cancellations and resets included, keeps the rotations that were not cancelled, times the limit, plus the window errors within the errors recorded. |
| `MonitorProtocol.SerialRunConserves` | proxy_relay/monitor.py:123-309 | In every run whose records do not overlap callbacks, cancellations included, each rotation that was not cancelled has used up a whole limit of errors. |
| `MonitorProtocol.UncancelledRunConserves` | proxy_relay/monitor.py:123-309 | Without cancellations that holds of all rotations. |
| `MonitorProtocol.AccountOfAllExactly` | proxy_relay/monitor.py:123-309 | For every configuration: it holds of all rotations in all runs without overlapping records if and only if monitoring is off, there is no callback, or the window has no room for a limit of errors. |
| `Monitor.ConnectionMonitor.WindowErrorCount` | proxy_relay/monitor.py:188-190 | The loop counts the window's errors. |
| `Monitor.ConnectionMonitor.RecordSuccess` | proxy_relay/monitor.py:130-140 | The protocol's step. |
| `Monitor.ConnectionMonitor.RecordError` | proxy_relay/monitor.py:167-199 | The protocol's step up to the await of the callback, which is reached iff the number in flight grows. |
| `Monitor.ConnectionMonitor.CallbackDone` | proxy_relay/monitor.py:299-309 | The protocol's step after the await: the window is cleared whether the callback returned or raised. |
| `Monitor.ConnectionMonitor.ResetAll` | proxy_relay/monitor.py:256-267 | The protocol's step. |
| `Monitor.ConnectionMonitor.Shutdown` | proxy_relay/monitor.py:269-277 | The protocol's step. |
| `Monitor.SampleOfSuccesses` | proxy_relay/monitor.py:212-216 | The sample holds one latency for each record that is no error, and those alone. |
| `Monitor.ConnectionMonitor.GetStats` | proxy_relay/monitor.py:205-236 | Over the window's successes: the p95 is a member with more than 95% of the sample at most it and at least 5% at least it; the average times the number is the sum and lies between minimum and maximum; 0 without successes. |
| `Statistics.SortSorts` | proxy_relay/monitor.py:222-222 | Sorting gives an ordered permutation. |
| `Statistics.CountsInSorted` | proxy_relay/monitor.py:222-225 | In an ordered sample, rank bounds how many elements are at most, and how many at least, a given one. |
| `Statistics.PercentileByRank` | proxy_relay/monitor.py:222-225 | The element at the program's index has the rank of a 95th percentile in every non-empty sample. |
| `Statistics.MedianByRank` | proxy_relay/capture/analyzer.py:748-748 | The element reported as median is in the sample, with at least half of it on either side. |
| `Statistics.MeanBetween` | proxy_relay/capture/analyzer.py:745-747 | First and last of the sorted sample are its extremes, and the mean lies between them. |
| `Statistics.Percentile95` | proxy_relay/capture/analyzer.py:749-750 | Computes an element of that rank. |
| `Behavior.WindowIsRange` | proxy_relay/capture/analyzer.py:758-768 | In ordered timestamps, those of any closed sixty-second window stand next to each other. |
| `Behavior.WindowAtMost` | proxy_relay/capture/analyzer.py:763-768 | No window, wherever it starts, holds more than the widest stretch between the two pointers. |
| `Behavior.PeakPerMinute` | proxy_relay/capture/analyzer.py:760-769 | The two-pointer scan gives the maximum, over all real start times, of the number of events in a closed window; left stays behind right and moves fewer than n times. |
| `Behavior.GapsOfSorted` | proxy_relay/capture/analyzer.py:737-741 | Of ordered timestamps no gap is dropped, and the gaps add up to the duration. |
| `Behavior.GapsAreDifferences` | proxy_relay/capture/analyzer.py:737-741 | Each gap is the difference of neighbouring timestamps, and never negative. |
| `Behavior.DescribeGaps` | proxy_relay/capture/analyzer.py:743-750 | The five reported values are minimum, maximum, mean, median and 95th percentile of the sample by rank. |
| `Behavior.RoundsToNearest` | proxy_relay/capture/analyzer.py:755-756 | Rounding gives the nearest whole number, the even one of two that are as near. |
| `Behavior.AnalyzeBehavior` | proxy_relay/capture/analyzer.py:732-771 | When which figures are reported, and that they describe the gaps, the two rates, rounded, and the peak. |
| `Relay.RunPipe` | proxy_relay/tunnel.py:162-193 | The read/write loop, for all outcomes of its awaits, writes, closes and ends as the step function says. |
| `Relay.StepKeepsInv` | proxy_relay/tunnel.py:174-222 | Every step of either pipe, of the transports and of the coordinator keeps: what was written, what is held between read and write and what is unread are together what the source sends; the writer is closed iff the loop was left; the coordinator is over only when both pipes are. |
| `Relay.RelaySafety` | proxy_relay/tunnel.py:140-222 | At every await of every schedule no byte is lost, repeated, reordered or sent the wrong way: what was written and what is unread are together what the other side sends; when the relay is over both writers are closed. |
| `Relay.EofDeliversExactly` | proxy_relay/tunnel.py:177-191 | In every schedule, a direction that ends by an end of stream has written everything its source sends if and only if no step had ended the opposite pipe's loop by then, or nothing was unread. |
| `Relay.EofAlwaysDeliversExactly` | proxy_relay/tunnel.py:174-193 | For any bytes of the two sides: all schedules in which a direction sees an end of stream deliver everything of it if and only if its source sends nothing. |
| `Relay.EofCanLoseBytes` | proxy_relay/tunnel.py:188-191 | A schedule in which both directions end by an end of stream, the relay returns True, and what the remote still sends is lost. |
| `Relay.OneDirectionDelivers` | proxy_relay/tunnel.py:174-222 | In every schedule without connection errors, as soon as a writer is closed at least one direction has written everything its source sends. |
| `Relay.NothingWrittenAfterWake` | proxy_relay/tunnel.py:198-212 | Once the first end is noticed, nothing more is written in either direction. |
| `RelayOutcome.EverythingCanBeDelivered` | proxy_relay/tunnel.py:174-222 | For any bytes of the two sides there is a schedule that relays all of them both ways, sees both ends of stream and returns True. |
| `RelayOutcome.EndingExactly` | proxy_relay/tunnel.py:175-193 | In every schedule a pipe ends with an unexpected exception if and only if one came from closing its writer, or one ended its loop and the closing was not cancelled. |
| `RelayOutcome.TrueExactly` | proxy_relay/tunnel.py:195-222 | In every schedule that is over, True is returned if and only if neither pipe ended with an unexpected exception. |
| `RelayOutcome.RaisesExactly` | proxy_relay/tunnel.py:199-222 | In every schedule that is over, an exception comes out if and only if the pipe that was still running when the first end was noticed ended with one. |
| `RelayOutcome.TrueMeansEndOfStream` | proxy_relay/tunnel.py:158-160 | Where True is returned and no loop was ended by a connection error, a side has reached its end of stream. |
| `RelayOutcome.ConnectionErrorReturnsTrue` | proxy_relay/tunnel.py:158-160 | A schedule in which True is returned although neither side reached its end of stream. |
| `RelayOutcome.ExceptionCanComeOut` | proxy_relay/tunnel.py:207-212 | A schedule in which an unexpected exception comes out instead of False. |
| `Reconnect.RunUntilStopped` | proxy_relay/capture/__init__.py:655-724 | At most the configured number of attempts, none once a stop is seen, the limit reported iff it was reached, and each delay that of the failures in a row before it. |
| `Reconnect.BackoffIsCappedPower` | proxy_relay/capture/__init__.py:714-721 | With a factor of at least 1, or a first backed-off delay within the cap, the delay after k failures is min(d * f^k, cap). |
| `Reconnect.CappedPowerExactly` | proxy_relay/capture/__init__.py:718-721 | Over all k, the delays are capped powers if and only if the factor is at least 1, the first backed-off delay is within the cap, or the cap is 0. |
| `Retention.DedupeLists` | proxy_relay/capture/__init__.py:504-508 | The listing holds each file once and the files of both patterns. |
| `Retention.SortByAgeSorts` | proxy_relay/capture/__init__.py:529-529 | The sort gives an ordered permutation that keeps the order of files of one age. |
| `Retention.EligibleExactly` | proxy_relay/capture/__init__.py:514-522 | A file counts if and only if it was listed, is no older than the age limit and no larger than the size limit. |
| `Retention.PurgeByLimits` | proxy_relay/capture/__init__.py:511-524 | The first pass splits the files into those counted, those left because of a failure and those deleted. |
| `Retention.DeleteOldest` | proxy_relay/capture/__init__.py:527-536 | The second pass keeps the newest, as many as the count or all if that is 0, and deletes, of the rest, exactly what can be unlinked. |
| `Retention.Purge` | proxy_relay/capture/__init__.py:503-536 | Every file is accounted for; files kept are within the limits and no more than the count; the files left on disk besides are as many as the operations that failed, so all of them are at most the count plus the failures; no file deleted by count is newer than one kept; without failures the newest of the files within the limits are left, exactly. |
| `Retention.SecondPurgeDeletesNothing` | proxy_relay/capture/__init__.py:563-585 | Purging what a purge has left, listed in any order, at the same clock, deletes nothing. |
| `Server.StepKeepsInv` | proxy_relay/server.py:537-577 | Every connection, close and rotation keeps: active is the number of handlers in progress, their numbers are at most the total, the total never decreases, status writes are five seconds apart. |
| `Server.AccountingHolds` | proxy_relay/server.py:537-577 | In every run all that holds, and the total is the number of clients that connected. |
| `Server.HandlerKeepsUpstream` | proxy_relay/server.py:543-550 | A connection keeps the upstream that was current when it was accepted, through all rotations, and no later one gets its number. |
| `Server.AdmittedWithCurrent` | proxy_relay/server.py:537-550 | In every run the next client is given the upstream of the last successful rotation, a number of its own, and is counted; without any upstream it is refused and nothing changes. |
| `Server.ClosingsAreReported` | proxy_relay/server.py:572-577 | When a connection ends the status is written, unless it was written less than five seconds before (or the clock has not reached five seconds). |
| `Server.ProxyServer.OnConnection` | proxy_relay/server.py:537-564 | The admission step, with the number and the upstream snapshot the handler is given; none without an upstream. |
| `Server.ProxyServer.OnConnectionClosed` | proxy_relay/server.py:565-577 | The closing step, with the debounced status write. |
| `Server.ProxyServer.DoRotate` | proxy_relay/server.py:292-305 | A successful rotation replaces the upstream for later connections; a failed one changes nothing. |
| `Server.HealthCheck` | proxy_relay/server.py:319-409 | For any number of retries, three by default: succeeds iff some attempt gives an address, with the first one, and rotates min(failed attempts, retries - 1) times. |

## Left out

- Sockets, SOCKS5, WebSocket framing, SQLite and the telemetry queue: a byte stream, a message source, a list of rows.
- Launching and supervising the browser, signals, PID and status files, the command line, configuration files, report text: input and output.
- Country, language and MIME tables, redaction lists, profile rules and remediation: table lookups and finite branches that would only add easy members.
- CONNECT targets, blocked domains and the local health endpoint: parsing without a law of its own.
- TargetUrl.TargetFree: `urllib.parse` is not part of the repository and is written out after Python 3.12; whether brackets hold a valid IPv6 address is not checked, so that the model parses more URLs than the library does.
- Relaying the response and its size limit: it copies bytes through.
- Text: `lower` and `upper` act on ASCII letters only, so a non-ASCII Latin-1 letter in a method, which Python upper-cases (sometimes out of Latin-1), is not modelled. Strings are sequences of Unicode scalar values, so lone surrogates, on which `encode` raises, are not modelled.
- ChunkedCodec.AcceptedExactly: speaks of decoding without a negative chunk size, which `int(text, 16)` also reads; the theorems of `ChunkedCuts` cover the streams with one.
- ChunkedCuts.RunsAgreeExactly: the number of bytes read already is any number up to the length of the stream, of which `_read_request` leaves fewer than 4096; that every list of cuts which `RunCuts` allows is met by some run of the loop is not proved, only that no other is.
- ChunkedStandard.StandardExactly: extensions and trailers are any text without a line break, and space in front of an extension does not count as plain.
- Reconnect.RunUntilStopped: an entry of `turns` says where a stop request first shows and whether a reconnect succeeds; that a lost connection is ever noticed is not claimed, because after a failed reconnect there may be no receive task to wait for.
- Relay.RelaySafety: the task of `relay_data` itself is not cancelled from outside; what is written is what was handed to the writer, which a broken connection may not deliver.
- Retention.Purge: the time stamps (in whole seconds) and sizes of a file do not change during a purge; equal listing entries are one file.
- Collector.CaptureCollector.EmitChanged: the size limit of the collector is at least 0; with a negative one a call can fail half way.
- MonitorProtocol.RunKeeps: the monitor's time stamps, targets and messages, and the log lines about slow connections, are not modelled.
- CdpProtocol.IssuedIdsPartitioned: a response that carries an error counts as an answer; ids in responses are integers; subscribers' callbacks do not touch the table.
- CookieLog.PollAgreesExactly: the hash is any function; that SHA-256 has no collisions is not used, and a changed httpOnly value of equal hash is no change.
- RequestTimes.TableExactly: events are those of captured domains.
- Clocks, latencies and delays are real numbers, without binary rounding, and `int(n * 0.95)` is 19n/20 rounded down.
