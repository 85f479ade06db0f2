# resh: verified model

resh is an event-loop server that speaks HTTP, WebSocket and RESP on one port, with a RESP client
beside it. This project models its hard parts in Dafny and proves what they are for: incremental
parsing does not depend on how the bytes were cut, state changed in place agrees with a plain
mathematical view, and the concurrent parts keep their promises in every interleaving.
`dafny verify dfyconfig.toml` checks everything.

| module | what it models |
|---|---|
| `Bytes` | byte strings, searches and number texts, as Go's `bytes` and `strconv` define them |
| `Numbers` | what number texts mean: positional value, signs, ranges, hexadecimal digits |
| `LockQueue` | the lock-free wake-up queue, one memory access per step, nodes recycled through a pool |
| `LockQueueCalls` | the calls of that queue from start to return: no value and no node is lost |
| `Unescape` | in-place percent-decoding and the query walk |
| `HttpHeader` | the HTTP head parser, which rewrites the received bytes |
| `ReadState` | the resumable server parser for RESP commands and HTTP requests |
| `Command` | the client's command encoder, and its round trip through the server parser |
| `CommandGrammar` | which texts the server takes for commands, and the errors of the others |
| `HttpRequest` | HTTP requests as a client writes them, and their round trip through the server parser |
| `HttpLookup` | looking headers up in a parsed request |
| `Waiting` | a parser that waits can always be satisfied |
| `Requests` | the server's read events outside WebSocket mode: buffer, parser and handlers |
| `Resp` | the reply measurer, the `Reader` cursor and the server's reply writers |
| `RespGrammar` | which texts the client takes for replies, what they mean, and the errors of the others |
| `ReplyLoop` | the client's reply loop with its AUTH states |
| `WsFrame` | WebSocket frames: in-place parsing, writing, and the decoder of RFC 6455 |
| `WsListener` | the server's read events in WebSocket mode: frames, fragments, messages |
| `WsEnding` | frames that end a WebSocket connection, and the pongs the peer reads |
| `ChunkedWriter` | the chunked response writer and the chunked decoder of RFC 9112 |
| `Upgrade` | a connection that turns from HTTP to WebSocket |
| `EndToEnd` | the client and the server together |
| `ConnTable` | the connection table: linked list, map, counter, closed flags and timeout sweep |
| `ConnHistory` | that table told from the events alone |
| `OutputFlow` | one connection's output between concurrent writers and the event loop |

Operations that the source performs by changing things are classes and methods with loops, proved
equal to a function of the old state; the properties are lemmas about those functions. Machine
integers are written out where they matter: 32- and 16-bit truncation is `U32` and `U16`, and a Go
run-time panic is a `Crash` outcome. The parsers are modelled for every input. The round trips
bound what is sent: a command has at most 65535 arguments and, like any request, takes less than
2^32 bytes, and a WebSocket payload less than 2^63 - 14, so that its frame has a length.

Three promises do not hold of the code, and the exact conditions are proved instead.

- *An open connection with pending output is never forgotten.* It can be: a read that says EAGAIN
  calls `ModRead` (server.go:310-311) and so drops the write interest a short write had armed, and a
  WebSocket handler that appends without flushing while half a frame is left over leaves `readConn`
  before its final `writeConn` (server.go:336-338, 352-355). `FlushCanBeLost` and
  `UnflushedReplyCanBeLost` are such runs;
  `FlushesLostOnlyByStranding` says that these are the only ways, over all runs.
- *Requests that have arrived are handled.* A read event hands over one request only
  (server.go:356-378), so of two that arrive together the second waits for more bytes:
  `SecondRequestWaits`, and so does a command behind the client's AUTH: `CommandAfterAuthWaits`.
  `AllHandledIff` says when all are handled, by lengths alone: no suffix of the
  events may complete more requests than it has events.
- *What the server takes for a command is a command.* A negative length is not refused
  (state.go:54-61), and when the bytes before the place it points from happen to end in CR LF an
  argument outside the command is recorded: `NegativeAccepted`. `CommandGrammar.AcceptedIff` says
  that an accepted text is a command with the arguments recorded if and only if its count is not
  negative and every recorded argument lies inside it. The client's measurer has no such gap:
  `RespGrammar.AcceptedIff` is unconditional.

## Model

| member | source | states |
|---|---|---|
| `Bytes.FindCrLf` | util.go:30 | the first CR LF from an index on, and that there is none before it, or that there is none at all |
| `Bytes.FindBlankLine` | state.go:71 | the first CR LF CR LF, and that there is none before it |
| `Bytes.ParseDecimal` | util.go:34 | every 64-bit number, printed and parsed, is itself |
| `Bytes.NumberLineRead` | util.go:23-39 | a RESP head line is found and its number read back whatever bytes follow |
| `Numbers.ParseIntIff` | util.go:34 | a text is read as a number if and only if it is an optional sign and digits whose positional value is that number, within 64 bits |
| `Numbers.ParseIntRange` | util.go:34 | digits that denote more than 64 bits hold give the nearest number that fits, and an error |
| `Numbers.ScanIsValue` | util.go:34 | scanning digits gives the sum of digits times powers of ten, or says that it is too big |
| `Numbers.DecimalDenotes` | redis/client.go:139 | a number is printed by the digits that denote it, with no leading zero |
| `Numbers.DecimalIntDenotes` | redis/client.go:139 | the same with a minus sign exactly before negative numbers |
| `Numbers.HexDigitIff` | util.go:47 | a hexadecimal digit is one of sixteen characters in either case, with the value of its place |
| `LockQueue.InvStep` | internal/lockqueue.go:24-49 | every step of every adder and of the consumer keeps the ownership, list, preparation and balance invariant |
| `LockQueue.ReachableInv` | internal/lockqueue.go:24-49 | that invariant holds in every state of every interleaving, with recycled nodes and stale roots |
| `LockQueue.ExactlyOnce` | internal/lockqueue.go:24-49 | if no visitor fails, the values whose CAS succeeded are, as a bag, those delivered plus those still waiting: nothing is lost, doubled or invented |
| `LockQueue.BatchesReversePushOrder` | internal/lockqueue.go:38-49 | with the queue drained, reading the batches in turn, each backwards, gives the values in CAS order |
| `LockQueue.SwapTakesRootList` | internal/lockqueue.go:39 | a swap takes exactly what was pushed since the last one, newest first |
| `LockQueue.RootListOwned` | internal/lockqueue.go:28-46 | the list at root is acyclic and shares no node with the detached chain, the pool or any adder's private node; private nodes are pairwise different |
| `LockQueue.CasFailsOnlyAfterChange` | internal/lockqueue.go:28-35 | a failing CAS means an Add or Swap succeeded since the load; an adder that got back the node it loaded always fails; the node goes to the pool and the call starts again with the same value |
| `LockQueue.ErrorDropsRest` | internal/lockqueue.go:43-45 | in any reachable state the visitor may fail at its call, and then drops exactly the values of the rest of the detached list, no others being possible |
| `LockQueue.NeverDangling` | internal/lockqueue.go:30-41 | a node about to be written or copied always exists |
| `LockQueueCalls.CallsKept` | internal/lockqueue.go:24-36 | in every interleaving every value has been given to `Add` as often as it has been pushed and is held by calls that have not returned: a failed CAS loses nothing |
| `LockQueueCalls.AddedIsDelivered` | internal/lockqueue.go:24-49 | from call to callback: with all calls returned and no failing visitor, every value has been given to `Add` as often as it has been delivered or waits |
| `LockQueueCalls.SoloAdd` | internal/lockqueue.go:24-36 | from any reachable state an undisturbed `Add`, with a recycled or a new node, pushes its value in front of the old root and returns |
| `LockQueueCalls.SoloDrain` | internal/lockqueue.go:38-49 | from any reachable state an undisturbed `SwapOutForEach` ends, shows the visitor all that was pushed and not yet delivered, newest first, and leaves the queue empty |
| `LockQueueCalls.NoNodeLeaked` | internal/lockqueue.go:24-49 | while no visitor fails and the pool drops nothing, every node ever allocated is in the root list, the running batch, the pool or private to an adder |
| `Unescape.UnescapeTurn` | util.go:43-60 | one turn writes one byte of the result and leaves the unread input original |
| `Unescape.UnescapeInplace` | util.go:41-62 | the slice ends with the decoded bytes, stale bytes of broken escapes included, and nothing beyond them changes |
| `Unescape.WrittenIsDecoded` | util.go:41-62 | from any read and write index, what the loop still writes is the decoding of what it has not read |
| `Unescape.UnescapedIsDecoded` | util.go:41-62 | on well-formed input the in-place loop computes the decoding of section 2.1 of RFC 3986 |
| `Unescape.BrokenEscape` | util.go:45-49 | on malformed input the loop is not a decoding: a broken escape leaves the byte that stands at the write index |
| `Unescape.CutEscape` | util.go:45-49 | an escape cut off by the end is left as it is |
| `Unescape.DecodeQueryEscape` | http.go:120 | query escaping is undone by decoding, for every byte string |
| `Unescape.PairsRoundTrip` | http.go:119-121 | every pair list, escaped as `URL` does or joined without the final ampersand, is walked back pair by pair in order |
| `Unescape.PairsDecoded` | http.go:155-165 | on every well-formed query, however it is spelled, the walk finds the pairs of the form |
| `Unescape.UnescapePair` | http.go:162-163 | splitting and decoding both sides in place gives the pair and changes nothing outside it |
| `Unescape.NextPair` | http.go:159-164 | one turn yields the first pair of the query and leaves the rest of the query as it was |
| `Unescape.ForeachQuery` | http.go:155-165 | the callback gets the pairs of the query in order; bytes outside the query are untouched |
| `HttpHeader.LowerInplace` | http.go:85-93 | a header name is lower-cased in place, nothing else changes |
| `HttpHeader.ParseFirstLine` | http.go:60-79 | the request line as rewritten and recorded, accepted or not: target between first and last space, query range, decoded path |
| `HttpHeader.ParseHeaderLine` | http.go:81-106 | a header line as rewritten and recorded, accepted or not |
| `HttpHeader.NextLine` | http.go:52-109 | handling one line in the middle of the bytes continues the parse of the whole head, or is its rejection |
| `HttpHeader.Parse` | http.go:50-111 | the in-place parser leaves and records what the line-by-line specification says, for rejected heads too, and touches nothing after the head |
| `HttpHeader.LengthKept` | http.go:51 | no line changes the recorded head length |
| `ReadState.ReadHead` | util.go:23-39 | a number head takes at least four bytes, within the input, and fits 64 bits |
| `ReadState.HeadExtend` | util.go:23-39 | an answer other than "wait" does not change when bytes are appended |
| `ReadState.BulksResume` | state.go:45-69 | the argument loop, stopped for lack of bytes, resumes as if it had had them all |
| `ReadState.HttpLinesResume` | state.go:70-92 | the same for an HTTP head and body, across the rewriting of the head |
| `ReadState.Resume` | state.go:24-97 | a waiting call is continued by the next one as if all bytes had come at once; a settled one is not changed by bytes that follow |
| `ReadState.ChunkingIsInvisible` | state.go:24-97 | every chunking of every stream ends in the state, verdict and bytes of one call on the whole stream |
| `ReadState.SettledForGood` | state.go:24-97 | a request or error, once reached, stays whatever follows |
| `ReadState.ServerReadState.Process` | state.go:24-97 | the object's stage, request and buffer after a call, failed or not, are those of the specification |
| `ReadState.ServerReadState.ReadBulks` | state.go:45-69 | the argument loop computes the argument ranges of the specification |
| `ReadState.ServerReadState.ReadHttp` | state.go:70-83 | the head is found and parsed in place as specified |
| `ReadState.ServerReadState.ReadBody` | state.go:85-92 | the body is awaited and cut as specified |
| `Command.AppendCommand` | redis/client.go:137-161 | the encoding loop appends exactly the encoding of the arguments' texts, integers in decimal |
| `Command.PrefaceIsCommand` | redis/client.go:228-235 | the hand-written AUTH preface is the command `AUTH password` |
| `Command.ServerReadsCommand` | state.go:27-69 | one parser call on an encoded command, with anything after it, yields its arguments |
| `Command.CommandRoundTrip` | redis/client.go:138-160 | any list of at most 65535 byte strings arrives argument for argument in any chunking, with `Len`, `Get` and `read` exact |
| `Command.GetWithinLen` | redis.go:15-25 | `Get` is nil if and only if the index is not below `Len` |
| `CommandGrammar.SpelledAccepted` | state.go:27-69 | every command text, its number fields spelled with signs and leading zeros or not, is accepted whatever follows, and `Get` gives its arguments |
| `CommandGrammar.AcceptedSpelled` | state.go:27-69 | the text of an accepted command whose count and lengths are not negative: a count line and that many bulk strings, each ended by CR LF |
| `CommandGrammar.AcceptedIff` | state.go:27-69 | an accepted text is such a command, with the arguments recorded, if and only if its count is not negative and every recorded argument lies inside it |
| `CommandGrammar.NegativeAccepted` | state.go:47-65 | a negative length that is accepted, and the argument then recorded |
| `CommandGrammar.FarNegativePanics` | state.go:57-61 | a length that points before the buffer is a panic |
| `CommandGrammar.FirstFaultDecides` | state.go:45-65 | after any proper arguments short of the count, the first bad head, number, length or tail decides the error |
| `CommandGrammar.FaultyCount` | state.go:27-38 | a count that is no number, or is over 65535, is refused with its own error |
| `Waiting.NeverInVain` | state.go:24-97 | whatever the server parser has been given, if it asks for more, some further bytes make it decide |
| `HttpRequest.BlankLineEnds` | state.go:71 | the blank line the parser looks for is the one after the last header |
| `HttpRequest.NamedIffLower` | http.go:85-93 | lower-casing a name gives a word if and only if the name is that word letter for letter, each in either case |
| `HttpRequest.KnownNames` | http.go:94-105 | the names the parser knows are upgrade, host and content-length, and no others are taken for them |
| `HttpRequest.MalformedRefused` | http.go:60-84 | a head with a first line of fewer than two spaces, or any header line without a name, is refused whatever else it says |
| `HttpRequest.RequestLineRead` | http.go:60-79 | a request line with any target is rejected if and only if it is too long or its decoded target is neither a path nor a URL; otherwise the decoded path and the range of the query, or none without a question mark |
| `HttpRequest.HeadersRead` | http.go:81-106 | a header block is rejected if and only if some header spelled content-length, in any case, is not a number within the limit; otherwise the last host, length and upgrade header counts, in any spelling of their names |
| `HttpRequest.HeadRead` | http.go:50-111 | a head is rejected if and only if its request line or a Content-Length is; otherwise what it records and the bytes it leaves |
| `HttpRequest.ServerReadsRequest` | state.go:70-92 | one parser call on a request with any target, with anything after it: rejected exactly for a bad request line or Content-Length, otherwise method, decoded path, query bytes, host, upgrade and body are the client's |
| `HttpRequest.RequestRoundTrip` | http.go:46-111 | the same in every chunking |
| `HttpRequest.SpelledRequest` | http.go:66-72 | in any spelling, the path the target percent-decodes to and the pairs its query means as a form are the ones the handler gets |
| `HttpRequest.EverythingSpelled` | http.go:113-123 | every path and pair list has such spellings: escaped, with the final ampersand, without it, or without a query |
| `HttpRequest.BadHeadRefused` | state.go:71-78 | a rejected head is rejected as soon as it is whole and not before |
| `HttpLookup.GetHeader` | http.go:125-153 | the scan with its callback computes `Lookup` |
| `HttpLookup.LinesLooked` | http.go:125-142 | the scan goes through the lines of a text in order, an empty one ending it, then on to what follows |
| `HttpLookup.HeaderFound` | http.go:125-153 | in any arrived request a lower-case name finds the first header spelled so in any case; lines that decoding the path has broken off come before the headers; the body is never taken for one |
| `Requests.Conn.Parse` | server.go:332 | the parser runs over the buffer and may rewrite it, as specified |
| `Requests.Conn.ReadConn` | server.go:297-378 | one read event outside WebSocket mode changes buffer, parser, status and handled requests as specified |
| `Requests.PrefixWaits` | server.go:336-338 | no strict beginning of a request is taken for a request or an error |
| `Requests.EventWaits` | server.go:318-338 | an event that leaves the request incomplete hands nothing over |
| `Requests.EventHandles` | server.go:356-373 | an event that completes it hands over exactly that request and keeps the bytes after it |
| `Requests.HandledInOrder` | server.go:318-378 | for every stream of requests, whatever follows it, and every cutting into events, handlers get a front part of it, whole, in order, once each, exactly as many as are due when the connection stops or the events end; why it stopped; and the rest is in the buffer while it is open |
| `Requests.MessagesInOrder` | server.go:356-378 | the same for RESP commands and HTTP requests mixed on one connection, down to arguments, methods, paths, pairs and bodies; open at the end if and only if every read fits and every handler wants more |
| `Requests.SecondRequestWaits` | server.go:373-378 | of two requests that arrive together only the first is handled |
| `Requests.AllHandledIff` | server.go:356-378 | with reads that fit and handlers that want more, all requests that have arrived whole are handled if and only if no suffix of the events completes more requests than it has events |
| `Requests.DueAtMost` | server.go:356-378 | from any earlier point on, at most one request per event is handled |
| `Requests.OpenIff` | server.go:321-378 | the connection is open after a run if and only if every read brought bytes and fitted the buffer and every handler called wanted more |
| `Requests.FitsStaysOpen` | server.go:321-324 | a stream within the buffer limit whose handlers want more ends with the connection open |
| `Requests.BadRejected` | server.go:340-343 | the event that completes a bad request closes the connection and hands over nothing |
| `Requests.BadHeadRefuses` | state.go:70-78 | an HTTP head that is not acceptable is such a bad request |
| `Requests.GoodThenBad` | server.go:318-378 | good requests followed by a bad one: a front part of the good ones is handled in order, the bad one never; it is rejected exactly when it is due after all of them |
| `Requests.JustAfter` | server.go:345-373 | the event that completes a given request leaves exactly the bytes after it in the buffer |
| `Upgrade.Conn.ReadConn` | server.go:325-373 | one read event in either mode, with a handler that may turn the connection into a WebSocket |
| `Upgrade.BecomesSocket` | http.go:314-318 | once the upgrade request is handled the socket's input is exactly what came after it |
| `Upgrade.NotUnasked` | http.go:314-317 | a connection whose client has not asked for an upgrade stays a plain one, whatever its handler does |
| `Upgrade.FramesAfterUpgrade` | server.go:345-373 | from the upgrade on, frames in any chunks, even sent together with the request, deliver the peer's messages in order, once each, if and only if every read finds room; without a further read they wait |
| `EndToEnd.ServesAll` | server.go:318-378 | a server at rest that keeps up handles every message and is at rest again |
| `EndToEnd.SessionAnswered` | redis/client.go:132-162 | a whole session in any chunks both ways: the server's handlers get the client's commands in order, once each, AUTH first with a password, and each callback runs once and reads the value written for its own command |
| `EndToEnd.CommandAfterAuthWaits` | redis/client.go:228-236 | when AUTH and the first command arrive in one read, only AUTH is handled and the command waits in the buffer |
| `Resp.Element` | redis/parser.go:14-63 | an accepted element takes between 3 bytes and the whole input |
| `Resp.ReadElement` | redis/parser.go:14-63 | the measuring method with its loop computes `Element` |
| `Resp.ReadElements` | redis/parser.go:50-56 | the loop over an array's elements computes their total length |
| `Resp.ElementExtend` | redis/parser.go:14-63 | success and hard errors both persist when bytes are appended |
| `Resp.StrictPrefixWaits` | redis/parser.go:14-63 | every strict prefix of an accepted element, at any nesting, asks for more |
| `Resp.EncodedMeasured` | redis/parser.go:14-63 | every nested value is measured at exactly its encoded length, whatever follows |
| `Resp.Reader.ReadNext` | redis/parser.go:122-163 | on an accepted buffer the cursor returns the element's item and consumes exactly the measured bytes, never reaching the panic |
| `Resp.Reader.Array` | redis/parser.go:117-120 | an array yields a reader of its own with exactly its elements, anything else none |
| `Resp.Reader.Error` | redis/parser.go:88-96 | an error reply is returned and consumed, any other is left in place |
| `Resp.ElementCut` | redis/parser.go:14-63 | an accepted element cut off at its end is accepted at the same length |
| `Resp.SubReaderExact` | redis/parser.go:150-160 | an array's sub-reader holds exactly its count of elements, none if negative, each accepted in turn |
| `Resp.AcceptedWalkable` | redis/parser.go:122-163 | whatever the measurer accepts can be walked to the end, sub-readers included |
| `Resp.WalkEncoded` | redis/parser.go:73-86 | a walk over an encoded value shows its contents in order, null as an empty string |
| `RespGrammar.AcceptedIff` | redis/parser.go:14-63 | the measurer says `n` if and only if the first `n` bytes are one reply: a line, a null, a bulk string of its stated length ended by CR LF, or an array of its stated count of replies |
| `RespGrammar.SpelledMeasured` | redis/parser.go:14-63 | every reply, however its number fields are spelled, is measured at its own length whatever follows |
| `RespGrammar.AcceptedSpelled` | redis/parser.go:14-63 | whatever is accepted is such a reply |
| `RespGrammar.AcceptedMeans` | redis/parser.go:73-163 | and what the cursor shows of it is what the text means |
| `RespGrammar.FaultRefused` | redis/parser.go:14-63 | a wrong first byte, number, length or ending is refused with its own error |
| `RespGrammar.FirstFaultDecides` | redis/parser.go:14-63 | in an array, after any proper items, the first fault decides the error |
| `RespGrammar.NeverInVain` | redis/parser.go:14-63 | whatever the client is waiting on, some further bytes make it decide |
| `Resp.Writer.WriteError` | redis.go:48-55 | appends the encoding of an error |
| `Resp.Writer.WriteSimpleString` | redis.go:57-64 | appends the encoding of a simple string |
| `Resp.Writer.WriteBulkString` | redis.go:70-79 | appends the encoding of a bulk string |
| `Resp.Writer.WriteArrayBegin` | redis.go:81-88 | begins an array that any `n` items written next complete |
| `ReplyLoop.Conn.constructor` | redis/client.go:224-235 | a fresh connection awaits AUTH's reply exactly when a password is set |
| `ReplyLoop.Conn.Loop` | redis/client.go:342-359 | the loop drains complete elements, makes the calls of the specification, and ends |
| `ReplyLoop.Conn.ReadConn` | redis/client.go:318-375 | one read event changes the connection as specified |
| `ReplyLoop.DrainTwice` | redis/client.go:342-359 | draining in two goes is draining at once |
| `ReplyLoop.AnsweredOnce` | redis/client.go:336-375 | in any chunking, one call with the command's own reply, AUTH's reply skipped, then idle with no input left; never oversize within the limit |
| `ReplyLoop.NotBefore` | redis/client.go:342-375 | before the last chunk there is no call and the connection is not given back |
| `ReplyLoop.SessionCallsOnce` | redis/client.go:228-236 | over a whole session: one call per command, in order, each with its own reply |
| `ReplyLoop.FreshSession` | redis/client.go:224-236 | a fresh connection makes one call per command and skips exactly the first reply when there is a password |
| `ReplyLoop.FitsNeverOversize` | redis/client.go:337-340 | answers within the limit never end in the oversize error |
| `ReplyLoop.WrittenReplyIsRead` | redis/client.go:354-356 | whatever value the server writes, the callback runs once and reads that value |
| `ReplyLoop.NeverSilent` | redis/client.go:318-375 | whatever bytes come, well formed or not, a connection that is no longer busy has called its callback, and one that broke has told it so last |
| `ReplyLoop.MalformedBreaks` | redis/client.go:347-350 | a malformed reply breaks the connection with one call that says so |
| `ReplyLoop.InactiveIgnores` | redis/client.go:331-334 | bytes that come for no command change nothing |
| `WsFrame.FindExtent` | ws.go:57-92 | the length switch computes where the payload lies |
| `WsFrame.XorIsExclusive` | ws.go:96 | a bit of the exclusive or is set if and only if the two bytes differ there |
| `WsFrame.MaskedBitwise` | ws.go:95-97 | every bit of payload byte `i` is combined with that bit of key byte `i` modulo 4 |
| `WsFrame.BigEndianFirst` | ws.go:69-89 | in a length field the first byte weighs most |
| `WsFrame.HugeLengthPanics` | ws.go:79-92 | a length whose end does not fit 63 bits is a panic |
| `WsFrame.Unmask` | ws.go:95-97 | exactly the payload is exclusive-ored with the repeated key, bit by bit as `MaskedBitwise` says |
| `WsFrame.ParseInplace` | ws.go:56-101 | a frame is reported and its payload unmasked in place; nothing changes when more bytes are needed |
| `WsFrame.DecodeEncode` | ws.go:56-92 | the decoder of section 5.2 of RFC 6455 undoes the encoding in every length form, whatever follows |
| `WsFrame.ParseClientFrame` | ws.go:56-101 | for every masked frame and length form, opcode, fin, payload and length are recovered and no byte outside the payload changes |
| `WsFrame.ParseExtend` | ws.go:56-101 | a frame once parsed is the same whatever follows |
| `WsFrame.PartOfFrameWaits` | ws.go:57-89 | every strict prefix of a client frame asks for more |
| `WsFrame.Write` | ws.go:111-123 | the bytes appended are the unmasked final frame of that payload |
| `WsFrame.WriteDecodes` | ws.go:111-123 | a peer reads one write, whatever follows, as a final, unmasked frame of its type without reserved bits and with its payload |
| `WsFrame.WriteLayout` | ws.go:113-122 | the bytes themselves: final bit and type, no mask bit, the length form, the payload last |
| `WsFrame.WriteIsShortest` | ws.go:114-121 | no length form gives a shorter frame |
| `WsFrame.WritesDecodeUniquely` | ws.go:111-125 | any sequence of writes is read back message for message, each a final, unmasked frame of its own type and payload |
| `WsListener.Conn.OnWebsocket` | ws.go:23-54 | one frame changes the connection as specified: continuation, close, ping, pong, data |
| `WsListener.Conn.NextFrame` | server.go:345-347 | the first frame is parsed in place and dropped from the input |
| `WsListener.Conn.ReadConn` | server.go:318-355 | one read event handles the frames it completes, and the parse-next loop ends |
| `WsListener.ParseNextFrames` | server.go:318-355 | the loop handles exactly the frames the input completes, in order, and keeps less than a frame |
| `WsListener.ReadAllFrames` | server.go:297-355 | the same over any chunks; the buffer overruns only when some read leaves it no room, and then the frames before it were handled |
| `WsListener.FramesInOrder` | server.go:318-355 | in any chunking the handler sees exactly the client's frames, in order, unless a read leaves the buffer no room |
| `WsListener.FragmentedHandled` | ws.go:25-38 | a fragmented message, pings and pongs in between, is delivered once as its concatenation |
| `WsListener.MessagesDelivered` | ws.go:23-54 | any conforming sequence (section 5.4 of RFC 6455) in any chunking delivers its messages in order, once each, and answers its pings, if and only if every read finds room in the buffer |
| `WsListener.BoundedIsRoomy` | server.go:320-324 | frames and chunks that fit the buffer together, less one byte, always find room, however long the session |
| `WsEnding.ClosesAtEnding` | ws.go:23-54 | a conforming sequence, then a close frame, a stray continuation or a message over the limit, then any frames: in any chunking with room the sequence is delivered and answered, the connection closes for that reason, with the peer's closing data, and nothing after it is handled |
| `WsEnding.ClosingIgnores` | server.go:326-327 | once the server has sent its close frame nothing the peer sends is handled |
| `WsEnding.PongsRead` | ws.go:43-44 | the peer reads the answers to its pings as pongs, one each, in order, with its own payloads |
| `ChunkedWriter.HTTP.Write` | http.go:272-289 | a write coalesces or sends as specified and reports its length |
| `ChunkedWriter.HTTP.WriteChunked` | http.go:291-299 | one chunk is appended, with a flush at 16 KiB |
| `ChunkedWriter.HTTP.FinishChunked` | http.go:301-312 | what is buffered and the last chunk go out, and chunked mode ends |
| `ChunkedWriter.DecodeChunks` | http.go:291-299 | the decoder of section 7.1 of RFC 9112 reads back any nonempty chunks and the last one |
| `ChunkedWriter.WritesEmit` | http.go:272-289 | between calls, decoded output followed by `chkbuf` is all that was written, and `chkbuf` is shorter than 64 |
| `ChunkedWriter.FinishEmits` | http.go:301-312 | finishing sends what is buffered, then the one zero-size chunk |
| `ChunkedWriter.BodyDecodes` | http.go:257-312 | the emitted body decodes to the concatenation of the writes, with no zero-size chunk before the last |
| `ChunkedWriter.WriteGoesOutIff` | http.go:272-289 | a write sends everything held so far as one chunk exactly when it is long enough, and otherwise holds it and flushes nothing |
| `ChunkedWriter.SentFlushesIff` | http.go:291-299 | a chunk asks for a flush if and only if it brings the pending output of an open connection to 16 KiB |
| `ChunkedWriter.FinishFlushes` | http.go:301-312 | finishing asks for a flush on every open connection |
| `ChunkedWriter.StartedAfterBlankLine` | http.go:257-261 | the body starts after a blank line, in chunked mode |
| `ConnTable.Listener.constructor` | server.go:50-53 | two sentinels, nothing between them |
| `ConnTable.Listener.AttachConn` | server.go:205-213 | the connection comes first in a list that is still well linked, stamped with the time |
| `ConnTable.Listener.Detach` | conn.go:93-97 | the connection leaves a list that is still well linked, its own links untouched |
| `ConnTable.Listener.CloseConn` | server.go:215-226 | an open connection leaves list, map and counter once; a closed one changes nothing |
| `ConnTable.Listener.SweepExpired` | server.go:192-200 | the walk through `prev` over nodes it has just detached closes a tail of the list, as specified, and closes nothing else |
| `ConnTable.Listener.OnAccept` | server.go:150-164 | an accept keeps list, map, counter and flags in agreement |
| `ConnTable.Listener.OnActive` | server.go:170-190 | an event does, whichever of its handlers close the connection; for an unknown descriptor nothing happens |
| `ConnTable.Listener.Serve` | server.go:135-202 | after any run of events they agree, and the table is that of the specification |
| `ConnTable.SweepExact` | server.go:193-199 | on an ordered list stopping at the first connection in time closes exactly the expired ones |
| `ConnTable.StepKeeps` | server.go:135-202 | a step keeps descriptors distinct, and under a clock that does not go back, the order |
| `ConnTable.RunKeepsOrder` | server.go:192-213 | after any run the list is ordered from newest to oldest |
| `ConnTable.RunSweepsExactly` | server.go:192-200 | at any point of any run the sweep closes exactly the connections inactive for longer than the timeout |
| `ConnHistory.StepMember` | server.go:150-213 | what one event does to one connection: activity stamps it, a closing handler removes it, the sweep removes it exactly when it is quiet for too long |
| `ConnHistory.TableIsHistory` | server.go:150-213 | after any run a connection is in the table if and only if the events leave it open, stamped with its last activity |
| `ConnHistory.TimedOutExactly` | server.go:192-213 | a connection is in the table, stamped `ts`, if and only if `ts` is the time of its last event, that event left it open, and no sweep since found it quiet for longer than the timeout |
| `OutputFlow.ExclusiveStep` | conn.go:34-42 | the lock has one holder and no append or write works on a stale buffer |
| `OutputFlow.OutputConserved` | conn.go:48-68 | in every interleaving, with any partial and EAGAIN results, bytes taken by the kernel followed by the unsent buffer are all bytes appended, in order |
| `OutputFlow.StepLosesOnlyByStranding` | server.go:248-295 | a step keeps pending output covered if and only if it is not one of the two stranding steps |
| `OutputFlow.FlushesLostOnlyByStranding` | server.go:248-295 | no state of a run has forgotten output if and only if no step of the run strands it |
| `OutputFlow.QuietReadsLoseNothing` | server.go:309-313 | runs without an EAGAIN read and without a half frame left behind never forget output |
| `OutputFlow.FlushCanBeLost` | server.go:310-311 | a concrete run after which output is pending with nothing to send it |
| `OutputFlow.UnflushedReplyCanBeLost` | server.go:336-338 | the same for a WebSocket handler that leaves half a frame behind |
| `OutputFlow.WriteAlone` | server.go:248-295 | an undisturbed `writeConn`, for each result of the system call: what is sent, kept, armed and closed |
| `OutputFlow.CoveredIsSent` | server.go:248-295 | from rest, write interest or a queued descriptor leads in one poller step to a write that can send all that is pending |
| `OutputFlow.TailIsSent` | server.go:375-377 | output a handler leaves behind is written before the loop turns elsewhere |
| `OutputFlow.ClosedForGood` | server.go:215-226 | over runs, a closed connection stays closed and, with the loop elsewhere, sends nothing more |
| `OutputFlow.ClosedIff` | server.go:215-226 | the steps that close a connection, and that nothing opens it again |
| `OutputFlow.ArmedIff` | server.go:252-293 | write interest is armed exactly by a write that left output behind, and dropped exactly by one that left none and by an EAGAIN read |
| `OutputFlow.QueuedIff` | conn.go:70-75 | a flush enters the trigger queue if and only if the connection is open |
| `OutputFlow.WriteChecksClosed` | conn.go:48-51 | `Write` appends nothing to a closed connection |

## Left out

- Sockets, epoll, kqueue, eventfd and OpenSSL: what a read, write or accept returns is an arbitrary input; the kernel is taken to hand out only descriptors that are not open.
- `url.Parse`, `bytes.TrimSpace` and `strings.EqualFold` are arbitrary functions given to the head parser; SHA-1, base64 and the query map are not modelled.
- The head `resp0` writes is a parameter of `StartChunked`; plain responses (`respFull`) would add only an easy member.
- MessagesInOrder: HTTP methods starting with an asterisk are excluded because the server takes them for RESP.
- Upgrade: the answer to the upgrade request (its accept key and headers) is not modelled.
- RootListOwned: nodes a failing visitor left behind have no owner and are not recycled, as in the source.
- OutputFlow: handlers are represented by one writer the loop waits for; the spin lock's fairness, the reuse of a descriptor number by a new connection, and the lock held on the oversize exit (server.go:321-324) are not.
- ConnTable: handlers do not touch the listener, the close of all connections when `Serve` ends is not modelled, and `count` is unbounded rather than 32 bits wide.
- ReplyLoop: timers, the idle pool's channel, the write side and errors of the client connection are not modelled; the exactly-once results are about the reply loop.
- CommandGrammar.AcceptedIff: inputs shorter than 2^32 bytes, as for commands sent; past that the recorded 32-bit positions wrap.
- `fd_map.go` and `multi_clients.go` would add only easy members.
- AppendCommand: the text `fmt.Sprint` makes of other Go values is a parameter.
- The order of `Websocket.Close` against the loop's close after draining, memory shared after `Release`, and unsafe string views: strings are values.
