# The byte paths of gRPC-Web, a Dafny model

gRPC-Web carries gRPC calls over what browsers have: HTTP requests and WebSockets. Messages and
metadata travel as frames, a flag byte whose most significant bit marks a header or trailer block, a
32-bit big-endian length, and the payload. This project models the code that produces, carries, cuts
and reassembles those frames on both sides, and proves what its users rely on.

The parts, one module each:

- **Framing** (`Framing.dfy`): the frame format, the whole-stream decoder, and `frameRequest`.
- **The frame parser** (`ChunkParser.dfy`, `ParserRuns.dfy`): the client's buffer and cursor, as a class over
  arrays, and all runs of it against the whole-stream decoder.
- **The RPC client** (`ClientModel.dfy`, `GrpcClient.dfy`): flags, callbacks and parser, driven by
  transport events and user calls. A callback is whatever an arbitrary function says its n-th
  invocation does: any calls on the client, and whether it throws. `ClientOrder.dfy`, `ClientSending.dfy`,
  `ClientClosing.dfy`, `ClientDelivery.dfy`, `ClientDownload.dfy`, `ClientStreams.dfy`, `ClientFailures.dfy` and
  `ClientStatus.dfy` hold the theorems over all runs.
- **The XHR transport** (`Xhr.dfy`): bytes out of a text that grows.
- **The React Native queue** (`Scheduler.dfy`): callbacks behind a single timer. What a callback does is a
  function of the number of its invocation, so it may detach itself again forever.
- **WebSocket upload** (`WebSocketSender.dfy`, `WebSocketReader.dfy`, `Upload.dfy`): the client's queue, the
  server's reader, and the two together over a reliable ordered channel.
- **The server's responses** (`Headers.dfy`, `Base64.dfy`, `GrpcWebResponse.dfy`, `WebSocketResponse.dfy`):
  copying of header maps, text mode, and what goes out for any sequence of calls a handler makes.
- **Both ends** (`HeaderText.dfy`, `EndToEnd.dfy`, `PlainExchange.dfy`): header blocks as text, and from the handler's calls to the client's callbacks.

Each object that the source updates in place is a class. Its methods are proved to have exactly the effect
of a function on values, and the theorems are about whole runs of those functions. A function value stands
for each library whose code is not here: `render` for Go's `http.Header.Write`, and the fields of `Env` for
the metadata parser, `parseInt`, `decodeURIComponent` and the behaviour of callbacks.

## Points where the code decides

- `XHR.index` is declared with the type `0` and no value, so it is undefined at the first progress event;
  `substr(undefined)` starts at 0 (`XhrTransport.Substr`).
- A `grpc-status` of 0 in the response headers does not count as a status there, because the test is for a
  truthy value, so the HTTP status decides (`ClientModel.HeadersCode`).
- A headers callback can start after the call was closed. Between header callbacks the client does not ask, so a
  dispatch does it exactly if the call is closed already or one of its callbacks but the last closes it
  (`ClientClosing.LateDispatch`, `ClientClosing.HeaderCallbackAfterClose`). It is closed already when a message
  callback did it and a trailer block of the same chunk is then taken for headers
  (`ClientClosing.TrailersTakenForHeadersAfterClose`). `ClientClosing.LateHeadersExactly` and
  `ClientClosing.LateChunksExactly` say when, for whole runs and for such chunks.
- `parse` returns behind every trailer block, so complete frames behind it can stay pending until more bytes
  arrive (`ParserRuns.HoldbackHappens`). None ever does exactly if, chunk by chunk, what can be decoded has a trailer
  block at most at its end (`ParserRuns.HoldsBackUnlessAligned`).
- The React Native queue drains exactly if the callbacks stop detaching (`Scheduling.DrainEnds`,
  `Scheduling.DrainEndsIfFinite`); one that always detaches itself again keeps it running
  (`Scheduling.SelfDetachingNeverDrains`).
- `copyHeader` depends on the order in which Go iterates over a map exactly when two copied keys clash
  (`Headers.OrderIndependence`), as for a name with and without the prefix `Trailer:`
  (`Headers.PrefixedKeysClash`).
- A header that is set when the response starts is sent as a header, and its name goes out again as that of a trailer
  exactly if in the end a header has it, with the prefix `Trailer:` or without, whose own lower-case name is not that
  of a header sent (`GrpcWebResponses.HeaderSentTwice`). So it is for any name with the prefix that is set alone
  (`GrpcWebResponses.PrefixedHeaderGoesTwice`). Which names are sent follows from the headers set before
  (`GrpcWebResponses.SentKeys`).
- A header whose name has been sent is not sent again with the values it has in the end
  (`GrpcWebResponses.FinalValueArrives`, `GrpcWebResponses.LateChangeIsLost`; over a WebSocket
  `WebSocketResponses.FinalValuesInBlocks`, `WebSocketResponses.LateChangeInBlocks`).

## Model

| member | source | states |
|---|---|---|
| `Framing.ReadWrittenU32BE` | client/grpc-web/src/ChunkParser.ts:43-45 | reading a written big-endian length gives the length back |
| `Framing.WriteReadU32BE` | go/grpcweb/grpc_web_response.go:101-102 | writing a read length gives its four bytes back |
| `Framing.MostSignificantFirst` | client/grpc-web/src/ChunkParser.ts:43-45 | lengths compare as their bytes do from the left, so the first byte is the most significant |
| `Framing.FrameBytes` | client/grpc-web/src/util.ts:3-9 | the literal first five bytes for messages of three lengths |
| `Framing.TrailerBit` | client/grpc-web/src/ChunkParser.ts:34-41 | a frame is a block if and only if the most significant bit of its flag byte is set, whatever the others are |
| `Framing.DecodeEncode` | client/grpc-web/src/ChunkParser.ts:109-132 | the whole-stream decoder recovers any list of frames, whatever bytes follow them |
| `Framing.EncodeDecode` | client/grpc-web/src/ChunkParser.ts:109-132 | the decoder loses nothing: its frames and its rest spell the stream, and the rest holds no frame |
| `Framing.DecodeAppend` | client/grpc-web/src/ChunkParser.ts:92-107 | decoding can be resumed: the rest of a prefix and the bytes behind it give the remaining frames |
| `Framing.FrameRequest` | client/grpc-web/src/util.ts:3-9 | the array filled in place is the frame of the message if its length fits 32 bits, and has that length modulo 2^32 otherwise |
| `ChunkParsing.DecodeASCII` | client/grpc-web/src/ChunkParser.ts:11-20 | the text of the bytes if all are printable ASCII, tab, CR or LF, an error otherwise |
| `ChunkParsing.EncodeASCII` | client/grpc-web/src/ChunkParser.ts:22-32 | succeeds exactly on such text, and then decoding gives the text back |
| `ChunkParsing.AsciiExactly` | client/grpc-web/src/ChunkParser.ts:5-9 | a text is valid if and only if every byte is tab, line feed, carriage return or printable |
| `ChunkParsing.SliceUint8Array` | client/grpc-web/src/ChunkParser.ts:51-68 | a fresh copy of the bytes from one index to the other, cut to the buffer by Uint8Array.slice and padded with zeros by the loop used where that is missing |
| `ChunkParsing.ChunkParser.Feed` | client/grpc-web/src/ChunkParser.ts:92-107 | the pending bytes become the old ones followed by the new ones, in all three buffer cases |
| `ChunkParsing.ChunkParser.TakeFrame` | client/grpc-web/src/ChunkParser.ts:110-124 | takes the first frame exactly if the pending bytes hold a complete one |
| `ChunkParsing.ChunkParser.Parse` | client/grpc-web/src/ChunkParser.ts:85-133 | returned chunks, bytes left pending and throwing are those of one scan of the pending bytes |
| `ParserRuns.ScanCharacterised` | client/grpc-web/src/ChunkParser.ts:109-132 | a call takes the one split of the pending bytes into frames and rest that stops at the first trailer block or at an incomplete frame |
| `ParserRuns.ScanConserves` | client/grpc-web/src/ChunkParser.ts:109-132 | frames used up by a call, then those decodable from the pending bytes, are the frames of the stream |
| `ParserRuns.ParseRunRefinesDecoder` | client/grpc-web/src/ChunkParser.ts:81-134 | parser refinement over all runs and cuttings, with trailer blocks mid-stream and with throwing calls |
| `ParserRuns.CuttingsAreComparable` | client/grpc-web/src/ChunkParser.ts:81-134 | the outputs of two cuttings of one stream are prefixes one of the other |
| `ParserRuns.AnyCuttingEmitsAll` | client/grpc-web/src/ChunkParser.ts:109-132 | whole frames with a trailer block at most at the end are all emitted under any cutting, with nothing pending |
| `ParserRuns.HoldsBackUnlessAligned` | client/grpc-web/src/ChunkParser.ts:109-132 | for any bytes pending and any chunks: no complete frame is ever left pending if and only if the frames decodable after each chunk have a trailer block at most at their end |
| `ParserRuns.AlignedEmitsAll` | client/grpc-web/src/ChunkParser.ts:109-132 | under that condition a run emits every frame there is, chunk by chunk, and keeps the rest |
| `ParserRuns.BoundariesAvoidHoldback` | client/grpc-web/src/ChunkParser.ts:126-131 | whole frames whose trailer blocks all end where a chunk ends meet it, and are all emitted with nothing pending |
| `ParserRuns.HoldbackHappens` | client/grpc-web/src/ChunkParser.ts:126-131 | the input: a complete message behind a trailer block in the same chunk stays pending |
| `ParserRuns.FramingRoundTrip` | client/grpc-web/src/util.ts:3-9 | framed messages come out of the parser as those messages under any cutting |
| `HeaderText.LinesAreRead` | client/grpc-web/src/ChunkParser.ts:11-20 | any block of header lines, each ended by CR LF, is valid and read as that text |
| `HeaderText.LinesPassTheParser` | client/grpc-web/src/ChunkParser.ts:109-132 | such a block comes out of the parser as its text, however it is cut |
| `GrpcClients.GrpcClient.OnTransportHeaders` | client/grpc-web/src/client.ts:79-109 | the effect on flags, metadata, callbacks and outbound calls is that of the model's headers event |
| `GrpcClients.GrpcClient.OnTransportChunk` | client/grpc-web/src/client.ts:111-140 | the same for a chunk, including a parser that throws |
| `GrpcClients.GrpcClient.ForEachChunk` | client/grpc-web/src/client.ts:126-139 | the same for the chunks of one parse, in order |
| `GrpcClients.GrpcClient.OnTransportEnd` | client/grpc-web/src/client.ts:142-184 | the same for the end of the transport |
| `GrpcClients.GrpcClient.RawOnEnd` | client/grpc-web/src/client.ts:198-213 | completes once and runs the end callbacks that a close does not stop |
| `GrpcClients.GrpcClient.RawOnHeaders` | client/grpc-web/src/client.ts:215-227 | runs every headers callback unless completed |
| `GrpcClients.GrpcClient.RawOnError` | client/grpc-web/src/client.ts:229-243 | completes once, with empty trailers by default |
| `GrpcClients.GrpcClient.RawOnMessage` | client/grpc-web/src/client.ts:245-258 | runs the message callbacks that a close does not stop, unless completed or closed |
| `GrpcClients.GrpcClient.Callback` | client/grpc-web/src/client.ts:204-211 | one callback with all calls it makes on the client, its error thrown again from a timer |
| `GrpcClients.GrpcClient.Start` | client/grpc-web/src/client.ts:272-283 | starts the transport the first time and is refused afterwards |
| `GrpcClients.GrpcClient.Send` | client/grpc-web/src/client.ts:285-302 | sends the framed message unless one of the four guards refuses |
| `GrpcClients.GrpcClient.FinishSend` | client/grpc-web/src/client.ts:304-316 | finishes the transport unless one of the three guards refuses |
| `GrpcClients.GrpcClient.Close` | client/grpc-web/src/client.ts:318-329 | cancels the transport once |
| `ClientOrder.TraceOrder` | client/grpc-web/src/client.ts:198-329 | over all runs: start, then sends, at most one finishSend, at most one cancel, one message if unary; one completion; each end callback at most once, after it; no message callback after completion or close |
| `ClientOrder.EndCompletes` | client/grpc-web/src/client.ts:142-184 | an end seen while not closed leaves the call completed for good, a second end does nothing, completed and closed never revert |
| `ClientSending.OutgoingExactly` | client/grpc-web/src/client.ts:260-329 | over all runs, for the calls made by the user or by callbacks: the transport gets exactly start, the messages let through in frames, finishSend and cancel; every other call is refused; all registrations count, and every error of a callback is thrown again |
| `ClientSending.SentSnoc` | client/grpc-web/src/client.ts:285-302 | a message is let through if and only if the call was started, is neither closed nor finished, and is a stream or has sent none |
| `ClientSending.MessagesGoOut` | client/grpc-web/src/client.ts:285-302 | after start each message goes out as it was given, in a frame with a zero flag; the first alone if the request is not a stream |
| `ClientClosing.LateDispatch` | client/grpc-web/src/client.ts:215-227 | a headers dispatch on a started call starts a callback after close if and only if it has one to start and the call is closed or a callback but the last closes it |
| `ClientClosing.StepJudged` | client/grpc-web/src/client.ts:79-140 | one event does so exactly if a headers dispatch it makes does, on the state that the dispatches before it leave |
| `ClientClosing.LateHeadersExactly` | client/grpc-web/src/client.ts:79-329 | over all runs from registration through start: a headers callback starts after close if and only if such an event is among them |
| `ClientClosing.LateChunksExactly` | client/grpc-web/src/client.ts:126-139 | for messages followed by a trailer block in one chunk, in terms of the callbacks alone: exactly if a message callback, or a headers callback but the last, closes the call |
| `ClientClosing.HeaderCallbackAfterClose` | client/grpc-web/src/client.ts:215-227 | the input: of two headers callbacks the first closes the call, for any callbacks otherwise |
| `ClientClosing.TrailersTakenForHeadersAfterClose` | client/grpc-web/src/client.ts:126-139 | the other: a message callback closes the call and the trailer block behind the message starts the headers callback |
| `ClientDelivery.PrefixSafety` | client/grpc-web/src/client.ts:111-140 | for any bytes, cutting, events and callbacks, the messages dispatched are a prefix of those the decoder finds in what arrived |
| `ClientDelivery.EachCallbackSeesAPrefix` | client/grpc-web/src/client.ts:245-258 | every message callback registered before the bytes sees such a prefix, all that was dispatched while open, and misses only what is still pending while neither closed nor completed |
| `ClientDelivery.StepAccounted` | client/grpc-web/src/client.ts:79-184 | the accounting of parser, dispatched messages and arrived bytes that every event keeps |
| `ClientDownload.DispatchReaches` | client/grpc-web/src/client.ts:198-258 | a dispatch runs the callbacks in order without gaps, whatever they throw; it stops early only when closed, a headers dispatch never |
| `ClientDownload.ChunkEventsAreFrames` | client/grpc-web/src/client.ts:111-140 | the cutting into chunks makes no difference to the client's state |
| `ClientDownload.HttpDownload` | client/grpc-web/src/client.ts:79-184 | for every cutting: headers callbacks, every message in order, one end with the status of the trailer block, and nothing else |
| `ClientDownload.TrailersOnlyDownload` | client/grpc-web/src/client.ts:150-172 | headers with a status and an empty body give one end with that status, be it zero, positive, negative or no number |
| `ClientDownload.WebSocketDownload` | client/grpc-web/src/client.ts:126-139 | without a headers event the first block becomes the headers and the last the trailers, and nothing is held back |
| `ClientDownload.WebSocketTrailersOnly` | client/grpc-web/src/client.ts:130-137 | a single block is taken for the headers, and its status still ends the call once |
| `ClientStreams.SendingChangesNothing` | client/grpc-web/src/client.ts:272-316 | start, send and finishSend between the transport's events, allowed or refused, change nothing that quiet callbacks see, over all runs |
| `ClientStreams.StreamsAlike` | client/grpc-web/src/client.ts:79-316 | so a bidirectional stream runs exactly the callbacks of the download alone |
| `ClientFailures.NothingAfterCompletion` | client/grpc-web/src/client.ts:198-258 | once completed, no event or call runs a callback again |
| `ClientFailures.HeadersReportOk` | client/grpc-web/src/Code.ts:21-54 | the headers report no error exactly for status 200 without a positive grpc-status, and every HTTP status has one of the seventeen codes |
| `ClientFailures.ErrorHeadersEndTheCall` | client/grpc-web/src/client.ts:93-107 | headers that report an error end the call at once with that code, and nothing later has an effect |
| `ClientFailures.TruncatedDownload` | client/grpc-web/src/client.ts:150-172 | a body without trailers delivers every complete message and ends once: as unknown, or with the status that the headers carry |
| `ClientFailures.DamagedTrailer` | client/grpc-web/src/client.ts:117-124 | a trailer block that is not ASCII ends the call once as an internal error (13), and only the messages of its own chunk are lost |
| `ClientStatuses.ErrorIsReported` | client/grpc-web/src/Code.ts:21-54 | headers that report an error end the call with the gRPC code named for each HTTP status, or with their first positive grpc-status, and with their message, decoded if it can be |
| `ClientStatuses.TrailersAreReported` | client/grpc-web/src/client.ts:174-184 | over HTTP the end has the first status and the message of the trailers, and is an internal error (13) if they have no status |
| `ClientStatuses.LastBlockIsReported` | client/grpc-web/src/client.ts:174-184 | the same over a WebSocket |
| `ClientStatuses.HeadersAreReported` | client/grpc-web/src/client.ts:157-171 | without trailers the end has the status and message of the headers, and is unknown (2) if they have none |
| `ClientStatuses.NoHeadersIsReported` | client/grpc-web/src/client.ts:150-155 | without headers, also after a failed connection, no headers callback runs and the end is unknown (2) |
| `ClientStatuses.MessageTold` | client/grpc-web/src/client.ts:186-196 | the message of a status is decoded, left as it is where it cannot be, and empty where there is none |
| `XhrTransport.StringToArrayBuffer` | client/grpc-web/src/transports/http/xhr.ts:123-131 | the low byte of the code point at every index, surrogate pairs included |
| `XhrTransport.XHR.OnProgressEvent` | client/grpc-web/src/transports/http/xhr.ts:34-40 | emits the bytes of the text behind the index and moves the index to its end |
| `XhrTransport.TextBytesInvertsXUserDefined` | client/grpc-web/src/transports/http/xhr.ts:85-91 | the conversion inverts the x-user-defined decoder for all bytes |
| `XhrTransport.ProgressEmitsEachByteOnce` | client/grpc-web/src/transports/http/xhr.ts:34-40 | for any placement of progress events the chunks are the bytes of the text seen so far |
| `XhrTransport.SplittingText` | client/grpc-web/src/transports/http/xhr.ts:112-121 | a progress event changes the bytes exactly if it splits a surrogate pair with different low bytes |
| `XhrTransport.CodePointOfUtf16` | client/grpc-web/src/transports/http/xhr.ts:112-131 | the code point of every character in UTF-16, in one unit or in two |
| `Scheduling.Scheduler.Detach` | client/grpc-web-react-native-transport/src/index.ts:42-51 | appends to the queue, or starts it together with a timer |
| `Scheduling.Scheduler.RunCallbacks` | client/grpc-web-react-native-transport/src/index.ts:11-32 | runs the batch up to the first throw and requeues the rest in front; throws exactly if a callback of the batch does |
| `Scheduling.Scheduler.RequeueRest` | client/grpc-web-react-native-transport/src/index.ts:18-28 | after a throw, the callbacks that have not run stand in front of the queue in their order, with a timer |
| `Scheduling.Scheduler.Fire` | client/grpc-web-react-native-transport/src/index.ts:48-50 | a timer that fires is used up before the batch runs |
| `Scheduling.FifoExactlyOnce` | client/grpc-web-react-native-transport/src/index.ts:9-51 | over all runs, with re-entrant enqueues and throws: executed followed by awaiting is everything detached, in order; one timer if and only if the queue is there |
| `Scheduling.RunBatchKeeps` | client/grpc-web-react-native-transport/src/index.ts:15-30 | the same within a batch, with the rest of the batch between executed and awaiting |
| `Scheduling.FiringsCount` | client/grpc-web-react-native-transport/src/index.ts:9-51 | over any firings, executions are those that awaited and those detached meanwhile, less what awaits; while a timer is pending every firing has executed something |
| `Scheduling.DrainRunsEverything` | client/grpc-web-react-native-transport/src/index.ts:11-32 | a queue that has drained has run everything ever detached, in order, each once |
| `Scheduling.DrainEnds` | client/grpc-web-react-native-transport/src/index.ts:9-51 | with re-entrant enqueues and throws, draining ends if and only if for some number of invocations that number reaches what awaited and what they detach |
| `Scheduling.DrainEndsIfFinite` | client/grpc-web-react-native-transport/src/index.ts:9-51 | which is, if and only if finitely many callbacks are ever detached |
| `Scheduling.SelfDetachingNeverDrains` | client/grpc-web-react-native-transport/src/index.ts:42-51 | callbacks that always detach one again keep a timer pending forever |
| `Scheduling.DrainBound` | client/grpc-web-react-native-transport/src/index.ts:11-32 | without re-entry, t throws take t + 1 firings and not one less |
| `WebSocketSender.WebSocketRequest.SendToWebsocket` | client/grpc-web/src/transports/websocket/websocket.ts:26-38 | the signed array puts the control byte and the message's own bytes on the wire |
| `WebSocketSender.WebSocketRequest.SendMessage` | client/grpc-web/src/transports/websocket/websocket.ts:41-47 | queues before the socket is open, sends afterwards |
| `WebSocketSender.WebSocketRequest.FinishSend` | client/grpc-web/src/transports/websocket/websocket.ts:48-54 | the same for the finish signal |
| `WebSocketSender.WebSocketRequest.Start` | client/grpc-web/src/transports/websocket/websocket.ts:55-57 | the socket is connecting, nothing is sent |
| `WebSocketSender.WebSocketRequest.Close` | client/grpc-web/src/transports/websocket/websocket.ts:68-85 | the socket takes nothing more |
| `WebSocketSender.WebSocketRequest.OnOpen` | client/grpc-web/src/transports/websocket/websocket.ts:58-66 | sends the headers and then the whole queue in order |
| `WebSocketSender.FramesAreDistinct` | client/grpc-web/src/transports/websocket/websocket.ts:26-38 | no data frame is the finish frame, and frames tell messages apart |
| `WebSocketSender.WireMeans` | client/grpc-web/src/transports/websocket/websocket.ts:26-66 | over an open socket the headers are followed by a frame for every call: a zero byte and the message, or a lone one |
| `WebSocketSender.CallKeeps` | client/grpc-web/src/transports/websocket/websocket.ts:41-54 | the wire holds headers and all calls in order while open, the queue holds them before, a prefix is on the wire after closing |
| `WebSocketSender.OpenKeeps` | client/grpc-web/src/transports/websocket/websocket.ts:58-66 | opening loses, repeats and reorders nothing that waited |
| `WebSocketSender.OnlyOpenSends` | client/grpc-web/src/transports/websocket/websocket.ts:41-54 | a call reaches the wire only over an open socket and waits only before it opens |
| `WebSocketReader.WrappedReader.Read` | go/grpcweb/websocket_wrapper.go:136-217 | bytes copied into the buffer, bytes beyond left alone, error, remainder and retained error in all cases |
| `WebSocketReader.MessageTypes` | go/grpcweb/websocket_wrapper.go:164-200 | text messages are refused, binary ones read behind their control byte, a lone one is the end, and a lost connection cancels |
| `WebSocketReader.OneRead` | go/grpcweb/websocket_wrapper.go:136-217 | a read returns at most the buffer's size, keeps the remainder non-empty, retains an error only with bytes, returns it with the last of them, and makes progress |
| `WebSocketReader.ReadsConserve` | go/grpcweb/websocket_wrapper.go:136-217 | over all reads, bytes and errors returned, left over and unread are those the frames carried, in order, each once |
| `WebSocketReader.ReadsFinish` | go/grpcweb/websocket_wrapper.go:136-217 | reads with non-empty buffers exhaust any frames within as many reads as there are frames and bytes |
| `Upload.UploadSafety` | client/grpc-web/src/transports/websocket/websocket.ts:23-66 | for every interleaving of calls, opening, closing and reads, the server has a prefix of the messages sent before finishSend, and all of them at the EOF of the finish frame; the handler is cancelled only when the client is gone |
| `Upload.UploadFinishes` | go/grpcweb/websocket_wrapper.go:136-217 | from any state of any run with finishSend called and the socket open, unless somebody closes it, enough non-empty reads among any other steps reach the finish EOF with every message received |
| `Upload.UploadDelivers` | go/grpcweb/websocket_wrapper.go:133-217 | the body decodes to a prefix of the messages of the Send calls let through, in any client run, and to exactly those at that EOF |
| `Base64.DecodeEncode` | go/grpcweb/grpc_web_response.go:135-137 | standard base64 decoding inverts encoding for all bytes |
| `Base64.Alphabet` | go/grpcweb/grpc_web_response.go:135-137 | the characters are those of table 1 of RFC 4648, in its order |
| `Base64.GroupBits` | go/grpcweb/grpc_web_response.go:135-137 | they stand for the bits of three bytes six at a time, the most significant first, padded at the end |
| `Base64.DecodeEncodedParts` | go/grpcweb/wrapper_test.go:165-194 | decoding several padded parts gives the concatenated bytes, wherever the boundaries fall |
| `Base64.TextRoundTrip` | go/grpcweb/grpc_web_response.go:143-161 | any writes and flushes ending in a flush decode to exactly the bytes written |
| `Base64.LittleIsHeld` | go/grpcweb/grpc_web_response.go:143-161 | over any writes and flushes, what went out stays, fewer than three bytes are held, and none after a flush |
| `Headers.CanonicalKeepsLower` | go/grpcweb/header.go:79-92 | canonical form changes nothing but case |
| `Headers.CanonicalForm` | go/grpcweb/header.go:79-92 | upper case at the start and behind every hyphen, lower case elsewhere, and no change to what is no header name |
| `Headers.LowerForm` | go/grpcweb/header.go:79-92 | upper-case letters become lower-case ones and nothing else changes |
| `Headers.CopyHeader` | go/grpcweb/header.go:111-131 | the destination after some iteration order over all keys of the source |
| `Headers.HeaderKeys` | go/grpcweb/header.go:134-140 | every key once |
| `Headers.CopyOverwrites` | go/grpcweb/header.go:120-130 | for every order: old keys and images, each image with values of a copied key that has it, other entries untouched |
| `Headers.OrderIndependence` | go/grpcweb/header.go:120-130 | the result is the same for all iteration orders if and only if no two copied keys with one image differ in values |
| `Headers.PrefixedKeysClash` | go/grpcweb/header.go:120-130 | the input: a name with and without the prefix, with different values, where two orders give two trailer blocks |
| `Headers.IndexIsFirst` | go/grpcweb/header.go:44-79 | replacement in a key or value finds the first occurrence whenever there is one |
| `Headers.ReplacedInPlace` | go/grpcweb/header.go:44-79 | the first occurrence alone is replaced, and the text before and behind it stays |
| `Headers.PrepareImage` | go/grpcweb/grpc_web_response.go:73-79 | the header chain strips the trailer prefix, canonicalizes, and keeps all values but those of the content type, in each of which the first application/grpc becomes the gRPC-Web type |
| `Headers.TrailerImage` | go/grpcweb/grpc_web_response.go:110-118 | the trailer chain strips the prefix and lower-cases the key |
| `Headers.FlushedKeys` | go/grpcweb/websocket_wrapper.go:82-88 | without regard to case, the flushed keys are those of the headers except Trailer |
| `Headers.TrailerPartition` | go/grpcweb/grpc_web_response.go:108-120 | a trailer block holds exactly the keys that were not flushed, with their values if they stay apart |
| `Headers.TrailerOrFlushed` | go/grpcweb/grpc_web_response.go:108-120 | if all keys stay apart, a key is in the block if and only if it was not flushed |
| `GrpcWebResponses.Base64ResponseWriter.Write` | go/grpcweb/grpc_web_response.go:143-145 | whole groups go out, the rest is held |
| `GrpcWebResponses.Base64ResponseWriter.Flush` | go/grpcweb/grpc_web_response.go:151-161 | what is held goes out padded, and a new part begins |
| `GrpcWebResponses.GrpcWebResponse.constructor` | go/grpcweb/grpc_web_response.go:30-41 | no headers, nothing written, and the text writer exactly in text mode |
| `GrpcWebResponses.GrpcWebResponse.Write` | go/grpcweb/grpc_web_response.go:47-53 | prepares the headers before the first byte only, and passes the bytes on |
| `GrpcWebResponses.GrpcWebResponse.WriteHeader` | go/grpcweb/grpc_web_response.go:55-59 | prepares the headers and sends them with the code |
| `GrpcWebResponses.GrpcWebResponse.Flush` | go/grpcweb/grpc_web_response.go:61-67 | flushes only once something was written |
| `GrpcWebResponses.GrpcWebResponse.PrepareHeaders` | go/grpcweb/grpc_web_response.go:71-86 | the response's headers become the converted handler headers over the old ones, and the list of all keys |
| `GrpcWebResponses.GrpcWebResponse.FinishRequest` | go/grpcweb/grpc_web_response.go:88-95 | a trailer block after a body, a 200 with all headers otherwise |
| `GrpcWebResponses.GrpcWebResponse.CopyTrailersToPayload` | go/grpcweb/grpc_web_response.go:97-106 | writes flag and length, the rendered trailers, and flushes |
| `GrpcWebResponses.ExtractTrailingHeaders` | go/grpcweb/grpc_web_response.go:108-120 | a fresh map of the headers that were not flushed |
| `GrpcWebResponses.HandleGrpcWebRequest` | go/grpcweb/wrapper.go:156-162 | for any calls of a handler, in binary and text mode: status, headers sent, and a body that stands for the handler's bytes and one trailer block, or for nothing |
| `GrpcWebResponses.LastCallCounts` | go/grpcweb/grpc_web_response.go:43-45 | the handler's headers are those set last and not deleted since |
| `GrpcWebResponses.PayloadConcat` | go/grpcweb/grpc_web_response.go:47-53 | its bytes are those of its writes in order |
| `GrpcWebResponses.StatusSent` | go/grpcweb/grpc_web_response.go:47-59 | the status is that of the first WriteHeader, or 200 if bytes are written before any |
| `GrpcWebResponses.SentKeys` | go/grpcweb/grpc_web_response.go:71-86 | a name is among the headers sent, ignoring case, if and only if it was there before, is the list of exposed headers, or is that of a handler header other than Trailer without its prefix |
| `GrpcWebResponses.EveryHeaderArrives` | go/grpcweb/grpc_web_response.go:71-120 | no name is lost: every key set by the end, but Trailer, is among the headers sent or in the trailer block |
| `GrpcWebResponses.SplitJoin` | go/grpcweb/grpc_web_response.go:80-85 | a list of names without commas is read back from its joined form |
| `GrpcWebResponses.ExposeHeadersReplaced` | go/grpcweb/grpc_web_response.go:80-85 | whatever was set, the list of exposed headers, split at its commas, is the names of the headers sent, each once, then grpc-status and grpc-message |
| `GrpcWebResponses.ExposeHeadersName` | go/grpcweb/grpc_web_response.go:82-85 | it stands under Access-Control-Expose-Headers |
| `GrpcWebResponses.ContentTypeArrives` | go/grpcweb/grpc_web_response.go:71-79 | a content type of application/grpc and any suffix goes out as application/grpc-web, or application/grpc-web-text in text mode, with that suffix |
| `GrpcWebResponses.FinalValueArrives` | go/grpcweb/grpc_web_response.go:71-120 | its final values arrive if and only if its name was not sent before, or what was sent already had them, in terms of the headers before and of the handler's when the response started; those of the list of exposed headers are replaced |
| `GrpcWebResponses.LateChangeIsLost` | go/grpcweb/grpc_web_response.go:108-120 | the input: a header set before the first write and changed after it arrives nowhere with its final values |
| `GrpcWebResponses.TrailedKeys` | go/grpcweb/grpc_web_response.go:108-120 | for any headers, a name is in the trailer block if and only if it is that of a final header, prefix stripped, whose own name was not sent |
| `GrpcWebResponses.HeaderSentTwice` | go/grpcweb/grpc_web_response.go:71-120 | a header set when the response starts is sent, and its name goes out again as a trailer if and only if some final header of that name, with the prefix or without, has a name that was not sent |
| `GrpcWebResponses.PrefixedHeaderGoesTwice` | go/grpcweb/grpc_web_response.go:71-120 | the input: any name with the prefix, set alone before the first write, goes out as header and as trailer |
| `GrpcWebResponses.EveryHeaderIsSent` | go/grpcweb/grpc_web_response.go:88-95 | without a body every such key is among the headers sent, with its values |
| `WebSocketResponses.WebSocketResponseWriter.Write` | go/grpcweb/websocket_wrapper.go:63-71 | one message, after the header block if there was none |
| `WebSocketResponses.WebSocketResponseWriter.WriteHeaderFrame` | go/grpcweb/websocket_wrapper.go:73-80 | two messages, flag with length and text |
| `WebSocketResponses.BlockMessagesAre` | go/grpcweb/websocket_wrapper.go:73-80 | the literal two messages of a short block |
| `WebSocketResponses.WebSocketResponseWriter.CopyFlushedHeaders` | go/grpcweb/websocket_wrapper.go:82-88 | the keys recorded as flushed |
| `WebSocketResponses.WebSocketResponseWriter.WriteHeader` | go/grpcweb/websocket_wrapper.go:90-95 | records and sends the headers as they stand |
| `WebSocketResponses.WebSocketResponseWriter.FlushTrailers` | go/grpcweb/websocket_wrapper.go:97-113 | sends a block with the headers that were not flushed |
| `WebSocketResponses.HandleGrpcWebsocketRequest` | go/grpcweb/wrapper.go:210-230 | for any calls of a handler: header block, one message per write, trailer block, or the trailer block alone |
| `WebSocketResponses.HeaderTrailerPartition` | go/grpcweb/websocket_wrapper.go:82-113 | each key but Trailer present at the end is in the header block or else in the trailer block, not in both |
| `WebSocketResponses.FinalValuesInBlocks` | go/grpcweb/websocket_wrapper.go:82-113 | the final values of a key arrive if and only if its name was not in the header block, or the header block already had them |
| `WebSocketResponses.LateChangeInBlocks` | go/grpcweb/websocket_wrapper.go:82-113 | the input: a header set before the first write and changed after it arrives in neither block with its final values |
| `EndToEnd.DownloadOverHttp` | go/grpcweb/grpc_web_response.go:47-106 | from the handler's calls to the callbacks: whatever the pieces, the chunks and the sending between them, headers, each message once in order, one end with the handler's status |
| `PlainExchanges.PlainExchange` | go/grpcweb/grpc_web_response.go:47-106 | a handler that writes frames and then sets its status gets exactly that body, so the exchanges of the theorems exist |
| `PlainExchanges.StatusLineIsUnderstood` | client/grpc-web/src/ChunkParser.ts:5-20 | a block that is the line with the status is text the client reads, so only the metadata parser is left open |
| `PlainExchanges.PlainCall` | go/grpcweb/grpc_web_response.go:47-106 | with that, a whole call of a plain handler: every message and its status, for every cutting and any sending meanwhile |
| `PlainExchanges.PlainFailure` | go/grpcweb/grpc_web_response.go:88-95 | a handler that only sets its status gets exactly these headers and no body, so the failures of the theorems exist |
| `PlainExchanges.PlainStream` | go/grpcweb/websocket_wrapper.go:63-113 | the messages a WebSocket carries for a handler that writes frames and then sets its status |
| `PlainExchanges.PlainStreamFailure` | go/grpcweb/websocket_wrapper.go:97-113 | the messages it carries for one that only sets its status |
| `EndToEnd.DownloadOverXhr` | client/grpc-web/src/transports/http/xhr.ts:34-83 | the same through growing text and progress events |
| `EndToEnd.ErrorOverHttp` | go/grpcweb/grpc_web_response.go:88-95 | a handler that writes nothing: one end with its status |
| `EndToEnd.DownloadOverWebSocket` | go/grpcweb/websocket_wrapper.go:63-113 | the same as over HTTP, with each server message as one chunk |
| `EndToEnd.ErrorOverWebSocket` | go/grpcweb/websocket_wrapper.go:97-131 | a handler that writes nothing over a WebSocket: one end with its status |

## Left out

- The fetch and Node transports, and Firefox's moz-chunked mode: for the client they are further sources of header, chunk and end events.
- `BrowserHeaders`, protobuf, Go's `http.Header.Write` and textproto: total functions here, related only where a theorem says so (`EndToEnd.Understood`). Deserializing a message is a total function of its payload, so the payload stands for it.
- CORS, origin checks, request routing, the text-mode decoding of request bodies, options, the health client and the proxy: single decisions and plumbing.
- The WebSocket ping timer, context cancellation beyond the flag that records it, and the goroutine that drains the socket after the finish frame.
- Errors of writing to a WebSocket or an HTTP response, which the code ignores or passes on unchanged.
- Metadata that is not ASCII in the WebSocket's open handler, where `encodeASCII` throws before anything is sent.
- A transport that calls back into the client from within a callback or a user call. An aborted XHR may do so from `cancel`; the call is closed by then, so such events do nothing.
- GrpcClients.GrpcClient.Start: does not model the request metadata, because it is passed to the transport unexamined.
- GrpcClients.GrpcClient.RawOnMessage: models a callback array by its length and a callback by its position, because the client only ever appends to the arrays and calls their elements.
- ClientClosing.LateChunksExactly: covers callbacks that register no further ones, because with those the number of callbacks run is not a product; `ClientClosing.StepJudged` covers them all.
- GrpcWebResponses.HandleGrpcWebRequest: does not cover a handler that calls WriteHeader after the response has started, because net/http ignores that call while the header map has changed.
- WebSocketSender.WebSocketRequest.Start: does not cover a second start of the same transport, because the client starts one at most once (`ClientOrder.TraceOrder`).
- WebSocketResponses.HandleGrpcWebsocketRequest: does not cover a second WriteHeader either, and ends with the closing of the request body rather than of the socket.
- WebSocketReader.WrappedReader.Read: is not described after an EOF, since a caller does not read on.
- Headers.CanonicalKeepsLower: models Go's case conversion for ASCII, which is what header names are made of.
- Base64.DecodeEncode: does not model that Go's decoder skips line breaks, because the encoder writes none.
