/** Which status a call ends with, in numbers and texts of its own: what the HTTP status, the headers and the trailers
    tell, and when they tell nothing. */
module ClientStatuses {
  import opened Bytes
  import opened Framing
  import opened ChunkParsing
  import opened ParserRuns
  import opened ClientModel
  import opened ClientOrder
  import opened ClientDownload
  import opened ClientFailures

  // gRPC status codes, by their names.
  const CANCELLED := 1
  const UNKNOWN_ERROR := 2
  const INVALID_ARGUMENT := 3
  const DEADLINE_EXCEEDED := 4
  const NOT_FOUND := 5
  const PERMISSION_DENIED := 7
  const RESOURCE_EXHAUSTED := 8
  const FAILED_PRECONDITION := 9
  const ABORTED := 10
  const UNIMPLEMENTED := 12
  const INTERNAL_ERROR := 13
  const UNAVAILABLE := 14
  const UNAUTHENTICATED := 16

  /** The errors that HTTP statuses stand for: bad request, unauthorized, forbidden and so on. */
  const HTTP_ERRORS: map<nat, int> := map[
    400 := INVALID_ARGUMENT, 401 := UNAUTHENTICATED, 403 := PERMISSION_DENIED, 404 := NOT_FOUND, 409 := ABORTED,
    412 := FAILED_PRECONDITION, 429 := RESOURCE_EXHAUSTED, 499 := CANCELLED, 500 := UNKNOWN_ERROR,
    501 := UNIMPLEMENTED, 503 := UNAVAILABLE, 504 := DEADLINE_EXCEEDED]

  /** The code that headers stand for: a positive grpc-status, the first if there are several, and the HTTP status
      otherwise. */
  ghost predicate HeadersTell(env: Env, headers: Metadata, status: nat, n: int) {
    if headers.grpcStatus != [] && env.parseInt(headers.grpcStatus[0]).Num? && env.parseInt(headers.grpcStatus[0]).n > 0
    then n == env.parseInt(headers.grpcStatus[0]).n
    else if status == 200 then n == 0
    else if status in HTTP_ERRORS then n == HTTP_ERRORS[status]
    else n == if status == 0 then INTERNAL_ERROR else UNKNOWN_ERROR
  }

  lemma HeadersTold(env: Env, headers: Metadata, status: nat)
    ensures HeadersCode(env, headers, status).Num?
    ensures HeadersTell(env, headers, status, HeadersCode(env, headers, status).n)
  {
  }

  /** The message of a status: decoded if it can be, as it is if not, and empty if there is none. */
  ghost predicate MessageTells(env: Env, md: Metadata, text: string) {
    if md.grpcMessage == [] then text == ""
    else
      var src := md.grpcMessage[0];
      && (src == "" ==> text == "")
      && (src != "" && env.decodeURIComponent(src).Some? ==> Some(text) == env.decodeURIComponent(src))
      && (src != "" && env.decodeURIComponent(src).None? ==> text == src)
  }

  lemma MessageTold(env: Env, md: Metadata)
    ensures MessageTells(env, md, StatusText(env, md))
  {
  }

  const NO_TRAILERS := Metadata([], [], "")

  /** The end that trailers stand for: their first status, zero or not, with its message, and an internal error if they
      have none. */
  ghost predicate TrailersTell(env: Env, md: Metadata, end: Dispatch) {
    if md.grpcStatus == [] then
      end == OfEnd(Num(INTERNAL_ERROR), "Response closed without grpc-status (Trailers provided)", NO_TRAILERS)
    else
      end.OfEnd? && end.code == env.parseInt(md.grpcStatus[0]) && end.trailers == md && MessageTells(env, md, end.text)
  }

  /** The end that headers stand for when no trailers follow. */
  ghost predicate HeadersEnd(env: Env, md: Metadata, end: Dispatch) {
    if md.grpcStatus == [] then
      end == OfEnd(Num(UNKNOWN_ERROR), "Response closed without grpc-status (Headers only)", md)
    else
      end.OfEnd? && end.code == env.parseInt(md.grpcStatus[0]) && end.trailers == md && MessageTells(env, md, end.text)
  }

  lemma EndsTold(env: Env, md: Metadata)
    ensures TrailersTell(env, md, EndOfTrailers(env, md)) && HeadersEnd(env, md, EndOfHeaders(env, md))
    ensures forall end :: TrailersTell(env, md, end) ==> end == EndOfTrailers(env, md)
    ensures forall end :: HeadersEnd(env, md, end) ==> end == EndOfHeaders(env, md)
  {
  }

  /** A response whose headers report an error ends the call at once: with the code of its status and the message that
      the headers carry, whatever follows. */
  lemma ErrorIsReported(s: State, env: Env, headers: Metadata, status: nat, n: int, text: string, later: seq<Event>)
    requires Quiet(env) && Waiting(s) && status != 0
    requires HeadersTell(env, headers, status, n) && n != 0 && MessageTells(env, headers, text)
    ensures var t := Run(s, env, [TransportHeaders(headers, status)] + later);
            && t.completed
            && Callbacks(t.trace) == Callbacks(s.trace) + ToAll(0, s.onHeaders, OfHeaders(headers))
                                     + ToAll(0, s.onEnd, OfEnd(Num(n), text, headers))
  {
    hide Callbacks, Run;
    HeadersTold(env, headers, status);
    MessageTold(env, headers);
    ErrorHeadersEndTheCall(s, env, headers, status, later);
  }

  /** A whole body over HTTP ends the call as its trailers tell. */
  lemma TrailersAreReported(s: State, env: Env, headers: Metadata, fs: seq<Frame>, trailer: Frame,
                            cuts: seq<seq<byte>>, end: Dispatch)
    requires Quiet(env) && Waiting(s) && HeadersTell(env, headers, 200, 0) && Body(fs, trailer)
    requires AllFit(fs + [trailer]) && Flatten(cuts) == EncodeAll(fs + [trailer])
    requires TrailersTell(env, MetadataOf(env, trailer), end)
    ensures var t := Run(s, env, [TransportHeaders(headers, 200)] + ChunkEvents(cuts) + [TransportEnd]);
            && t.completed
            && Callbacks(t.trace) == Callbacks(s.trace) + ToAll(0, s.onHeaders, OfHeaders(headers))
                                     + ToEach(MessagesOf(fs), s.onMessage) + ToAll(0, s.onEnd, end)
  {
    hide Callbacks, Run, Body, MessagesOf;
    HeadersTold(env, headers, 200);
    EndsTold(env, MetadataOf(env, trailer));
    HttpBody(s, env, headers, fs, trailer, cuts);
  }

  /** So does one over a WebSocket. */
  lemma LastBlockIsReported(s: State, env: Env, header: Frame, headerCuts: seq<seq<byte>>, fs: seq<Frame>,
                            trailer: Frame, cuts: seq<seq<byte>>, end: Dispatch)
    requires Quiet(env) && Waiting(s) && Body(fs, trailer)
    requires header.Fits() && header.IsTrailer() && ValidAscii(header.payload)
    requires Flatten(headerCuts) == EncodeFrame(header)
    requires AllFit(fs + [trailer]) && Flatten(cuts) == EncodeAll(fs + [trailer])
    requires TrailersTell(env, MetadataOf(env, trailer), end)
    ensures var t := Run(s, env, ChunkEvents(headerCuts + cuts) + [TransportEnd]);
            && t.completed
            && Callbacks(t.trace) == Callbacks(s.trace) + ToAll(0, s.onHeaders, OfHeaders(MetadataOf(env, header)))
                                     + ToEach(MessagesOf(fs), s.onMessage) + ToAll(0, s.onEnd, end)
  {
    hide Callbacks, Run, Body, MessagesOf;
    EndsTold(env, MetadataOf(env, trailer));
    WebSocketBody(s, env, header, headerCuts, fs, trailer, cuts);
  }

  /** A body without trailers ends the call as the headers tell. */
  lemma HeadersAreReported(s: State, env: Env, headers: Metadata, cuts: seq<seq<byte>>, end: Dispatch)
    requires Quiet(env) && Waiting(s) && HeadersTell(env, headers, 200, 0)
    requires MessageFramesOnly(DecodeAll(Flatten(cuts)).frames) && HeadersEnd(env, headers, end)
    ensures var t := Run(s, env, [TransportHeaders(headers, 200)] + ChunkEvents(cuts) + [TransportEnd]);
            && t.completed
            && Callbacks(t.trace) == Callbacks(s.trace) + ToAll(0, s.onHeaders, OfHeaders(headers))
                                     + ToEach(MessagesOf(DecodeAll(Flatten(cuts)).frames), s.onMessage)
                                     + ToAll(0, s.onEnd, end)
  {
    hide Callbacks, Run, DecodeAll, MessagesOf;
    HeadersTold(env, headers, 200);
    EndsTold(env, headers);
    TruncatedDownload(s, env, headers, cuts);
  }

  // Headers with the status 0, which stands for a failed connection.
  predicate Unconnected(events: seq<Event>) { forall e | e in events :: e.TransportHeaders? && e.status == 0 }

  lemma {:induction false} NothingConnected(s: State, env: Env, events: seq<Event>)
    requires Unconnected(events)
    ensures Run(s, env, events) == s
    decreases events
  {
    if events != [] {
      assert events[0] in events && forall e | e in events[1..] :: e in events;
      NothingConnected(s, env, events[1..]);
    }
  }

  /** A call that sees no headers, not even after a failed connection was reported, ends as unknown: with no bytes at
      all, or behind the messages that did arrive. Headers with the status 0 run no callback. */
  lemma NoHeadersIsReported(s: State, env: Env, failed: seq<Event>, cuts: seq<seq<byte>>)
    requires Quiet(env) && Waiting(s) && Unconnected(failed)
    requires MessageFramesOnly(DecodeAll(Flatten(cuts)).frames)
    ensures var t := Run(s, env, failed + ChunkEvents(cuts) + [TransportEnd]);
            && t.completed && t.pending == DecodeAll(Flatten(cuts)).rest
            && Callbacks(t.trace) == Callbacks(s.trace)
                                     + ToEach(MessagesOf(DecodeAll(Flatten(cuts)).frames), s.onMessage)
                                     + ToAll(0, s.onEnd, OfEnd(Num(UNKNOWN_ERROR), "Response closed without headers",
                                                               NO_TRAILERS))
  {
    hide Callbacks, Run, OnChunks, DecodeAll, ParseRun, Flatten, Complete;
    NothingConnected(s, env, failed);
    NoTrailersNoHoldback(cuts);
    var fs := DecodeAll(Flatten(cuts)).frames;
    ChunkEventsAreFrames(s, env, cuts);
    QuietFrames(s, env, fs);
    var s1 := Run(s, env, ChunkEvents(cuts));
    NoHeadersYet(s, env, fs);
    QuietComplete(s1, env, UNKNOWN, NO_HEADERS, NO_METADATA);
    CompleteWith(s1, env, UNKNOWN, NO_HEADERS, NO_METADATA);
    RunConcat(env, s, failed + ChunkEvents(cuts), [TransportEnd]);
    RunConcat(env, s, failed, ChunkEvents(cuts));
    RunOne(s1, env, TransportEnd);
  }

  // Messages leave the metadata alone.
  lemma NoHeadersYet(s: State, env: Env, fs: seq<Frame>)
    requires Quiet(env) && Waiting(s) && MessageFramesOnly(fs)
    ensures var t := OnChunks(s, env, ChunksOf(fs)); t.responseHeaders == None && t.responseTrailers == None
  {
    hide Callbacks, OnChunks;
    QuietFrames(s, env, fs);
  }
}
