/** The RPC client as a state machine over values: what each transport event and each user call
    does to the flags, to the captured metadata and to the calls that leave the client. The
    class GrpcClient is proved against these functions. */
module ClientModel {
  import opened Bytes
  import opened Framing
  import opened ChunkParsing

  // A status as parseInt yields it.
  datatype Code = NotANumber | Num(n: int)

  const OK := Num(0)
  const UNKNOWN := Num(2)
  const INTERNAL := Num(13)

  function HttpStatusToCode(httpStatus: nat): Code {
    match httpStatus
    case 0 => Num(13)
    case 200 => Num(0)
    case 400 => Num(3)
    case 401 => Num(16)
    case 403 => Num(7)
    case 404 => Num(5)
    case 409 => Num(10)
    case 412 => Num(9)
    case 429 => Num(8)
    case 499 => Num(1)
    case 500 => Num(2)
    case 501 => Num(12)
    case 503 => Num(14)
    case 504 => Num(4)
    case _ => Num(2)
  }

  // Parsed headers as the client looks at them: two lookups, and the text they came from.
  datatype Metadata = Metadata(grpcStatus: seq<string>, grpcMessage: seq<string>, text: string)

  const NO_METADATA := Metadata([], [], "")

  datatype UserCall = Start | Send(message: seq<byte>) | FinishSend | Close | OnHeaders | OnMessage | OnEnd

  // What a callback does when it is invoked: calls on the client, and whether it throws in the end.
  // A call that throws inside the callback ends the list, unless the callback catches that error.
  datatype Reaction = Reaction(calls: seq<UserCall>, throws: bool)

  // What the client does not compute itself: the metadata parser, parseInt, decodeURIComponent
  // (`None` where it throws), the method's kind, and the behaviour of the n-th callback invocation.
  datatype Env = Env(
    parseMetadata: string -> Metadata,
    parseInt: string -> Code,
    decodeURIComponent: string -> Option<string>,
    requestStream: bool,
    react: nat -> Reaction)

  datatype Dispatch =
    | OfHeaders(headers: Metadata)
    | OfMessage(message: seq<byte>)
    | OfEnd(code: Code, text: string, trailers: Metadata)

  // What can be seen of the client from outside, in order. `Called` is the invocation of the
  // callback registered `slot`-th for its kind; `Completed` marks `completed` being set; `Refused` a user
  // call that threw; `Reraised` the timer that throws a callback's error again.
  datatype Entry =
    | ToStart | ToSend(frame: seq<byte>) | ToFinish | ToCancel
    | Called(slot: nat, what: Dispatch)
    | Completed | Refused | Reraised

  // Callback arrays only ever grow, so their lengths stand for them. `fed` and `delivered` are
  // history: the bytes handed to the parser, and the messages dispatched.
  datatype State = State(
    started: bool, sentFirstMessage: bool, completed: bool, closed: bool, finishedSending: bool,
    onHeaders: nat, onMessage: nat, onEnd: nat,
    pending: seq<byte>,
    responseHeaders: Option<Metadata>, responseTrailers: Option<Metadata>,
    ticks: nat, trace: seq<Entry>,
    fed: seq<byte>, delivered: seq<seq<byte>>)
  {
    function Log(e: Entry): State { this.(trace := trace + [e]) }
  }

  const FRESH := State(false, false, false, false, false, 0, 0, 0, [], None, None, 0, [], [], [])

  // ---- user calls ----

  function Call(s: State, env: Env, c: UserCall): State {
    match c
    case Start =>
      if s.started then s.Log(Refused)
      else s.(started := true).Log(ToStart)
    case Send(message) =>
      if !s.started || s.closed || s.finishedSending || (!env.requestStream && s.sentFirstMessage) then s.Log(Refused)
      else s.(sentFirstMessage := true).Log(ToSend(RequestFrame(message)))
    case FinishSend =>
      if !s.started || s.closed || s.finishedSending then s.Log(Refused)
      else s.(finishedSending := true).Log(ToFinish)
    case Close =>
      if !s.started || s.closed then s.Log(Refused)
      else s.(closed := true).Log(ToCancel)
    case OnHeaders => s.(onHeaders := s.onHeaders + 1)
    case OnMessage => s.(onMessage := s.onMessage + 1)
    case OnEnd => s.(onEnd := s.onEnd + 1)
  }

  function CallAll(s: State, env: Env, calls: seq<UserCall>): State
    decreases calls
  {
    if calls == [] then s else CallAll(Call(s, env, calls[0]), env, calls[1..])
  }

  // ---- callbacks ----

  // One callback runs; an error it throws is thrown again from a timer.
  function Invoke(s: State, env: Env, slot: nat, what: Dispatch): State {
    var reaction := env.react(s.ticks);
    var t := CallAll(s.(ticks := s.ticks + 1).Log(Called(slot, what)), env, reaction.calls);
    if reaction.throws then t.Log(Reraised) else t
  }

  // The callbacks slot, slot + 1, ..., count - 1 run. Only message and end callbacks look at `closed` first.
  function InvokeFrom(s: State, env: Env, slot: nat, count: nat, what: Dispatch): State
    requires slot <= count
    decreases count - slot
  {
    if slot == count then s
    else if s.closed && !what.OfHeaders? then InvokeFrom(s, env, slot + 1, count, what)
    else InvokeFrom(Invoke(s, env, slot, what), env, slot + 1, count, what)
  }

  function RawOnHeaders(s: State, env: Env, headers: Metadata): State {
    if s.completed then s else InvokeFrom(s, env, 0, s.onHeaders, OfHeaders(headers))
  }

  function RawOnMessage(s: State, env: Env, message: seq<byte>): State {
    if s.completed || s.closed then s
    else InvokeFrom(s.(delivered := s.delivered + [message]), env, 0, s.onMessage, OfMessage(message))
  }

  // rawOnEnd and rawOnError do the same.
  function Complete(s: State, env: Env, code: Code, text: string, trailers: Metadata): State {
    if s.completed then s
    else InvokeFrom(s.(completed := true).Log(Completed), env, 0, s.onEnd, OfEnd(code, text, trailers))
  }

  // ---- transport events ----

  function StatusOf(env: Env, headers: Metadata): Option<Code> {
    if headers.grpcStatus == [] then None else Some(env.parseInt(headers.grpcStatus[0]))
  }

  function StatusText(env: Env, headers: Metadata): string {
    if headers.grpcMessage == [] || headers.grpcMessage[0] == "" then ""
    else
      var src := headers.grpcMessage[0];
      match env.decodeURIComponent(src)
      case Some(text) => text
      case None => src
  }

  function HeadersCode(env: Env, headers: Metadata, status: nat): Code {
    match StatusOf(env, headers)
    case Some(Num(n)) => if n > 0 then Num(n) else HttpStatusToCode(status)
    case _ => HttpStatusToCode(status)
  }

  function OnTransportHeaders(s: State, env: Env, headers: Metadata, status: nat): State {
    if s.closed || status == 0 then s
    else
      var code := HeadersCode(env, headers, status);
      var t := RawOnHeaders(s.(responseHeaders := Some(headers)), env, headers);
      if code != OK then Complete(t, env, code, StatusText(env, headers), headers) else t
  }

  function OnChunk(s: State, env: Env, chunk: Chunk): State {
    match chunk
    case Message(data) => RawOnMessage(s, env, data)
    case Trailers(text) =>
      var metadata := env.parseMetadata(text);
      if s.responseHeaders == None then RawOnHeaders(s.(responseHeaders := Some(metadata)), env, metadata)
      else s.(responseTrailers := Some(metadata))
  }

  function OnChunks(s: State, env: Env, chunks: seq<Chunk>): State
    decreases chunks
  {
    if chunks == [] then s else OnChunks(OnChunk(s, env, chunks[0]), env, chunks[1..])
  }

  const PARSING_ERROR := "parsing error: Metadata is not valid (printable) ASCII"

  function OnTransportChunk(s: State, env: Env, bytes: seq<byte>): State {
    if s.closed then s
    else
      var scan := ScanFrames(s.pending + bytes);
      var t := s.(pending := scan.rest, fed := s.fed + bytes);
      if scan.threw then Complete(t, env, INTERNAL, PARSING_ERROR, NO_METADATA)
      else OnChunks(t, env, ChunksOf(scan.frames))
  }

  const NO_HEADERS := "Response closed without headers"
  const NO_STATUS_IN_HEADERS := "Response closed without grpc-status (Headers only)"
  const NO_STATUS_IN_TRAILERS := "Response closed without grpc-status (Trailers provided)"

  function OnTransportEnd(s: State, env: Env): State {
    if s.closed then s
    else
      match s.responseTrailers
      case None => (
        match s.responseHeaders
        case None => Complete(s, env, UNKNOWN, NO_HEADERS, NO_METADATA)
        case Some(headers) =>
          match StatusOf(env, headers)
          case None => Complete(s, env, UNKNOWN, NO_STATUS_IN_HEADERS, headers)
          case Some(status) => Complete(s, env, status, StatusText(env, headers), headers))
      case Some(trailers) =>
        match StatusOf(env, trailers)
        case None => Complete(s, env, INTERNAL, NO_STATUS_IN_TRAILERS, NO_METADATA)
        case Some(status) => Complete(s, env, status, StatusText(env, trailers), trailers)
  }

  // ---- runs ----

  datatype Event =
    | User(call: UserCall)
    | TransportHeaders(headers: Metadata, status: nat)
    | TransportChunk(bytes: seq<byte>)
    | TransportEnd

  function Step(s: State, env: Env, e: Event): State {
    match e
    case User(call) => Call(s, env, call)
    case TransportHeaders(headers, status) => OnTransportHeaders(s, env, headers, status)
    case TransportChunk(bytes) => OnTransportChunk(s, env, bytes)
    case TransportEnd => OnTransportEnd(s, env)
  }

  function Run(s: State, env: Env, events: seq<Event>): State
    decreases events
  {
    if events == [] then s else Run(Step(s, env, events[0]), env, events[1..])
  }
}
