/** The client object: flags, callback arrays and parser, updated in place by transport events
    and user calls. Every method is proved to do what ClientModel says. */
module GrpcClients {
  import opened Bytes
  import opened Framing
  import opened ChunkParsing
  import opened ClientModel

  class GrpcClient {
    const env: Env

    var started: bool
    var sentFirstMessage: bool
    var completed: bool
    var closed: bool
    var finishedSending: bool

    // The lengths of the three callback arrays.
    var onHeadersCallbacks: nat
    var onMessageCallbacks: nat
    var onEndCallbacks: nat

    const parser: ChunkParser

    var responseHeaders: Option<Metadata>
    var responseTrailers: Option<Metadata>

    // How many callback invocations there have been, and everything the client did to its surroundings.
    var ticks: nat
    var trace: seq<Entry>

    ghost var fed: seq<byte>
    ghost var delivered: seq<seq<byte>>

    ghost predicate Valid()
      reads this, parser
    {
      parser.Valid()
    }

    ghost function State(): State
      requires Valid()
      reads this, parser, parser.buffer
    {
      ClientModel.State(started, sentFirstMessage, completed, closed, finishedSending,
                        onHeadersCallbacks, onMessageCallbacks, onEndCallbacks, parser.Pending(),
                        responseHeaders, responseTrailers, ticks, trace, fed, delivered)
    }

    constructor (env: Env)
      ensures Valid() && fresh(parser) && State() == FRESH && this.env == env
    {
      this.env := env;
      started, sentFirstMessage, completed, closed, finishedSending := false, false, false, false, false;
      onHeadersCallbacks, onMessageCallbacks, onEndCallbacks := 0, 0, 0;
      parser := new ChunkParser();
      responseHeaders, responseTrailers := None, None;
      ticks, trace, fed, delivered := 0, [], [], [];
    }

    method OnTransportHeaders(headers: Metadata, status: nat)
      requires Valid()
      modifies this
      ensures Valid() && State() == ClientModel.OnTransportHeaders(old(State()), env, headers, status)
    {
      if closed {
        return;
      }
      if status == 0 {
        // The request failed for lack of connectivity: do not capture the headers.
      } else {
        responseHeaders := Some(headers);
        var code := HeadersCode(env, headers, status);
        RawOnHeaders(headers);
        if code != OK {
          RawOnError(code, StatusText(env, headers), headers);
        }
      }
    }

    method OnTransportChunk(chunkBytes: array<byte>)
      requires Valid()
      modifies this, parser
      ensures Valid() && State() == ClientModel.OnTransportChunk(old(State()), env, chunkBytes[..])
    {
      if closed {
        return;
      }
      fed := fed + chunkBytes[..];
      var data := parser.Parse(chunkBytes);
      if data == None {
        RawOnError(INTERNAL, PARSING_ERROR);
        return;
      }
      ForEachChunk(data.value);
    }

    method ForEachChunk(chunks: seq<Chunk>)
      requires Valid()
      modifies this
      ensures Valid() && State() == OnChunks(old(State()), env, chunks)
    {
      ghost var start := State();
      for i := 0 to |chunks|
        invariant Valid()
        invariant OnChunks(State(), env, chunks[i..]) == OnChunks(start, env, chunks)
      {
        assert chunks[i..][0] == chunks[i] && chunks[i..][1..] == chunks[i + 1..];
        match chunks[i]
        case Message(data) => RawOnMessage(data);
        case Trailers(text) =>
          if responseHeaders == None {
            responseHeaders := Some(env.parseMetadata(text));
            RawOnHeaders(responseHeaders.value);
          } else {
            responseTrailers := Some(env.parseMetadata(text));
          }
      }
    }

    method OnTransportEnd()
      requires Valid()
      modifies this
      ensures Valid() && State() == ClientModel.OnTransportEnd(old(State()), env)
    {
      if closed {
        return;
      }
      if responseTrailers == None {
        if responseHeaders == None {
          RawOnError(UNKNOWN, NO_HEADERS);
          return;
        }
        var headersStatus := StatusOf(env, responseHeaders.value);
        if headersStatus == None {
          RawOnEnd(UNKNOWN, NO_STATUS_IN_HEADERS, responseHeaders.value);
          return;
        }
        RawOnEnd(headersStatus.value, StatusText(env, responseHeaders.value), responseHeaders.value);
        return;
      }
      var grpcStatus := StatusOf(env, responseTrailers.value);
      if grpcStatus == None {
        RawOnError(INTERNAL, NO_STATUS_IN_TRAILERS);
        return;
      }
      RawOnEnd(grpcStatus.value, StatusText(env, responseTrailers.value), responseTrailers.value);
    }

    // Runs one callback; what it throws is caught and thrown again from a timer.
    method Callback(slot: nat, what: Dispatch)
      requires Valid()
      modifies this
      ensures Valid() && State() == Invoke(old(State()), env, slot, what)
    {
      var reaction := env.react(ticks);
      ticks := ticks + 1;
      trace := trace + [Called(slot, what)];
      ghost var start := State();
      for i := 0 to |reaction.calls|
        invariant Valid()
        invariant CallAll(State(), env, reaction.calls[i..]) == CallAll(start, env, reaction.calls)
      {
        assert reaction.calls[i..][0] == reaction.calls[i] && reaction.calls[i..][1..] == reaction.calls[i + 1..];
        UserCalls(reaction.calls[i]);
      }
      if reaction.throws {
        trace := trace + [Reraised];
      }
    }

    method RawOnEnd(code: Code, message: string, trailers: Metadata)
      requires Valid()
      modifies this
      ensures Valid() && State() == Complete(old(State()), env, code, message, trailers)
    {
      if completed {
        return;
      }
      completed := true;
      trace := trace + [Completed];
      var count := onEndCallbacks;
      ghost var start := State();
      for i := 0 to count
        invariant Valid()
        invariant InvokeFrom(State(), env, i, count, OfEnd(code, message, trailers))
               == InvokeFrom(start, env, 0, count, OfEnd(code, message, trailers))
      {
        if !closed {
          Callback(i, OfEnd(code, message, trailers));
        }
      }
    }

    method RawOnHeaders(headers: Metadata)
      requires Valid()
      modifies this
      ensures Valid() && State() == ClientModel.RawOnHeaders(old(State()), env, headers)
    {
      if completed {
        return;
      }
      var count := onHeadersCallbacks;
      ghost var start := State();
      for i := 0 to count
        invariant Valid()
        invariant InvokeFrom(State(), env, i, count, OfHeaders(headers))
                  == InvokeFrom(start, env, 0, count, OfHeaders(headers))
      {
        Callback(i, OfHeaders(headers));
      }
    }

    method RawOnError(code: Code, msg: string, trailers: Metadata := NO_METADATA)
      requires Valid()
      modifies this
      ensures Valid() && State() == Complete(old(State()), env, code, msg, trailers)
    {
      if completed {
        return;
      }
      completed := true;
      trace := trace + [Completed];
      var count := onEndCallbacks;
      ghost var start := State();
      for i := 0 to count
        invariant Valid()
        invariant InvokeFrom(State(), env, i, count, OfEnd(code, msg, trailers))
               == InvokeFrom(start, env, 0, count, OfEnd(code, msg, trailers))
      {
        if !closed {
          Callback(i, OfEnd(code, msg, trailers));
        }
      }
    }

    method RawOnMessage(res: seq<byte>)
      requires Valid()
      modifies this
      ensures Valid() && State() == ClientModel.RawOnMessage(old(State()), env, res)
    {
      if completed || closed {
        return;
      }
      delivered := delivered + [res];
      var count := onMessageCallbacks;
      ghost var start := State();
      for i := 0 to count
        invariant Valid()
        invariant InvokeFrom(State(), env, i, count, OfMessage(res)) == InvokeFrom(start, env, 0, count, OfMessage(res))
      {
        if !closed {
          Callback(i, OfMessage(res));
        }
      }
    }

    // A user call; one that throws leaves `Refused` in the trace.
    method UserCalls(c: UserCall)
      requires Valid()
      modifies this
      ensures Valid() && State() == Call(old(State()), env, c)
    {
      match c
      case Start => Start();
      case Send(message) => Send(message);
      case FinishSend => FinishSend();
      case Close => Close();
      case OnHeaders => onHeadersCallbacks := onHeadersCallbacks + 1;
      case OnMessage => onMessageCallbacks := onMessageCallbacks + 1;
      case OnEnd => onEndCallbacks := onEndCallbacks + 1;
    }

    method Start()
      requires Valid()
      modifies this
      ensures Valid() && State() == Call(old(State()), env, UserCall.Start)
    {
      if started {
        trace := trace + [Refused];
        return;
      }
      started := true;
      trace := trace + [ToStart];
    }

    method Send(msg: seq<byte>)
      requires Valid()
      modifies this
      ensures Valid() && State() == Call(old(State()), env, UserCall.Send(msg))
    {
      if !started {
        trace := trace + [Refused];
        return;
      }
      if closed {
        trace := trace + [Refused];
        return;
      }
      if finishedSending {
        trace := trace + [Refused];
        return;
      }
      if !env.requestStream && sentFirstMessage {
        trace := trace + [Refused];
        return;
      }
      sentFirstMessage := true;
      trace := trace + [ToSend(RequestFrame(msg))];
    }

    method FinishSend()
      requires Valid()
      modifies this
      ensures Valid() && State() == Call(old(State()), env, UserCall.FinishSend)
    {
      if !started {
        trace := trace + [Refused];
        return;
      }
      if closed {
        trace := trace + [Refused];
        return;
      }
      if finishedSending {
        trace := trace + [Refused];
        return;
      }
      finishedSending := true;
      trace := trace + [ToFinish];
    }

    method Close()
      requires Valid()
      modifies this
      ensures Valid() && State() == Call(old(State()), env, UserCall.Close)
    {
      if !started {
        trace := trace + [Refused];
        return;
      }
      if !closed {
        closed := true;
        trace := trace + [ToCancel];
      } else {
        trace := trace + [Refused];
      }
    }
  }
}
