/** Which messages reach the user, over all runs: only a prefix of what the whole-stream decoder
    finds in the bytes that arrived, under any cutting, any interleaving of events and any behaviour
    of the callbacks. */
module ClientDelivery {
  import opened Bytes
  import opened Framing
  import opened ChunkParsing
  import opened ParserRuns
  import opened ClientModel
  import opened ClientOrder

  /** The messages that the message callback registered `slot`-th was invoked with. */
  function MessagesTo(trace: seq<Entry>, slot: nat): seq<seq<byte>> {
    if trace == [] then []
    else
      var e := trace[|trace| - 1];
      MessagesTo(trace[..|trace| - 1], slot)
      + if e.Called? && e.slot == slot && e.what.OfMessage? then [e.what.message] else []
  }

  lemma MessagesToSnoc(trace: seq<Entry>, e: Entry, slot: nat)
    ensures MessagesTo(trace + [e], slot) == MessagesTo(trace, slot)
              + if e.Called? && e.slot == slot && e.what.OfMessage? then [e.what.message] else []
  {
    assert (trace + [e])[..|trace|] == trace;
  }

  // Everything about the download side stays, except that the call may be closed, that callbacks
  // may be added, and that the metadata may be captured.
  ghost predicate SameDownload(s: State, t: State) {
    && t.completed == s.completed && t.pending == s.pending && t.fed == s.fed
    && (s.closed ==> t.closed)
    && t.onHeaders >= s.onHeaders && t.onMessage >= s.onMessage && t.onEnd >= s.onEnd
  }

  ghost predicate Undisturbed(s: State, t: State, slot: nat) {
    && SameDownload(s, t)
    && t.delivered == s.delivered
    && MessagesTo(t.trace, slot) == MessagesTo(s.trace, slot)
  }

  lemma CallUndisturbed(s: State, env: Env, c: UserCall, slot: nat)
    ensures Undisturbed(s, Call(s, env, c), slot)
  {
    hide MessagesTo;
    MessagesToSnoc(s.trace, Refused, slot);
    match c {
      case Start => MessagesToSnoc(s.trace, ToStart, slot);
      case Send(message) => MessagesToSnoc(s.trace, ToSend(RequestFrame(message)), slot);
      case FinishSend => MessagesToSnoc(s.trace, ToFinish, slot);
      case Close => MessagesToSnoc(s.trace, ToCancel, slot);
      case _ =>
    }
  }

  lemma {:induction false} CallAllUndisturbed(s: State, env: Env, calls: seq<UserCall>, slot: nat)
    ensures Undisturbed(s, CallAll(s, env, calls), slot)
    decreases calls
  {
    hide Call, MessagesTo;
    if calls != [] {
      CallUndisturbed(s, env, calls[0], slot);
      CallAllUndisturbed(Call(s, env, calls[0]), env, calls[1..], slot);
    }
  }

  lemma InvokeDelivers(s: State, env: Env, i: nat, what: Dispatch, slot: nat)
    ensures var t := Invoke(s, env, i, what);
            && SameDownload(s, t) && t.delivered == s.delivered
            && MessagesTo(t.trace, slot)
               == MessagesTo(s.trace, slot) + if what.OfMessage? && i == slot then [what.message] else []
  {
    hide MessagesTo;
    var reaction := env.react(s.ticks);
    var s1 := s.(ticks := s.ticks + 1).Log(Called(i, what));
    MessagesToSnoc(s.trace, Called(i, what), slot);
    CallAllUndisturbed(s1, env, reaction.calls, slot);
    var t := CallAll(s1, env, reaction.calls);
    MessagesToSnoc(t.trace, Reraised, slot);
  }

  // What a dispatch to the callbacks i, ..., count - 1 adds to the messages of one of them.
  lemma {:induction false} InvokeFromDelivers(s: State, env: Env, i: nat, count: nat, what: Dispatch, slot: nat)
    requires i <= count
    ensures var t := InvokeFrom(s, env, i, count, what);
            && SameDownload(s, t) && t.delivered == s.delivered
            && if what.OfMessage? && i <= slot < count then
                 || MessagesTo(t.trace, slot) == MessagesTo(s.trace, slot) + [what.message]
                 || (t.closed && MessagesTo(t.trace, slot) == MessagesTo(s.trace, slot))
               else MessagesTo(t.trace, slot) == MessagesTo(s.trace, slot)
    decreases count - i
  {
    hide MessagesTo, Invoke;
    if i == count {
    } else if s.closed && !what.OfHeaders? {
      InvokeFromDelivers(s, env, i + 1, count, what, slot);
    } else {
      InvokeDelivers(s, env, i, what, slot);
      InvokeFromDelivers(Invoke(s, env, i, what), env, i + 1, count, what, slot);
    }
  }

  lemma CompleteDelivers(s: State, env: Env, code: Code, text: string, trailers: Metadata, slot: nat)
    ensures var t := Complete(s, env, code, text, trailers);
            && t.completed && Undisturbed(s.(completed := true), t, slot)
  {
    hide MessagesTo, InvokeFrom;
    if !s.completed {
      MessagesToSnoc(s.trace, Completed, slot);
      InvokeFromDelivers(s.(completed := true).Log(Completed), env, 0, s.onEnd, OfEnd(code, text, trailers), slot);
    }
  }

  // A message callback that was registered before the first delivery has seen every dispatched
  // message, or a prefix of them once the call is closed.
  ghost predicate SeesAll(s: State, slot: nat) {
    && slot < s.onMessage
    && MessagesTo(s.trace, slot) <= s.delivered
    && (!s.closed ==> MessagesTo(s.trace, slot) == s.delivered)
  }

  // What is kept for any slot, and for one that is watched from before the first delivery.
  ghost predicate Follows(s: State, slot: nat, watched: bool) {
    && (s.delivered == [] ==> MessagesTo(s.trace, slot) == [])
    && (watched ==> SeesAll(s, slot))
  }

  function MessagesIn(chunks: seq<Chunk>): seq<seq<byte>> {
    if chunks == [] then []
    else (if chunks[0].Message? then [chunks[0].data] else []) + MessagesIn(chunks[1..])
  }

  lemma {:induction false} MessagesInChunks(fs: seq<Frame>)
    ensures MessagesIn(ChunksOf(fs)) == MessagesOf(fs)
  {
    if fs != [] {
      assert ChunksOf(fs)[1..] == ChunksOf(fs[1..]);
      MessagesInChunks(fs[1..]);
    }
  }

  lemma OnChunkDelivers(s: State, env: Env, chunk: Chunk, slot: nat, watched: bool)
    requires Follows(s, slot, watched)
    ensures var t := OnChunk(s, env, chunk);
            && SameDownload(s, t)
            && (t.delivered ==
                    if chunk.Message? && !s.completed && !s.closed then s.delivered + [chunk.data] else s.delivered)
            && Follows(t, slot, watched)
  {
    hide InvokeFrom, MessagesTo;
    match chunk
    case Message(data) =>
      if !s.completed && !s.closed {
        InvokeFromDelivers(s.(delivered := s.delivered + [data]), env, 0, s.onMessage, OfMessage(data), slot);
      }
    case Trailers(text) =>
      var metadata := env.parseMetadata(text);
      InvokeFromDelivers(s.(responseHeaders := Some(metadata)), env, 0, s.onHeaders, OfHeaders(metadata), slot);
  }

  lemma {:induction false} OnChunksDelivers(s: State, env: Env, chunks: seq<Chunk>, slot: nat, watched: bool)
    requires Follows(s, slot, watched)
    ensures var t := OnChunks(s, env, chunks);
            && SameDownload(s, t)
            && s.delivered <= t.delivered <= s.delivered + MessagesIn(chunks)
            && (s.completed || s.closed ==> t.delivered == s.delivered)
            && (!s.completed && !t.closed ==> t.delivered == s.delivered + MessagesIn(chunks))
            && Follows(t, slot, watched)
    decreases chunks
  {
    hide OnChunk, Follows;
    if chunks == [] {
      assert s.delivered + [] == s.delivered;
    } else {
      OnChunkDelivers(s, env, chunks[0], slot, watched);
      var t := OnChunk(s, env, chunks[0]);
      OnChunksDelivers(t, env, chunks[1..], slot, watched);
      if s.completed || s.closed {
        assert s.delivered <= s.delivered + MessagesIn(chunks);
      } else {
        assert t.delivered + MessagesIn(chunks[1..]) == s.delivered + MessagesIn(chunks);
      }
    }
  }

  function Decodable(s: seq<byte>): seq<seq<byte>> { MessagesOf(DecodeAll(s).frames) }

  /** The accounting that every step keeps: the parser is where the whole-stream decoder would be,
      what was dispatched is a prefix of what the bytes hold, and as long as the call is neither
      completed nor closed, nothing is missing but what is still pending. */
  ghost predicate Accounted(s: State) {
    && DecodeAll(s.pending).rest == DecodeAll(s.fed).rest
    && s.delivered <= Decodable(s.fed)
    && (!s.completed && !s.closed ==> s.delivered + Decodable(s.pending) == Decodable(s.fed))
  }

  // What arriving bytes add, on the side of the parser and on the side of the whole-stream decoder.
  lemma BytesArrive(s: State, bytes: seq<byte>)
    requires Accounted(s)
    ensures var scan := ScanFrames(s.pending + bytes);
            && DecodeAll(scan.rest).rest == DecodeAll(s.fed + bytes).rest
            && Decodable(s.fed) <= Decodable(s.fed + bytes)
            && (!s.completed && !s.closed ==>
                 s.delivered + MessagesOf(scan.frames) + Decodable(scan.rest) == Decodable(s.fed + bytes))
  {
    hide DecodeAll, ScanFrames, MessagesOf;
    var scan := ScanFrames(s.pending + bytes);
    var rest := DecodeAll(s.fed).rest;
    var more := DecodeAll(rest + bytes).frames;
    DecodeAppend(s.fed, bytes);
    DecodeAppend(s.pending, bytes);
    ScanConserves(s.pending + bytes);
    MessagesOfConcat(DecodeAll(s.fed).frames, more);
    MessagesOfConcat(DecodeAll(s.pending).frames, more);
    MessagesOfConcat(scan.frames, DecodeAll(scan.rest).frames);
    if !s.completed && !s.closed {
      calc {
        s.delivered + MessagesOf(scan.frames) + Decodable(scan.rest);
        s.delivered + (MessagesOf(scan.frames) + Decodable(scan.rest));
        s.delivered + (Decodable(s.pending) + MessagesOf(more));
        s.delivered + Decodable(s.pending) + MessagesOf(more);
        Decodable(s.fed + bytes);
      }
    }
  }

  lemma ChunkStepAccounted(s: State, env: Env, bytes: seq<byte>, slot: nat, watched: bool)
    requires Accounted(s) && Follows(s, slot, watched)
    ensures var t := OnTransportChunk(s, env, bytes);
            Accounted(t) && Follows(t, slot, watched)
  {
    hide DecodeAll, ScanFrames, MessagesOf, MessagesTo, Decodable, Complete, OnChunks;
    if !s.closed {
      var scan := ScanFrames(s.pending + bytes);
      var t := s.(pending := scan.rest, fed := s.fed + bytes);
      BytesArrive(s, bytes);
      if scan.threw {
        CompleteDelivers(t, env, INTERNAL, PARSING_ERROR, NO_METADATA, slot);
      } else {
        OnChunksDelivers(t, env, ChunksOf(scan.frames), slot, watched);
        MessagesInChunks(scan.frames);
        assert s.delivered + MessagesOf(scan.frames) <= s.delivered + MessagesOf(scan.frames) + Decodable(scan.rest);
      }
    }
  }

  lemma StepAccounted(s: State, env: Env, e: Event, slot: nat, watched: bool)
    requires Accounted(s) && Follows(s, slot, watched)
    ensures var t := Step(s, env, e);
            Accounted(t) && Follows(t, slot, watched)
  {
    hide DecodeAll, ScanFrames, MessagesOf, MessagesTo, Decodable, Complete, InvokeFrom, OnChunks;
    match e
    case User(call) =>
      CallAllUndisturbed(s, env, [call], slot);
      assert CallAll(s, env, [call]) == Call(s, env, call);
    case TransportHeaders(headers, status) =>
      var s1 := s.(responseHeaders := Some(headers));
      InvokeFromDelivers(s1, env, 0, s.onHeaders, OfHeaders(headers), slot);
      CompleteDelivers(RawOnHeaders(s1, env, headers), env, HeadersCode(env, headers, status), StatusText(env, headers),
                       headers, slot);
    case TransportChunk(bytes) =>
      ChunkStepAccounted(s, env, bytes, slot, watched);
    case TransportEnd =>
      EndDelivers(s, env, slot);
  }

  // An open client feeds every chunk to the parser, a closed one none.
  lemma StepFed(s: State, env: Env, e: Event)
    ensures Step(s, env, e).fed == s.fed + if e.TransportChunk? && !s.closed then e.bytes else []
    ensures s.closed ==> Step(s, env, e).closed
  {
    hide ScanFrames, Complete, OnChunks, InvokeFrom;
    match e
    case User(call) => CallUndisturbed(s, env, call, 0);
    case TransportHeaders(headers, status) =>
      var s1 := s.(responseHeaders := Some(headers));
      InvokeFromDelivers(s1, env, 0, s.onHeaders, OfHeaders(headers), 0);
      CompleteDelivers(RawOnHeaders(s1, env, headers), env, HeadersCode(env, headers, status), StatusText(env, headers),
                       headers, 0);
    case TransportChunk(bytes) =>
      var scan := ScanFrames(s.pending + bytes);
      var t := s.(pending := scan.rest, fed := s.fed + bytes);
      CompleteDelivers(t, env, INTERNAL, PARSING_ERROR, NO_METADATA, 0);
      OnChunksSameDownload(t, env, ChunksOf(scan.frames));
    case TransportEnd => EndDelivers(s, env, 0);
  }

  lemma {:induction false} OnChunksSameDownload(s: State, env: Env, chunks: seq<Chunk>)
    ensures SameDownload(s, OnChunks(s, env, chunks))
    decreases chunks
  {
    if chunks != [] {
      match chunks[0] {
        case Message(data) =>
          InvokeFromDelivers(s.(delivered := s.delivered + [data]), env, 0, s.onMessage, OfMessage(data), 0);
        case Trailers(text) =>
          var metadata := env.parseMetadata(text);
          InvokeFromDelivers(s.(responseHeaders := Some(metadata)), env, 0, s.onHeaders, OfHeaders(metadata), 0);
      }
      OnChunksSameDownload(OnChunk(s, env, chunks[0]), env, chunks[1..]);
    }
  }

  lemma EndDelivers(s: State, env: Env, slot: nat)
    ensures OnTransportEnd(s, env) == s || Undisturbed(s.(completed := true), OnTransportEnd(s, env), slot)
  {
    hide MessagesTo, Complete;
    CompleteDelivers(s, env, UNKNOWN, NO_HEADERS, NO_METADATA, slot);
    CompleteDelivers(s, env, INTERNAL, NO_STATUS_IN_TRAILERS, NO_METADATA, slot);
    if s.responseHeaders.Some? {
      var headers := s.responseHeaders.value;
      CompleteDelivers(s, env, UNKNOWN, NO_STATUS_IN_HEADERS, headers, slot);
      if headers.grpcStatus != [] {
        CompleteDelivers(s, env, StatusOf(env, headers).value, StatusText(env, headers), headers, slot);
      }
    }
    if s.responseTrailers.Some? && s.responseTrailers.value.grpcStatus != [] {
      var trailers := s.responseTrailers.value;
      CompleteDelivers(s, env, StatusOf(env, trailers).value, StatusText(env, trailers), trailers, slot);
    }
  }

  /** The bytes that the transport delivered in a run. */
  function Arrived(events: seq<Event>): seq<byte> {
    if events == [] then []
    else (if events[0].TransportChunk? then events[0].bytes else []) + Arrived(events[1..])
  }

  lemma {:induction false} RunAccounted(s: State, env: Env, events: seq<Event>, slot: nat, watched: bool)
    requires Accounted(s) && Follows(s, slot, watched)
    ensures Accounted(Run(s, env, events)) && Follows(Run(s, env, events), slot, watched)
    decreases events
  {
    hide Accounted, Follows, Step;
    if events != [] {
      StepAccounted(s, env, events[0], slot, watched);
      RunAccounted(Step(s, env, events[0]), env, events[1..], slot, watched);
    }
  }

  lemma {:induction false} RunFed(s: State, env: Env, events: seq<Event>)
    ensures var t := Run(s, env, events);
            && t.fed <= s.fed + Arrived(events)
            && (s.closed ==> t.closed && t.fed == s.fed)
            && (!t.closed ==> t.fed == s.fed + Arrived(events))
    decreases events
  {
    hide Step;
    if events == [] {
      assert s.fed + [] == s.fed;
    } else {
      var e, t := events[0], Step(s, env, events[0]);
      var bytes, rest := if e.TransportChunk? then e.bytes else [], Arrived(events[1..]);
      StepFed(s, env, e);
      RunFed(t, env, events[1..]);
      Reassociate(s.fed, bytes, rest);
    }
  }

  lemma Reassociate<T>(a: seq<T>, b: seq<T>, c: seq<T>)
    ensures (a + b) + c == a + (b + c) && a <= a + (b + c) && a + [] == a
  {
  }

  /** Prefix safety: for any byte stream, any cutting, any interleaving with headers, end and user
      events and any callbacks, the dispatched messages are a prefix of the messages that the
      whole-stream decoder finds in the bytes that arrived. */
  lemma PrefixSafety(env: Env, events: seq<Event>)
    ensures Run(FRESH, env, events).delivered <= Decodable(Arrived(events))
  {
    hide Run, Arrived, Accounted;
    FreshAccounted(0);
    RunAccounted(FRESH, env, events, 0, false);
    RunFed(FRESH, env, events);
    var t := Run(FRESH, env, events);
    assert [] + Arrived(events) == Arrived(events);
    DecodablePrefix(t.fed, Arrived(events));
    assert t.delivered <= Decodable(t.fed) by { DeliveredIsDecodable(t); }
  }

  lemma DeliveredIsDecodable(s: State)
    requires Accounted(s)
    ensures s.delivered <= Decodable(s.fed)
  {
  }

  lemma FreshAccounted(slot: nat)
    ensures Accounted(FRESH) && Follows(FRESH, slot, false) && Decodable([]) == []
  {
    assert DecodeAll([]) == Decoded([], []);
  }

  lemma DecodablePrefix(a: seq<byte>, b: seq<byte>)
    requires a <= b
    ensures Decodable(a) <= Decodable(b)
  {
    hide DecodeAll, MessagesOf;
    var more := b[|a|..];
    assert a + more == b;
    DecodeAppend(a, more);
    MessagesOfConcat(DecodeAll(a).frames, DecodeAll(DecodeAll(a).rest + more).frames);
  }

  /** The same for one callback: registered before any bytes, a message callback is invoked with a
      prefix of the decodable messages, and as long as the call is open with every message dispatched. */
  lemma EachCallbackSeesAPrefix(env: Env, before: seq<Event>, after: seq<Event>, slot: nat)
    requires Arrived(before) == [] && slot < Run(FRESH, env, before).onMessage
    ensures var t := Run(FRESH, env, before + after);
            && MessagesTo(t.trace, slot) <= Decodable(Arrived(after))
            && (!t.closed ==> MessagesTo(t.trace, slot) == t.delivered)
            && (!t.closed && !t.completed ==> t.delivered + Decodable(t.pending) == Decodable(Arrived(after)))
  {
    hide Arrived, Step, Run, MessagesTo, DecodeAll;
    var s, t := Run(FRESH, env, before), Run(FRESH, env, before + after);
    FreshAccounted(slot);
    RunAccounted(FRESH, env, before, slot, false);
    RunFed(FRESH, env, before);
    assert [] + Arrived(before) == [] && s.fed == [];
    RunConcat(env, FRESH, before, after);
    RunAccounted(s, env, after, slot, true);
    RunFed(s, env, after);
    assert [] + Arrived(after) == Arrived(after);
    DecodablePrefix(t.fed, Arrived(after));
  }
}
