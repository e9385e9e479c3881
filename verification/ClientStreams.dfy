/** Requests that go on while the response arrives, as in a bidirectional stream: starting, sending and finishing
    between the transport's events make no difference to the callbacks of a client whose callbacks are quiet. */
module ClientStreams {
  import opened Bytes
  import opened Framing
  import opened ChunkParsing
  import opened ClientModel
  import opened ClientDownload

  predicate QuietCallOnly(c: UserCall) { c.Start? || c.Send? || c.FinishSend? }

  /** What a client's callbacks can tell: its state without the flags of the sending side, and with the callbacks of its
      trace alone. */
  function View(s: State): State {
    s.(started := false, sentFirstMessage := false, finishedSending := false, trace := Callbacks(s.trace))
  }

  lemma CallKeepsView(s: State, env: Env, c: UserCall)
    requires QuietCallOnly(c)
    ensures View(Call(s, env, c)) == View(s)
  {
    hide Callbacks, RequestFrame;
    QuietCall(s, env, c);
  }

  lemma {:induction false} CallsKeepView(s: State, env: Env, calls: seq<UserCall>)
    requires forall c | c in calls :: QuietCallOnly(c)
    ensures View(CallAll(s, env, calls)) == View(s)
    decreases calls
  {
    hide View, Call;
    if calls != [] {
      CallKeepsView(s, env, calls[0]);
      CallsKeepView(Call(s, env, calls[0]), env, calls[1..]);
    }
  }

  // One callback, as its surroundings see it.
  lemma InvokeView(s: State, env: Env, slot: nat, what: Dispatch)
    requires Quiet(env)
    ensures View(Invoke(s, env, slot, what)) == View(s).(ticks := s.ticks + 1).Log(Called(slot, what))
  {
    hide Callbacks, CallAll;
    var reaction := env.react(s.ticks);
    var s1 := s.(ticks := s.ticks + 1).Log(Called(slot, what));
    var t := CallAll(s1, env, reaction.calls);
    CallbacksSnoc(s.trace, Called(slot, what));
    CallbacksSnoc(t.trace, Reraised);
    assert forall c | c in reaction.calls :: QuietCallOnly(c);
    CallsKeepView(s1, env, reaction.calls);
    assert Callbacks(t.trace) + [] == Callbacks(t.trace);
  }

  lemma {:induction false} InvokeFromView(s: State, t: State, env: Env, slot: nat, count: nat, what: Dispatch)
    requires Quiet(env) && View(s) == View(t) && slot <= count
    ensures View(InvokeFrom(s, env, slot, count, what)) == View(InvokeFrom(t, env, slot, count, what))
    decreases count - slot
  {
    hide Invoke, Callbacks, Quiet;
    if slot < count {
      if s.closed && !what.OfHeaders? {
        InvokeFromView(s, t, env, slot + 1, count, what);
      } else {
        InvokeView(s, env, slot, what);
        InvokeView(t, env, slot, what);
        InvokeFromView(Invoke(s, env, slot, what), Invoke(t, env, slot, what), env, slot + 1, count, what);
      }
    }
  }

  lemma HeadersView(s: State, t: State, env: Env, headers: Metadata)
    requires Quiet(env) && View(s) == View(t)
    ensures View(RawOnHeaders(s, env, headers)) == View(RawOnHeaders(t, env, headers))
  {
    hide InvokeFrom, Callbacks, Quiet;
    InvokeFromView(s, t, env, 0, s.onHeaders, OfHeaders(headers));
  }

  lemma CompleteView(s: State, t: State, env: Env, code: Code, text: string, trailers: Metadata)
    requires Quiet(env) && View(s) == View(t)
    ensures View(Complete(s, env, code, text, trailers)) == View(Complete(t, env, code, text, trailers))
  {
    hide InvokeFrom, Callbacks, Quiet;
    CallbacksSnoc(s.trace, Completed);
    CallbacksSnoc(t.trace, Completed);
    InvokeFromView(s.(completed := true).Log(Completed), t.(completed := true).Log(Completed), env, 0, s.onEnd,
                   OfEnd(code, text, trailers));
  }

  lemma ChunkView(s: State, t: State, env: Env, chunk: Chunk)
    requires Quiet(env) && View(s) == View(t)
    ensures View(OnChunk(s, env, chunk)) == View(OnChunk(t, env, chunk))
  {
    hide InvokeFrom, Callbacks, Quiet, RawOnHeaders;
    match chunk
    case Message(data) =>
      InvokeFromView(s.(delivered := s.delivered + [data]), t.(delivered := t.delivered + [data]), env, 0, s.onMessage,
                     OfMessage(data));
    case Trailers(text) =>
      var metadata := env.parseMetadata(text);
      HeadersView(s.(responseHeaders := Some(metadata)), t.(responseHeaders := Some(metadata)), env, metadata);
  }

  lemma {:induction false} ChunksView(s: State, t: State, env: Env, chunks: seq<Chunk>)
    requires Quiet(env) && View(s) == View(t)
    ensures View(OnChunks(s, env, chunks)) == View(OnChunks(t, env, chunks))
    decreases chunks
  {
    hide OnChunk, View, Quiet;
    if chunks != [] {
      ChunkView(s, t, env, chunks[0]);
      ChunksView(OnChunk(s, env, chunks[0]), OnChunk(t, env, chunks[0]), env, chunks[1..]);
    }
  }

  // What the transport does to a client it does to every client of the same view.
  lemma EventView(s: State, t: State, env: Env, e: Event)
    requires Quiet(env) && View(s) == View(t) && !e.User?
    ensures View(Step(s, env, e)) == View(Step(t, env, e))
  {
    hide Callbacks, Quiet, Complete, RawOnHeaders, OnChunks, ScanFrames, StatusText, StatusOf, HeadersCode;
    match e
    case TransportHeaders(headers, status) =>
      var s1, t1 := s.(responseHeaders := Some(headers)), t.(responseHeaders := Some(headers));
      HeadersView(s1, t1, env, headers);
      CompleteView(RawOnHeaders(s1, env, headers), RawOnHeaders(t1, env, headers), env,
                   HeadersCode(env, headers, status), StatusText(env, headers), headers);
    case TransportChunk(bytes) =>
      var scan := ScanFrames(s.pending + bytes);
      var s1, t1 := s.(pending := scan.rest, fed := s.fed + bytes), t.(pending := scan.rest, fed := t.fed + bytes);
      CompleteView(s1, t1, env, INTERNAL, PARSING_ERROR, NO_METADATA);
      ChunksView(s1, t1, env, ChunksOf(scan.frames));
    case TransportEnd =>
      forall code, text, md ensures View(Complete(s, env, code, text, md)) == View(Complete(t, env, code, text, md)) {
        CompleteView(s, t, env, code, text, md);
      }
  }

  lemma StepCalls(s: State, env: Env, e: Event)
    requires e.User?
    ensures Step(s, env, e) == Call(s, env, e.call)
  {
  }

  function TransportOnly(events: seq<Event>): seq<Event> {
    if events == [] then [] else (if events[0].User? then [] else [events[0]]) + TransportOnly(events[1..])
  }

  /** The transport's events, with any starting, sending and finishing between them. */
  ghost predicate Interleaves(events: seq<Event>, transport: seq<Event>) {
    && (forall e | e in events && e.User? :: QuietCallOnly(e.call))
    && TransportOnly(events) == transport
  }

  /** Starting, sending and finishing at any time, allowed or refused, change nothing of what the callbacks see, on
      any run of any events of the transport, closed or completed or not. */
  lemma {:induction false} SendingChangesNothing(s: State, t: State, env: Env, events: seq<Event>)
    requires Quiet(env) && View(s) == View(t) && Interleaves(events, TransportOnly(events))
    ensures View(Run(s, env, events)) == View(Run(t, env, TransportOnly(events)))
    decreases |events|
  {
    hide View, Quiet, Step;
    if events != [] {
      var e, rest := events[0], events[1..];
      assert forall x | x in rest :: x in events;
      if e.User? {
        CallKeepsView(s, env, e.call);
        assert Step(s, env, e) == Call(s, env, e.call) by { StepCalls(s, env, e); }
        assert TransportOnly(events) == TransportOnly(rest);
        SendingChangesNothing(Step(s, env, e), t, env, rest);
      } else {
        EventView(s, t, env, e);
        SendingChangesNothing(Step(s, env, e), Step(t, env, e), env, rest);
        assert TransportOnly(events)[0] == e && TransportOnly(events)[1..] == TransportOnly(rest);
      }
    }
  }

  /** So whatever holds of the outcome of a download holds with such calls between its events. */
  lemma StreamsAlike(s: State, env: Env, events: seq<Event>, transport: seq<Event>, headers: Metadata,
                     messages: seq<seq<byte>>, code: Code, last: Metadata)
    requires Quiet(env) && Interleaves(events, transport)
    ensures RunsExactly(env, s, Run(s, env, events), headers, messages, code, last)
       <==> RunsExactly(env, s, Run(s, env, transport), headers, messages, code, last)
  {
    hide Run, Callbacks, Quiet, TransportOnly, ToAll, ToEach;
    SendingChangesNothing(s, s, env, events);
    var a, b := Run(s, env, events), Run(s, env, transport);
    assert View(a).trace == View(b).trace && View(a).completed == View(b).completed && View(a).closed == View(b).closed
        && View(a).pending == View(b).pending;
  }
}
