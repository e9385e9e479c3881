/** What every run of the client keeps, whatever the transport delivers, whatever the user calls,
    and whatever the callbacks do: the order of everything that can be seen from outside. */
module ClientOrder {
  import opened Bytes
  import opened Framing
  import opened ChunkParsing
  import opened ClientModel

  predicate Outbound(e: Entry) { e.ToStart? || e.ToSend? || e.ToFinish? || e.ToCancel? }

  predicate CallsEnd(e: Entry) { e.Called? && e.what.OfEnd? }

  /** Whether `later` may come somewhere after `earlier`. */
  predicate MayFollow(env: Env, earlier: Entry, later: Entry) {
    // start is the first call on the transport
    && (Outbound(earlier) ==> !later.ToStart?)
    // one message only if the request is not a stream, none after finishSend, one finishSend
    && (earlier.ToSend? && !env.requestStream ==> !later.ToSend?)
    && (earlier.ToFinish? ==> !later.ToSend? && !later.ToFinish?)
    // nothing goes out after cancel, and no message or end callback starts
    && (earlier.ToCancel? ==> !Outbound(later) && !(later.Called? && !later.what.OfHeaders?))
    // the call completes once, and from then on only end callbacks start
    && (earlier.Completed? ==> !later.Completed? && !(later.Called? && !later.what.OfEnd?))
    // end callbacks start after completion, each at most once, in the order of registration
    && (CallsEnd(earlier) ==> !later.Completed? && (CallsEnd(later) ==> earlier.slot < later.slot))
  }

  ghost predicate WellOrdered(env: Env, trace: seq<Entry>) {
    forall i, j | 0 <= i < j < |trace| :: MayFollow(env, trace[i], trace[j])
  }

  // The argument of every sendMessage is a framed message.
  predicate Framed(frame: seq<byte>) {
    |frame| >= HEADER_SIZE && frame == RequestFrame(frame[HEADER_SIZE..])
  }

  // The flags say which entries there have been.
  predicate Recorded(s: State, e: Entry) {
    && (Outbound(e) ==> s.started)
    && (e.ToSend? ==> s.sentFirstMessage && Framed(e.frame))
    && (e.ToFinish? ==> s.finishedSending)
    && (e.ToCancel? ==> s.closed)
    && (e.Completed? || CallsEnd(e) ==> s.completed)
  }

  ghost predicate Inv(env: Env, s: State) {
    && WellOrdered(env, s.trace)
    && (forall e | e in s.trace :: Recorded(s, e))
    && (s.started ==> ToStart in s.trace)
    && (s.finishedSending ==> ToFinish in s.trace)
    && (s.closed ==> ToCancel in s.trace)
    && (s.completed ==> Completed in s.trace)
  }

  ghost predicate EndSlotsBelow(s: State, slot: nat) {
    forall e | e in s.trace && CallsEnd(e) :: e.slot < slot
  }

  lemma LogKeepsOrder(env: Env, trace: seq<Entry>, e: Entry)
    requires WellOrdered(env, trace)
    requires forall a | a in trace :: MayFollow(env, a, e)
    ensures WellOrdered(env, trace + [e])
  {
    var t := trace + [e];
    forall i, j | 0 <= i < j < |t| ensures MayFollow(env, t[i], t[j]) {
      if j == |trace| { assert trace[i] in trace; }
    }
  }

  // Flags only ever go up.
  predicate FlagsGrow(s: State, t: State) {
    && (s.started ==> t.started)
    && (s.sentFirstMessage ==> t.sentFirstMessage)
    && (s.finishedSending ==> t.finishedSending)
    && (s.closed ==> t.closed)
    && (s.completed ==> t.completed)
  }

  // One more entry, together with the flags it sets.
  lemma EntryKeeps(env: Env, s: State, t: State, e: Entry)
    requires Inv(env, s) && FlagsGrow(s, t) && t.trace == s.trace + [e]
    requires forall a | Recorded(s, a) :: MayFollow(env, a, e)
    requires Recorded(t, e)
    requires t.started && !s.started ==> e.ToStart?
    requires t.finishedSending && !s.finishedSending ==> e.ToFinish?
    requires t.closed && !s.closed ==> e.ToCancel?
    requires t.completed && !s.completed ==> e.Completed?
    ensures Inv(env, t)
  {
    LogKeepsOrder(env, s.trace, e);
    forall a | a in t.trace ensures Recorded(t, a) {
      assert a in s.trace || a == e;
    }
    assert forall a | a in s.trace :: a in t.trace;
    assert t.trace[|s.trace|] == e && e in t.trace;
  }

  lemma CallKeeps(env: Env, s: State, c: UserCall, slot: nat)
    requires Inv(env, s) && EndSlotsBelow(s, slot)
    ensures var t := Call(s, env, c);
            Inv(env, t) && EndSlotsBelow(t, slot) && t.completed == s.completed && FlagsGrow(s, t)
  {
    hide Inv;
    var t := Call(s, env, c);
    if c.OnHeaders? || c.OnMessage? || c.OnEnd? {
      SameTraceKeeps(env, s, t);
    } else {
      CallLogs(env, s, c);
      hide Call;
      var e := t.trace[|s.trace|];
      assert forall a :: a in t.trace <==> a in s.trace || a == e;
    }
  }

  // A call that is not a registration leaves one entry.
  lemma CallLogs(env: Env, s: State, c: UserCall)
    requires Inv(env, s) && !c.OnHeaders? && !c.OnMessage? && !c.OnEnd?
    ensures var t := Call(s, env, c);
            && Inv(env, t) && t.completed == s.completed && FlagsGrow(s, t)
            && |t.trace| > |s.trace| && t.trace == s.trace + [t.trace[|s.trace|]] && !t.trace[|s.trace|].Called?
  {
    hide Inv, Framed, RequestFrame;
    var t := Call(s, env, c);
    var e := t.trace[|s.trace|];
    assert t.trace == s.trace + [e];
    MayLog(env, s, e);
    hide MayFollow;
    if c.Send? {
      RequestIsFramed(c.message);
    }
    EntryKeeps(env, s, t, e);
  }

  // What the guards of a call let through.
  lemma MayLog(env: Env, s: State, e: Entry)
    requires match e
             case ToStart => !s.started
             case ToSend(_) => !s.closed && !s.finishedSending && (env.requestStream || !s.sentFirstMessage)
             case ToFinish => !s.closed && !s.finishedSending
             case ToCancel => !s.closed
             case Refused => true
             case _ => false
    ensures forall a | Recorded(s, a) :: MayFollow(env, a, e)
  {
    hide Framed;
  }

  lemma RequestIsFramed(message: seq<byte>)
    ensures Framed(RequestFrame(message)) && RequestFrame(message)[HEADER_SIZE..] == message
  {
    hide U32BE;
    assert RequestFrame(message)[HEADER_SIZE..] == message;
  }

  lemma SameTraceKeeps(env: Env, s: State, t: State)
    requires Inv(env, s) && t.trace == s.trace
    requires s.started == t.started && s.sentFirstMessage == t.sentFirstMessage && s.closed == t.closed
    requires s.finishedSending == t.finishedSending && s.completed == t.completed
    ensures Inv(env, t)
  {
    assert forall e | Recorded(s, e) :: Recorded(t, e);
  }

  // Nothing but headers callbacks runs once the call is closed.
  lemma {:induction false} StaysClosed(s: State, env: Env, slot: nat, count: nat, what: Dispatch)
    requires slot <= count && s.closed && !what.OfHeaders?
    ensures InvokeFrom(s, env, slot, count, what) == s
    decreases count - slot
  {
    if slot < count {
      StaysClosed(s, env, slot + 1, count, what);
    }
  }

  lemma {:induction false} CallAllKeeps(env: Env, s: State, calls: seq<UserCall>, slot: nat)
    requires Inv(env, s) && EndSlotsBelow(s, slot)
    ensures var t := CallAll(s, env, calls);
            Inv(env, t) && EndSlotsBelow(t, slot) && t.completed == s.completed && FlagsGrow(s, t)
    decreases calls
  {
    if calls != [] {
      CallKeeps(env, s, calls[0], slot);
      CallAllKeeps(env, Call(s, env, calls[0]), calls[1..], slot);
    }
  }

  // When a callback of the given kind may start.
  ghost predicate MayInvoke(s: State, slot: nat, what: Dispatch) {
    && (what.OfEnd? <==> s.completed)
    && EndSlotsBelow(s, slot)
  }

  lemma InvokeKeeps(env: Env, s: State, slot: nat, what: Dispatch)
    requires Inv(env, s) && MayInvoke(s, slot, what) && (s.closed ==> what.OfHeaders?)
    ensures var t := Invoke(s, env, slot, what);
            Inv(env, t) && MayInvoke(t, slot + 1, what) && FlagsGrow(s, t)
  {
    hide Inv;
    var reaction := env.react(s.ticks);
    var s1 := s.(ticks := s.ticks + 1).Log(Called(slot, what));
    CalledKeeps(env, s, s1, Called(slot, what));
    CallAllKeeps(env, s1, reaction.calls, slot + 1);
    var t := CallAll(s1, env, reaction.calls);
    if reaction.throws {
      EntryKeeps(env, t, t.Log(Reraised), Reraised);
    }
  }

  lemma CalledKeeps(env: Env, s: State, t: State, e: Entry)
    requires Inv(env, s) && e.Called? && MayInvoke(s, e.slot, e.what) && (s.closed ==> e.what.OfHeaders?)
    requires t == s.(ticks := t.ticks).Log(e)
    ensures Inv(env, t) && EndSlotsBelow(t, e.slot + 1)
  {
    LogKeepsOrder(env, s.trace, e);
    assert forall a :: a in t.trace <==> a in s.trace || a == e;
    assert forall a | Recorded(s, a) :: Recorded(t, a);
  }

  lemma {:induction false} InvokeFromKeeps(env: Env, s: State, slot: nat, count: nat, what: Dispatch)
    requires slot <= count
    requires Inv(env, s) && MayInvoke(s, slot, what)
    ensures var t := InvokeFrom(s, env, slot, count, what);
            Inv(env, t) && (t.completed <==> what.OfEnd?) && FlagsGrow(s, t)
    decreases count - slot
  {
    if slot == count {
    } else if s.closed && !what.OfHeaders? {
      InvokeFromKeeps(env, s, slot + 1, count, what);
    } else {
      InvokeKeeps(env, s, slot, what);
      InvokeFromKeeps(env, Invoke(s, env, slot, what), slot + 1, count, what);
    }
  }

  lemma RawOnHeadersKeeps(env: Env, s: State, headers: Metadata)
    requires Inv(env, s)
    ensures var t := RawOnHeaders(s, env, headers);
            Inv(env, t) && t.completed == s.completed && FlagsGrow(s, t)
  {
    if !s.completed {
      InvokeFromKeeps(env, s, 0, s.onHeaders, OfHeaders(headers));
    }
  }

  lemma RawOnMessageKeeps(env: Env, s: State, message: seq<byte>)
    requires Inv(env, s)
    ensures var t := RawOnMessage(s, env, message);
            Inv(env, t) && t.completed == s.completed && FlagsGrow(s, t)
  {
    if !s.completed && !s.closed {
      InvokeFromKeeps(env, s.(delivered := s.delivered + [message]), 0, s.onMessage, OfMessage(message));
    }
  }

  lemma CompleteKeeps(env: Env, s: State, code: Code, text: string, trailers: Metadata)
    requires Inv(env, s)
    ensures var t := Complete(s, env, code, text, trailers);
            Inv(env, t) && t.completed && FlagsGrow(s, t)
  {
    if !s.completed {
      var s1 := s.(completed := true).Log(Completed);
      EntryKeeps(env, s, s1, Completed);
      assert EndSlotsBelow(s1, 0);
      InvokeFromKeeps(env, s1, 0, s1.onEnd, OfEnd(code, text, trailers));
    }
  }

  lemma {:induction false} OnChunksKeeps(env: Env, s: State, chunks: seq<Chunk>)
    requires Inv(env, s)
    ensures var t := OnChunks(s, env, chunks);
            Inv(env, t) && FlagsGrow(s, t)
    decreases chunks
  {
    if chunks != [] {
      match chunks[0] {
        case Message(data) => RawOnMessageKeeps(env, s, data);
        case Trailers(text) =>
          var metadata := env.parseMetadata(text);
          RawOnHeadersKeeps(env, s.(responseHeaders := Some(metadata)), metadata);
      }
      OnChunksKeeps(env, OnChunk(s, env, chunks[0]), chunks[1..]);
    }
  }

  lemma StepKeeps(env: Env, s: State, e: Event)
    requires Inv(env, s)
    ensures var t := Step(s, env, e); Inv(env, t) && FlagsGrow(s, t)
    ensures e.TransportEnd? && !s.closed ==> Step(s, env, e).completed
  {
    match e
    case User(call) =>
      var bound := Bound(s.trace);
      CallKeeps(env, s, call, bound);
    case TransportHeaders(headers, status) =>
      var s1 := s.(responseHeaders := Some(headers));
      RawOnHeadersKeeps(env, s1, headers);
      CompleteKeeps(env, RawOnHeaders(s1, env, headers), HeadersCode(env, headers, status),
                    StatusText(env, headers), headers);
    case TransportChunk(bytes) =>
      var scan := ScanFrames(s.pending + bytes);
      var t := s.(pending := scan.rest, fed := s.fed + bytes);
      CompleteKeeps(env, t, INTERNAL, PARSING_ERROR, NO_METADATA);
      OnChunksKeeps(env, t, ChunksOf(scan.frames));
    case TransportEnd =>
      EndKeeps(env, s);
  }

  lemma EndKeeps(env: Env, s: State)
    requires Inv(env, s)
    ensures var t := OnTransportEnd(s, env); Inv(env, t) && FlagsGrow(s, t) && (!s.closed ==> t.completed)
  {
    if !s.closed {
      match s.responseTrailers {
        case None =>
          match s.responseHeaders {
            case None => CompleteKeeps(env, s, UNKNOWN, NO_HEADERS, NO_METADATA);
            case Some(headers) =>
              CompleteKeeps(env, s, UNKNOWN, NO_STATUS_IN_HEADERS, headers);
              if headers.grpcStatus != [] {
                CompleteKeeps(env, s, StatusOf(env, headers).value, StatusText(env, headers), headers);
              }
          }
        case Some(trailers) =>
          CompleteKeeps(env, s, INTERNAL, NO_STATUS_IN_TRAILERS, NO_METADATA);
          if trailers.grpcStatus != [] {
            CompleteKeeps(env, s, StatusOf(env, trailers).value, StatusText(env, trailers), trailers);
          }
      }
    }
  }

  // Some slot above all end callbacks that have run.
  lemma Bound(trace: seq<Entry>) returns (slot: nat)
    ensures forall e | e in trace && CallsEnd(e) :: e.slot < slot
  {
    slot := 0;
    for i := 0 to |trace|
      invariant forall k | 0 <= k < i && CallsEnd(trace[k]) :: trace[k].slot < slot
    {
      if trace[i].Called? && trace[i].slot >= slot {
        slot := trace[i].slot + 1;
      }
    }
  }

  lemma {:induction false} RunKeeps(env: Env, s: State, events: seq<Event>)
    requires Inv(env, s)
    ensures var t := Run(s, env, events); Inv(env, t) && FlagsGrow(s, t)
    decreases events
  {
    if events != [] {
      StepKeeps(env, s, events[0]);
      RunKeeps(env, Step(s, env, events[0]), events[1..]);
    }
  }

  lemma {:induction false} RunConcat(env: Env, s: State, a: seq<Event>, b: seq<Event>)
    ensures Run(s, env, a + b) == Run(Run(s, env, a), env, b)
    decreases a
  {
    if a == [] {
      assert a + b == b;
    } else {
      assert (a + b)[1..] == a[1..] + b;
      RunConcat(env, Step(s, env, a[0]), a[1..], b);
    }
  }

  // An entry that may not follow the one at `j` stands before it.
  lemma StandsBefore(env: Env, trace: seq<Entry>, e: Entry, j: nat)
    requires WellOrdered(env, trace) && j < |trace| && e in trace
    requires !MayFollow(env, trace[j], e)
    ensures e in trace[..j + 1]
  {
    var i :| 0 <= i < |trace| && trace[i] == e;
    assert !(j < i);
    assert trace[..j + 1][i] == e;
  }

  lemma Grounded(env: Env, s: State, j: nat)
    requires Inv(env, s) && j < |s.trace|
    ensures Outbound(s.trace[j]) ==> ToStart in s.trace[..j + 1]
    ensures CallsEnd(s.trace[j]) ==> Completed in s.trace[..j + 1]
  {
    assert s.trace[j] in s.trace;
    if Outbound(s.trace[j]) {
      StandsBefore(env, s.trace, ToStart, j);
    }
    if CallsEnd(s.trace[j]) {
      StandsBefore(env, s.trace, Completed, j);
    }
  }

  lemma FreshKeeps(env: Env)
    ensures Inv(env, FRESH)
  {
    assert FRESH.trace == [];
  }

  /** Order of everything a client ever does, over all runs: any two entries of its trace come in a
      permitted order, every call on the transport comes after start, and every end callback after
      completion. */
  lemma TraceOrder(env: Env, events: seq<Event>)
    ensures var trace := Run(FRESH, env, events).trace;
            && (forall i, j | 0 <= i < j < |trace| :: MayFollow(env, trace[i], trace[j]))
            && (forall j | 0 <= j < |trace| && Outbound(trace[j]) :: ToStart in trace[..j + 1])
            && (forall j | 0 <= j < |trace| && CallsEnd(trace[j]) :: Completed in trace[..j + 1])
  {
    hide Run, MayFollow, Recorded;
    FreshKeeps(env);
    RunKeeps(env, FRESH, events);
    var s := Run(FRESH, env, events);
    forall j | 0 <= j < |s.trace|
      ensures Outbound(s.trace[j]) ==> ToStart in s.trace[..j + 1]
      ensures CallsEnd(s.trace[j]) ==> Completed in s.trace[..j + 1]
    {
      Grounded(env, s, j);
    }
  }

  /** Completion: a transport end that is seen while the call is not closed leaves it completed for
      good, and a second end, as after an error, does nothing more. Completed and closed never revert. */
  lemma EndCompletes(env: Env, before: seq<Event>, after: seq<Event>)
    ensures var s, t := Run(FRESH, env, before), Run(FRESH, env, before + [TransportEnd] + after);
            && (!s.closed ==> t.completed)
            && (s.closed ==> t.closed && Step(s, env, TransportEnd) == s)
            && (s.completed ==> t.completed && Step(s, env, TransportEnd) == s)
  {
    var s := Run(FRESH, env, before);
    RunKeeps(env, FRESH, before);
    RunConcat(env, FRESH, before + [TransportEnd], after);
    RunConcat(env, FRESH, before, [TransportEnd]);
    assert Run(s, env, [TransportEnd]) == Step(s, env, TransportEnd);
    StepKeeps(env, s, TransportEnd);
    RunKeeps(env, Step(s, env, TransportEnd), after);
  }

  lemma RunCons(env: Env, s: State, e: Event, rest: seq<Event>)
    ensures Run(s, env, [e] + rest) == Run(Step(s, env, e), env, rest)
    ensures Run(s, env, []) == s
  {
    assert ([e] + rest)[1..] == rest;
  }
}
