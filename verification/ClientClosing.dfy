/** Headers callbacks after close. The client asks whether the call was closed before every message
    and end callback, but not between headers callbacks, nor before it takes the trailer block of a
    chunk for headers. Here is exactly when a headers callback starts on a closed call. */
module ClientClosing {
  import opened Bytes
  import opened Framing
  import opened ChunkParsing
  import opened ClientModel
  import opened ClientOrder

  predicate CallsHeaders(e: Entry) { e.Called? && e.what.OfHeaders? }

  /** A headers callback was started after the transport had been cancelled. */
  ghost predicate LateHeaders(trace: seq<Entry>) {
    exists i, j :: 0 <= i < j < |trace| && trace[i].ToCancel? && CallsHeaders(trace[j])
  }

  /** One of these callback invocations closes the call. */
  ghost predicate ClosesWithin(env: Env, from: int, to: int) {
    exists n: nat :: from <= n < to && Close in env.react(n).calls
  }

  /** The condition for a headers dispatch to the callbacks slot, ..., count - 1: there is one to start, and the
      call is closed already or one of them that is not the last closes it. */
  ghost predicate StartsLate(s: State, env: Env, slot: nat, count: nat) {
    slot < count && (s.closed || ClosesWithin(env, s.ticks, s.ticks + count - slot - 1))
  }

  // The transport has been cancelled exactly if the call is closed.
  ghost predicate Marks(s: State) { s.closed <==> ToCancel in s.trace }

  lemma LateHeadersSnoc(trace: seq<Entry>, e: Entry)
    ensures LateHeaders(trace + [e]) <==> LateHeaders(trace) || (CallsHeaders(e) && ToCancel in trace)
  {
    var t := trace + [e];
    if LateHeaders(trace) {
      var i, j :| 0 <= i < j < |trace| && trace[i].ToCancel? && CallsHeaders(trace[j]);
      assert t[i].ToCancel? && CallsHeaders(t[j]);
    }
    if CallsHeaders(e) && ToCancel in trace {
      var i :| 0 <= i < |trace| && trace[i] == ToCancel;
      assert t[i].ToCancel? && CallsHeaders(t[|trace|]);
    }
    if LateHeaders(t) {
      var i, j :| 0 <= i < j < |t| && t[i].ToCancel? && CallsHeaders(t[j]);
      assert trace[i] == t[i] && ToCancel in trace;
      if j < |trace| {
        assert CallsHeaders(trace[j]);
      }
    }
  }

  // One more entry that cancels only if the call is closed with it.
  lemma LogMarks(s: State, t: State, e: Entry)
    requires Marks(s) && t.trace == s.trace + [e]
    requires t.closed <==> s.closed || e.ToCancel?
    ensures Marks(t)
    ensures LateHeaders(t.trace) <==> LateHeaders(s.trace) || (CallsHeaders(e) && s.closed)
  {
    LateHeadersSnoc(s.trace, e);
    assert ToCancel in t.trace <==> ToCancel in s.trace || e == ToCancel;
  }

  // What user calls, callbacks of other kinds and completion do: they start no headers callback.
  ghost predicate OnTime(s: State, t: State) {
    && Marks(t) && t.started && (LateHeaders(t.trace) <==> LateHeaders(s.trace))
  }

  lemma CallOnTime(s: State, env: Env, c: UserCall)
    requires Marks(s) && s.started
    ensures var t := Call(s, env, c); OnTime(s, t) && t.ticks == s.ticks && (t.closed <==> s.closed || c.Close?)
  {
    hide LateHeaders, Marks, RequestFrame;
    var t := Call(s, env, c);
    match c {
      case Start => LogMarks(s, t, Refused);
      case Send(message) => LogMarks(s, t,
                              if t.trace == s.trace + [Refused] then Refused else ToSend(RequestFrame(message)));
      case FinishSend => LogMarks(s, t, if t.trace == s.trace + [Refused] then Refused else ToFinish);
      case Close => LogMarks(s, t, if s.closed then Refused else ToCancel);
      case _ => assert Marks(t) by { SameMarks(s, t); }
    }
  }

  lemma SameMarks(s: State, t: State)
    requires Marks(s) && t.closed == s.closed && t.trace == s.trace
    ensures Marks(t)
  {
  }

  lemma {:induction false} CallsOnTime(s: State, env: Env, calls: seq<UserCall>)
    requires Marks(s) && s.started
    ensures var t := CallAll(s, env, calls);
            OnTime(s, t) && t.ticks == s.ticks && (t.closed <==> s.closed || Close in calls)
    decreases calls
  {
    hide LateHeaders, Marks, Call;
    if calls != [] {
      CallOnTime(s, env, calls[0]);
      CallsOnTime(Call(s, env, calls[0]), env, calls[1..]);
      assert Close in calls <==> calls[0] == Close || Close in calls[1..];
    }
  }

  // One callback: it is late if it is a headers callback and the call is closed when it starts.
  lemma InvokeMarks(s: State, env: Env, slot: nat, what: Dispatch)
    requires Marks(s) && s.started
    ensures var t := Invoke(s, env, slot, what);
            && Marks(t) && t.started && t.ticks == s.ticks + 1
            && (t.closed <==> s.closed || Close in env.react(s.ticks).calls)
            && (LateHeaders(t.trace) <==> LateHeaders(s.trace) || (what.OfHeaders? && s.closed))
  {
    hide LateHeaders, Marks, CallAll;
    var reaction := env.react(s.ticks);
    var s1 := s.(ticks := s.ticks + 1).Log(Called(slot, what));
    LogMarks(s, s1, Called(slot, what));
    CallsOnTime(s1, env, reaction.calls);
    var s2 := CallAll(s1, env, reaction.calls);
    if reaction.throws {
      LogMarks(s2, s2.Log(Reraised), Reraised);
    }
  }

  lemma {:induction false} OtherDispatchOnTime(s: State, env: Env, slot: nat, count: nat, what: Dispatch)
    requires Marks(s) && s.started && slot <= count && !what.OfHeaders?
    ensures OnTime(s, InvokeFrom(s, env, slot, count, what))
    decreases count - slot
  {
    hide LateHeaders, Marks, Invoke;
    if slot == count {
    } else if s.closed {
      OtherDispatchOnTime(s, env, slot + 1, count, what);
    } else {
      InvokeMarks(s, env, slot, what);
      OtherDispatchOnTime(Invoke(s, env, slot, what), env, slot + 1, count, what);
    }
  }

  lemma ClosesFirst(env: Env, from: nat, to: nat)
    requires from < to
    ensures ClosesWithin(env, from, to) <==> Close in env.react(from).calls || ClosesWithin(env, from + 1, to)
  {
    if ClosesWithin(env, from, to) {
      var n: nat :| from <= n < to && Close in env.react(n).calls;
    }
  }

  /** A headers dispatch on a started call starts a callback after close exactly if there is a callback to
      start and the call is closed already, or some callback but the last closes it. */
  lemma {:induction false} LateDispatch(s: State, env: Env, slot: nat, count: nat, headers: Metadata)
    requires Marks(s) && s.started && slot <= count
    ensures var t := InvokeFrom(s, env, slot, count, OfHeaders(headers));
            && Marks(t) && t.started
            && (LateHeaders(t.trace) <==> LateHeaders(s.trace) || StartsLate(s, env, slot, count))
    decreases count - slot
  {
    hide LateHeaders, Marks, Invoke, ClosesWithin;
    if slot < count {
      var what := OfHeaders(headers);
      var t := Invoke(s, env, slot, what);
      InvokeMarks(s, env, slot, what);
      LateDispatch(t, env, slot + 1, count, headers);
      if slot + 1 < count {
        ClosesFirst(env, s.ticks, s.ticks + count - slot - 1);
      } else {
        assert !ClosesWithin(env, s.ticks, s.ticks + count - slot - 1) by { NoneWithin(env, s.ticks); }
      }
    }
  }

  lemma NoneWithin(env: Env, n: nat)
    ensures !ClosesWithin(env, n, n)
  {
  }

  // ---- events and runs ----

  /** The condition for a dispatch by rawOnHeaders. */
  ghost predicate LateRaw(s: State, env: Env) { !s.completed && StartsLate(s, env, 0, s.onHeaders) }

  /** For the chunks of one parse: the first trailer block is taken for headers if there are none, on whatever state
      the messages before it have left, which may be a closed one. */
  ghost predicate LateChunks(s: State, env: Env, chunks: seq<Chunk>)
    decreases chunks
  {
    chunks != [] &&
    (|| (chunks[0].Trailers? && s.responseHeaders == None && LateRaw(s, env))
     || LateChunks(OnChunk(s, env, chunks[0]), env, chunks[1..]))
  }

  ghost predicate LateStep(s: State, env: Env, e: Event) {
    match e
    case TransportHeaders(headers, status) => !s.closed && status != 0 && LateRaw(s, env)
    case TransportChunk(bytes) =>
      var scan := ScanFrames(s.pending + bytes);
      !s.closed && !scan.threw && LateChunks(s.(pending := scan.rest, fed := s.fed + bytes), env, ChunksOf(scan.frames))
    case _ => false
  }

  ghost predicate LateRun(s: State, env: Env, events: seq<Event>)
    decreases events
  {
    events != [] && (LateStep(s, env, events[0]) || LateRun(Step(s, env, events[0]), env, events[1..]))
  }

  // What an event or a part of one does, with the condition `late` for it.
  ghost predicate Judged(s: State, t: State, late: bool) {
    && Marks(t) && t.started && (LateHeaders(t.trace) <==> LateHeaders(s.trace) || late)
  }

  lemma RawJudged(s: State, env: Env, headers: Metadata)
    requires Marks(s) && s.started
    ensures Judged(s, RawOnHeaders(s, env, headers), LateRaw(s, env))
  {
    hide LateHeaders, Marks, InvokeFrom, ClosesWithin;
    if !s.completed {
      LateDispatch(s, env, 0, s.onHeaders, headers);
    }
  }

  lemma CompleteOnTime(s: State, env: Env, code: Code, text: string, trailers: Metadata)
    requires Marks(s) && s.started
    ensures OnTime(s, Complete(s, env, code, text, trailers))
  {
    hide LateHeaders, Marks, InvokeFrom;
    if !s.completed {
      var s1 := s.(completed := true).Log(Completed);
      LogMarks(s, s1, Completed);
      OtherDispatchOnTime(s1, env, 0, s1.onEnd, OfEnd(code, text, trailers));
    }
  }

  lemma {:induction false} ChunksJudged(s: State, env: Env, chunks: seq<Chunk>)
    requires Marks(s) && s.started
    ensures Judged(s, OnChunks(s, env, chunks), LateChunks(s, env, chunks))
    decreases chunks
  {
    hide LateHeaders, Marks, InvokeFrom, LateRaw, RawOnHeaders;
    if chunks != [] {
      var t := OnChunk(s, env, chunks[0]);
      match chunks[0] {
        case Message(data) =>
          var s1 := s.(delivered := s.delivered + [data]);
          SameMarks(s, s1);
          OtherDispatchOnTime(s1, env, 0, s.onMessage, OfMessage(data));
          assert Judged(s, t, false);
        case Trailers(text) =>
          var metadata := env.parseMetadata(text);
          var s1 := s.(responseHeaders := Some(metadata));
          var s2 := s.(responseTrailers := Some(metadata));
          SameMarks(s, s1);
          SameMarks(s, s2);
          RawJudged(s1, env, metadata);
          assert LateRaw(s1, env) == LateRaw(s, env) by { LateRawIgnoresMetadata(s, env, Some(metadata)); }
      }
      ChunksJudged(t, env, chunks[1..]);
    }
  }

  lemma LateRawIgnoresMetadata(s: State, env: Env, headers: Option<Metadata>)
    ensures LateRaw(s.(responseHeaders := headers), env) == LateRaw(s, env)
  {
  }

  /** One event starts a headers callback after close exactly under LateStep: for a headers event, some headers
      callback but the last closes the call; for a chunk, that happens at the block taken for headers, or a callback
      has closed the call before that block is reached. */
  lemma StepJudged(s: State, env: Env, e: Event)
    requires Marks(s) && s.started
    ensures Judged(s, Step(s, env, e), LateStep(s, env, e))
  {
    hide LateHeaders, Marks, LateRaw, LateChunks, RawOnHeaders, Complete, OnChunks, ScanFrames, StatusText, HeadersCode;
    match e
    case User(call) => CallOnTime(s, env, call);
    case TransportHeaders(headers, status) =>
      if !s.closed && status != 0 {
        var s1 := s.(responseHeaders := Some(headers));
        SameMarks(s, s1);
        RawJudged(s1, env, headers);
        LateRawIgnoresMetadata(s, env, Some(headers));
        CompleteOnTime(RawOnHeaders(s1, env, headers), env, HeadersCode(env, headers, status), StatusText(env, headers),
                       headers);
      }
    case TransportChunk(bytes) =>
      var scan := ScanFrames(s.pending + bytes);
      var t := s.(pending := scan.rest, fed := s.fed + bytes);
      SameMarks(s, t);
      CompleteOnTime(t, env, INTERNAL, PARSING_ERROR, NO_METADATA);
      ChunksJudged(t, env, ChunksOf(scan.frames));
    case TransportEnd => EndOnTime(s, env);
  }

  lemma EndOnTime(s: State, env: Env)
    requires Marks(s) && s.started
    ensures OnTime(s, OnTransportEnd(s, env))
  {
    hide LateHeaders, Marks, Complete, StatusText;
    CompleteOnTime(s, env, UNKNOWN, NO_HEADERS, NO_METADATA);
    CompleteOnTime(s, env, INTERNAL, NO_STATUS_IN_TRAILERS, NO_METADATA);
    if s.responseHeaders.Some? {
      var headers := s.responseHeaders.value;
      CompleteOnTime(s, env, UNKNOWN, NO_STATUS_IN_HEADERS, headers);
      if headers.grpcStatus != [] {
        CompleteOnTime(s, env, StatusOf(env, headers).value, StatusText(env, headers), headers);
      }
    }
    if s.responseTrailers.Some? && s.responseTrailers.value.grpcStatus != [] {
      var trailers := s.responseTrailers.value;
      CompleteOnTime(s, env, StatusOf(env, trailers).value, StatusText(env, trailers), trailers);
    }
  }

  lemma {:induction false} RunJudged(s: State, env: Env, events: seq<Event>)
    requires Marks(s) && s.started
    ensures Judged(s, Run(s, env, events), LateRun(s, env, events))
    decreases events
  {
    hide LateHeaders, Marks, LateStep, Step;
    if events != [] {
      StepJudged(s, env, events[0]);
      RunJudged(Step(s, env, events[0]), env, events[1..]);
    }
  }

  // User calls before start: nothing can be cancelled, and no callback runs.
  lemma {:induction false} BeforeStart(s: State, env: Env, before: seq<Event>)
    requires forall e | e in before :: e.User?
    requires Marks(s) && !LateHeaders(s.trace) && (s.closed ==> s.started)
    ensures var t := Run(s, env, before); Marks(t) && !LateHeaders(t.trace) && (t.closed ==> t.started)
    decreases before
  {
    hide LateHeaders, Marks, Call;
    if before != [] {
      var c := before[0].call;
      assert before[0] in before && forall e | e in before[1..] :: e in before;
      UserCallOnTime(s, env, c);
      BeforeStart(Call(s, env, c), env, before[1..]);
    }
  }

  lemma UserCallOnTime(s: State, env: Env, c: UserCall)
    requires Marks(s) && !LateHeaders(s.trace) && (s.closed ==> s.started)
    ensures var t := Call(s, env, c); Marks(t) && !LateHeaders(t.trace) && (t.closed ==> t.started)
  {
    hide LateHeaders, Marks, RequestFrame;
    var t := Call(s, env, c);
    if c.OnHeaders? || c.OnMessage? || c.OnEnd? {
      SameMarks(s, t);
    } else {
      var e := t.trace[|s.trace|];
      assert t.trace == s.trace + [e];
      LogMarks(s, t, e);
    }
  }

  /** Headers callbacks after close, over all runs: a transport delivers nothing before it is started, and from
      then on a headers callback starts on a closed call exactly if some event meets its condition. */
  lemma LateHeadersExactly(env: Env, before: seq<Event>, after: seq<Event>)
    requires forall e | e in before :: e.User?
    ensures LateHeaders(Run(FRESH, env, before + [User(Start)] + after).trace) <==>
            LateRun(Run(FRESH, env, before + [User(Start)]), env, after)
  {
    hide Run, LateRun, Marks, LateHeaders;
    assert Marks(FRESH) && !LateHeaders(FRESH.trace) by { NothingLate(); }
    var events := before + [User(Start)];
    assert forall e | e in events :: e.User?;
    BeforeStart(FRESH, env, events);
    RunConcat(env, FRESH, before, [User(Start)]);
    RunCons(env, Run(FRESH, env, before), User(Start), []);
    RunCons(env, Step(Run(FRESH, env, before), env, User(Start)), User(Start), []);
    assert [User(Start)] + [] == [User(Start)];
    RunConcat(env, FRESH, events, after);
    RunJudged(Run(FRESH, env, events), env, after);
  }

  lemma NothingLate()
    ensures Marks(FRESH) && !LateHeaders(FRESH.trace)
  {
    assert FRESH.trace == [];
  }

  // ---- messages and a block in one chunk ----

  // Callbacks add no callbacks, so that the arrays keep their lengths.
  ghost predicate NoRegistration(env: Env) {
    forall n, c | c in env.react(n).calls :: !c.OnHeaders? && !c.OnMessage? && !c.OnEnd?
  }

  ghost predicate SameArrays(s: State, t: State) {
    && t.onHeaders == s.onHeaders && t.onMessage == s.onMessage
    && t.completed == s.completed && t.responseHeaders == s.responseHeaders
  }

  lemma {:induction false} CallsKeepArrays(s: State, env: Env, calls: seq<UserCall>)
    requires forall c | c in calls :: !c.OnHeaders? && !c.OnMessage? && !c.OnEnd?
    ensures SameArrays(s, CallAll(s, env, calls))
    decreases calls
  {
    if calls != [] {
      hide Call;
      assert calls[0] in calls && forall c | c in calls[1..] :: c in calls;
      CallKeepsArrays(s, env, calls[0]);
      CallsKeepArrays(Call(s, env, calls[0]), env, calls[1..]);
    }
  }

  lemma CallKeepsArrays(s: State, env: Env, c: UserCall)
    requires !c.OnHeaders? && !c.OnMessage? && !c.OnEnd?
    ensures SameArrays(s, Call(s, env, c))
  {
    hide RequestFrame;
  }

  // A message dispatch closes the call exactly if one of its callbacks does, and otherwise runs them all.
  lemma {:induction false} MessageDispatch(s: State, env: Env, slot: nat, count: nat, message: seq<byte>)
    requires NoRegistration(env) && Marks(s) && s.started && !s.closed && slot <= count
    ensures var t := InvokeFrom(s, env, slot, count, OfMessage(message));
            && SameArrays(s, t) && Marks(t) && t.started
            && (t.closed <==> ClosesWithin(env, s.ticks, s.ticks + count - slot))
            && (!t.closed ==> t.ticks == s.ticks + count - slot)
    decreases count - slot
  {
    hide LateHeaders, Marks, Invoke, ClosesWithin;
    if slot == count {
      NoneWithin(env, s.ticks);
    } else {
      var what := OfMessage(message);
      var t := Invoke(s, env, slot, what);
      InvokeMarks(s, env, slot, what);
      assert SameArrays(s, t) by {
        InvokeUnfolds(s, env, slot, what);
        CallsKeepArrays(s.(ticks := s.ticks + 1).Log(Called(slot, what)), env, env.react(s.ticks).calls);
      }
      ClosesFirst(env, s.ticks, s.ticks + count - slot);
      if t.closed {
        OtherDispatchOnTime(t, env, slot + 1, count, what);
        StaysClosed(t, env, slot + 1, count, what);
      } else {
        MessageDispatch(t, env, slot + 1, count, message);
      }
    }
  }

  lemma InvokeUnfolds(s: State, env: Env, slot: nat, what: Dispatch)
    ensures var r := env.react(s.ticks);
            var t := CallAll(s.(ticks := s.ticks + 1).Log(Called(slot, what)), env, r.calls);
            Invoke(s, env, slot, what) == if r.throws then t.Log(Reraised) else t
  {
  }

  function Messages(ms: seq<seq<byte>>): seq<Chunk> {
    seq(|ms|, i requires 0 <= i < |ms| => Message(ms[i]))
  }

  lemma ClosesSplit(env: Env, from: nat, mid: nat, to: nat)
    requires from <= mid <= to
    ensures ClosesWithin(env, from, to) <==> ClosesWithin(env, from, mid) || ClosesWithin(env, mid, to)
  {
    if ClosesWithin(env, from, to) {
      var n: nat :| from <= n < to && Close in env.react(n).calls;
      assert n < mid || mid <= n;
    }
  }

  /** In closed form, for a chunk with messages and then a trailer block, on a started call that has no headers: a
      headers callback starts after close exactly if there is one, and the call was closed, or one of all the message
      and headers callbacks that the chunk would run, but the last, closes it. */
  lemma {:induction false} LateChunksExactly(s: State, env: Env, ms: seq<seq<byte>>, text: string)
    requires NoRegistration(env) && Marks(s) && s.started && !s.completed && s.responseHeaders == None
    ensures LateChunks(s, env, Messages(ms) + [Trailers(text)]) <==>
            s.onHeaders > 0
            && (s.closed || ClosesWithin(env, s.ticks, s.ticks + |ms| * s.onMessage + s.onHeaders - 1))
    decreases |ms|
  {
    hide LateHeaders, Marks, InvokeFrom, ClosesWithin;
    var chunks := Messages(ms) + [Trailers(text)];
    if ms == [] {
      assert chunks == [Trailers(text)] && chunks[1..] == [];
      assert |ms| * s.onMessage == 0;
    } else {
      var rest := ms[1..];
      assert chunks[0] == Message(ms[0]) && chunks[1..] == Messages(rest) + [Trailers(text)];
      var t := OnChunk(s, env, Message(ms[0]));
      var k, m, total := |rest|, s.onMessage, |ms| * s.onMessage;
      assert |ms| == k + 1;
      Distribute(k, m);
      if s.closed {
        LateChunksExactly(s, env, rest, text);
      } else {
        var s1 := s.(delivered := s.delivered + [ms[0]]);
        SameMarks(s, s1);
        MessageDispatch(s1, env, 0, m, ms[0]);
        LateChunksExactly(t, env, rest, text);
        if s.onHeaders > 0 {
          ClosesSplit(env, s.ticks, s.ticks + m, s.ticks + total + s.onHeaders - 1);
        }
      }
    }
  }

  lemma Distribute(k: nat, m: nat)
    ensures (k + 1) * m == m + k * m && k * m >= 0
  {
  }

  // ---- the two ways it happens ----

  /** In one headers event: the first of two headers callbacks closes the call, and the second still runs. */
  lemma HeaderCallbackAfterClose(env: Env, headers: Metadata)
    requires Close in env.react(0).calls
    ensures LateHeaders(Run(FRESH, env, [User(OnHeaders), User(OnHeaders)] + [User(Start)]
                            + [TransportHeaders(headers, 200)]).trace)
  {
    hide Run, LateHeaders;
    var before, event := [User(OnHeaders), User(OnHeaders)], TransportHeaders(headers, 200);
    LateHeadersExactly(env, before, [event]);
    RegisteredTwice(env, OnHeaders);
    assert ClosesWithin(env, 0, 1);
    LateOne(FRESH.(onHeaders := 2, started := true, trace := [ToStart]), env, event);
  }

  /** In one chunk: a message callback closes the call, and the trailer block behind the message is still taken
      for headers. */
  lemma TrailersTakenForHeadersAfterClose(env: Env)
    requires Close in env.react(0).calls && NoRegistration(env)
    ensures LateHeaders(Run(FRESH, env, [User(OnMessage), User(OnHeaders)] + [User(Start)]
                            + [TransportChunk([0, 0, 0, 0, 0, 0x80, 0, 0, 0, 0])]).trace)
  {
    hide Run, LateHeaders, LateStep, ScanFrames;
    var bytes := [0, 0, 0, 0, 0, 0x80, 0, 0, 0, 0];
    var before, event := [User(OnMessage), User(OnHeaders)], TransportChunk(bytes);
    LateHeadersExactly(env, before, [event]);
    RegisteredTwice(env, OnMessage);
    var s := FRESH.(onMessage := 1, onHeaders := 1, started := true, trace := [ToStart]);
    LateOneChunk(s, env, bytes);
    LateOne(s, env, event);
  }

  lemma LateOneChunk(s: State, env: Env, bytes: seq<byte>)
    requires bytes == [0, 0, 0, 0, 0, 0x80, 0, 0, 0, 0] && Close in env.react(0).calls && NoRegistration(env)
    requires s == FRESH.(onMessage := 1, onHeaders := 1, started := true, trace := [ToStart])
    ensures LateStep(s, env, TransportChunk(bytes))
  {
    hide ScanFrames, LateChunks;
    var t := s.(fed := bytes);
    MessageThenTrailer();
    assert [] + bytes == bytes;
    assert ChunksOf([Frame(0, []), Frame(0x80, [])]) == Messages([[]]) + [Trailers("")];
    assert ClosesWithin(env, 0, 1);
    LateChunksExactly(t, env, [[]], "");
  }

  lemma LateOne(s: State, env: Env, e: Event)
    ensures LateStep(s, env, e) ==> LateRun(s, env, [e])
  {
  }

  // Registering two callbacks, the second for headers, and starting.
  lemma RegisteredTwice(env: Env, first: UserCall)
    requires first.OnHeaders? || first.OnMessage?
    ensures Run(FRESH, env, [User(first), User(OnHeaders)] + [User(Start)])
         == FRESH.(onMessage := if first.OnMessage? then 1 else 0, onHeaders := if first.OnHeaders? then 2 else 1,
                   started := true, trace := [ToStart])
  {
    hide Run;
    var s1 := Step(FRESH, env, User(first));
    var s2 := Step(s1, env, User(OnHeaders));
    var s3 := Step(s2, env, User(Start));
    assert [User(first), User(OnHeaders)] + [User(Start)] == [User(first)] + [User(OnHeaders), User(Start)];
    RunCons(env, FRESH, User(first), [User(OnHeaders), User(Start)]);
    assert [User(OnHeaders)] + [User(Start)] == [User(OnHeaders), User(Start)];
    RunCons(env, s1, User(OnHeaders), [User(Start)]);
    assert [User(Start)] + [] == [User(Start)];
    RunCons(env, s2, User(Start), []);
    RunCons(env, s3, User(Start), []);
    assert [] + [ToStart] == [ToStart];
  }

  // An empty message and an empty trailer block, scanned together.
  lemma MessageThenTrailer()
    ensures ScanFrames([0, 0, 0, 0, 0, 0x80, 0, 0, 0, 0]) == Scan([Frame(0, []), Frame(0x80, [])], [], false)
  {
    var message, trailer := Frame(0, []), Frame(0x80, []);
    assert EncodeFrame(message) == [0, 0, 0, 0, 0] && EncodeFrame(trailer) == [0x80, 0, 0, 0, 0];
    var bytes := [0, 0, 0, 0, 0, 0x80, 0, 0, 0, 0];
    assert bytes == EncodeFrame(message) + (EncodeFrame(trailer) + []);
    FirstFrameOfEncoding(message, EncodeFrame(trailer) + []);
    FirstFrameOfEncoding(trailer, []);
    assert ScanFrames(EncodeFrame(trailer) + []) == Scan([trailer], [], false);
    assert [message] + [trailer] == [message, trailer];
  }
}
