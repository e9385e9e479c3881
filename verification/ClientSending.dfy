/** What a client hands to its transport: over every run, whatever the transport delivers and whatever callbacks do,
    exactly what the calls made on the client ask for. */
module ClientSending {
  import opened Bytes
  import opened Framing
  import opened ChunkParsing
  import opened ClientModel

  // ---- the calls of a run ----

  /** The calls that the callback invocations numbered from, ..., end - 1 make. */
  function Reactions(env: Env, from: nat, end: nat): seq<UserCall>
    requires from <= end
    decreases end - from
  {
    if from == end then [] else env.react(from).calls + Reactions(env, from + 1, end)
  }

  lemma {:induction false} ReactionsConcat(env: Env, a: nat, b: nat, c: nat)
    requires a <= b <= c
    ensures Reactions(env, a, c) == Reactions(env, a, b) + Reactions(env, b, c)
    decreases b - a
  {
    if a < b {
      ReactionsConcat(env, a + 1, b, c);
      Associate(env.react(a).calls, Reactions(env, a + 1, b), Reactions(env, b, c));
    }
  }

  lemma OneReaction(env: Env, n: nat)
    ensures Reactions(env, n, n + 1) == env.react(n).calls
  {
    assert Reactions(env, n + 1, n + 1) == [];
  }

  // ---- what they ask for ----

  /** The calls in front of the first `c`, or all of them. */
  function Before(calls: seq<UserCall>, c: UserCall): seq<UserCall> {
    if calls == [] || calls[0] == c then [] else [calls[0]] + Before(calls[1..], c)
  }

  /** The calls behind the first `c`. */
  function After(calls: seq<UserCall>, c: UserCall): seq<UserCall> {
    if calls == [] then [] else if calls[0] == c then calls[1..] else After(calls[1..], c)
  }

  function Messages(calls: seq<UserCall>): seq<seq<byte>> {
    if calls == [] then [] else (if calls[0].Send? then [calls[0].message] else []) + Messages(calls[1..])
  }

  /** The messages let through: those of the Send calls behind the first start and in front of the next close and
      finishSend, or the first of them alone if the request is not a stream. */
  function Sent(env: Env, calls: seq<UserCall>): seq<seq<byte>> {
    var all := Messages(Before(Before(After(calls, Start), Close), FinishSend));
    if env.requestStream || all == [] then all else [all[0]]
  }

  /** sendMessage with a message in a frame: a zero flag, four bytes of length, the message. */
  function SendEntries(messages: seq<seq<byte>>): seq<Entry> {
    if messages == [] then []
    else [ToSend([0] + U32BE(|messages[0]| % UINT32_LIMIT) + messages[0])] + SendEntries(messages[1..])
  }

  /** Everything the transport is asked for: start, the messages, finishSend, cancel. */
  function Outgoing(env: Env, calls: seq<UserCall>): seq<Entry> {
    (if Start in calls then [ToStart] else [])
    + SendEntries(Sent(env, calls))
    + (if FinishSend in Before(After(calls, Start), Close) then [ToFinish] else [])
    + (if Close in After(calls, Start) then [ToCancel] else [])
  }

  predicate OnTransport(e: Entry) { e.ToStart? || e.ToSend? || e.ToFinish? || e.ToCancel? }

  /** What a trace shows of the transport's side. */
  function OutboundOf(trace: seq<Entry>): seq<Entry> {
    if trace == [] then []
    else
      var e := trace[|trace| - 1];
      OutboundOf(trace[..|trace| - 1]) + if OnTransport(e) then [e] else []
  }

  function Tally<T(==)>(items: seq<T>, item: T): nat {
    if items == [] then 0
    else Tally(items[..|items| - 1], item) + if items[|items| - 1] == item then 1 else 0
  }

  /** How many of the first n callback invocations throw. */
  function Throws(env: Env, n: nat): nat {
    if n == 0 then 0 else Throws(env, n - 1) + if env.react(n - 1).throws then 1 else 0
  }

  /** What holds after the given calls. */
  ghost predicate Did(env: Env, s: State, calls: seq<UserCall>) {
    && OutboundOf(s.trace) == Outgoing(env, calls)
    && (s.started <==> Start in calls)
    && (s.closed <==> Close in After(calls, Start))
    && (s.finishedSending <==> FinishSend in Before(After(calls, Start), Close))
    && (s.sentFirstMessage <==> Sent(env, calls) != [])
    && s.onHeaders == Tally(calls, OnHeaders)
    && s.onMessage == Tally(calls, OnMessage)
    && s.onEnd == Tally(calls, OnEnd)
    && |calls| == |OutboundOf(s.trace)| + Tally(s.trace, Refused) + s.onHeaders + s.onMessage + s.onEnd
  }

  // ---- one more call ----

  lemma {:induction false} BeforeSnoc(calls: seq<UserCall>, x: UserCall, c: UserCall)
    ensures Before(calls + [x], c) == if c in calls then Before(calls, c) else if x == c then calls else calls + [x]
    ensures c !in calls ==> Before(calls, c) == calls
    ensures c !in Before(calls, c)
  {
    if calls == [] {
      assert calls + [x] == [x] && [x][1..] == [];
    } else {
      assert (calls + [x])[0] == calls[0] && (calls + [x])[1..] == calls[1..] + [x];
      BeforeSnoc(calls[1..], x, c);
      assert calls == [calls[0]] + calls[1..];
    }
  }

  lemma {:induction false} AfterSnoc(calls: seq<UserCall>, x: UserCall, c: UserCall)
    ensures After(calls + [x], c) == if c in calls then After(calls, c) + [x] else []
    ensures c !in calls ==> After(calls, c) == []
  {
    if calls == [] {
      assert calls + [x] == [x] && [x][1..] == [];
    } else {
      assert (calls + [x])[0] == calls[0] && (calls + [x])[1..] == calls[1..] + [x];
      AfterSnoc(calls[1..], x, c);
    }
  }

  lemma {:induction false} MessagesSnoc(calls: seq<UserCall>, x: UserCall)
    ensures Messages(calls + [x]) == Messages(calls) + if x.Send? then [x.message] else []
  {
    if calls == [] {
      assert calls + [x] == [x] && [x][1..] == [];
    } else {
      assert (calls + [x])[0] == calls[0] && (calls + [x])[1..] == calls[1..] + [x];
      MessagesSnoc(calls[1..], x);
    }
  }

  lemma {:induction false} SendEntriesSnoc(messages: seq<seq<byte>>, m: seq<byte>)
    ensures SendEntries(messages + [m])
         == SendEntries(messages) + [ToSend([0] + U32BE(|m| % UINT32_LIMIT) + m)]
  {
    hide U32BE;
    if messages == [] {
      assert messages + [m] == [m] && [m][1..] == [];
    } else {
      assert (messages + [m])[0] == messages[0] && (messages + [m])[1..] == messages[1..] + [m];
      SendEntriesSnoc(messages[1..], m);
    }
  }

  lemma Logged(trace: seq<Entry>, e: Entry)
    ensures OutboundOf(trace + [e]) == OutboundOf(trace) + if OnTransport(e) then [e] else []
    ensures forall x :: Tally(trace + [e], x) == Tally(trace, x) + if x == e then 1 else 0
  {
    assert (trace + [e])[..|trace|] == trace;
  }

  lemma TallySnoc(calls: seq<UserCall>, c: UserCall)
    ensures forall x :: Tally(calls + [c], x) == Tally(calls, x) + if x == c then 1 else 0
  {
    assert (calls + [c])[..|calls|] == calls;
  }

  /** How the messages let through grow. */
  lemma SentSnoc(env: Env, calls: seq<UserCall>, c: UserCall)
    ensures Sent(env, calls + [c]) ==
            if c.Send? && Start in calls && Close !in After(calls, Start)
               && FinishSend !in Before(After(calls, Start), Close) && (env.requestStream || Sent(env, calls) == [])
            then Sent(env, calls) + [c.message]
            else Sent(env, calls)
  {
    var a := After(calls, Start);
    var b := Before(a, Close);
    AfterSnoc(calls, c, Start);
    BeforeSnoc(a, c, Close);
    BeforeSnoc(b, c, FinishSend);
    MessagesSnoc(b, c);
    hide After, Before, Messages;
    EmptyAfter();
  }

  lemma EmptyAfter()
    ensures forall c :: Before([], c) == []
    ensures Messages([]) == []
  {
  }

  /** A Send call that is let through. */
  predicate LetsSend(env: Env, calls: seq<UserCall>) {
    && Start in calls && Close !in After(calls, Start) && FinishSend !in Before(After(calls, Start), Close)
    && (env.requestStream || Sent(env, calls) == [])
  }

  /** What one more call adds. */
  function Adds(env: Env, calls: seq<UserCall>, c: UserCall): seq<Entry> {
    match c
    case Start => if Start in calls then [] else [ToStart]
    case Send(m) => if LetsSend(env, calls) then [ToSend([0] + U32BE(|m| % UINT32_LIMIT) + m)] else []
    case FinishSend =>
      if Start in calls && Close !in After(calls, Start) && FinishSend !in Before(After(calls, Start), Close) then
        [ToFinish]
      else []
    case Close => if Start in calls && Close !in After(calls, Start) then [ToCancel] else []
    case _ => []
  }

  lemma NothingBeforeStart(env: Env, calls: seq<UserCall>)
    requires Start !in calls
    ensures After(calls, Start) == [] && Before(After(calls, Start), Close) == [] && Sent(env, calls) == []
  {
    AfterSnoc(calls, Start, Start);
  }

  // Without a close, all calls are in front of it.
  lemma ClosedBefore(calls: seq<UserCall>)
    ensures Close !in calls ==> Before(calls, Close) == calls
  {
    BeforeSnoc(calls, Start, Close);
  }

  // What one more call changes in the conditions.
  lemma FlagsSnoc(env: Env, calls: seq<UserCall>, c: UserCall)
    ensures var more := calls + [c];
            && (Start in more <==> Start in calls || c.Start?)
            && (Close in After(more, Start) <==> Close in After(calls, Start) || (c.Close? && Start in calls))
            && (FinishSend in Before(After(more, Start), Close) <==>
                  FinishSend in Before(After(calls, Start), Close)
                  || (c.FinishSend? && Start in calls && Close !in After(calls, Start)))
            && (Sent(env, more) != [] <==> Sent(env, calls) != [] || (c.Send? && LetsSend(env, calls)))
            && (Start !in calls ==> Close !in After(calls, Start) && FinishSend !in Before(After(calls, Start), Close)
                                    && Sent(env, calls) == [])
  {
    var a, b := After(calls, Start), Before(After(calls, Start), Close);
    if Start !in calls {
      NothingBeforeStart(env, calls);
    }
    AfterSnoc(calls, c, Start);
    BeforeSnoc(a, c, Close);
    assert forall x :: x in a + [c] <==> x in a || x == c;
    assert forall x :: x in b + [c] <==> x in b || x == c;
    SentSnoc(env, calls, c);
    ClosedBefore(a);
    hide After, Before, Sent;
  }

  lemma OutgoingSnoc(env: Env, calls: seq<UserCall>, c: UserCall)
    ensures Outgoing(env, calls + [c]) == Outgoing(env, calls) + Adds(env, calls, c)
  {
    var more, sent := calls + [c], Sent(env, calls);
    FlagsSnoc(env, calls, c);
    SentSnoc(env, calls, c);
    hide After, Before, Sent, SendEntries, U32BE;
    var start, data := if Start in calls then [ToStart] else [], SendEntries(sent);
    var finish := if FinishSend in Before(After(calls, Start), Close) then [ToFinish] else [];
    var cancel := if Close in After(calls, Start) then [ToCancel] else [];
    if Start !in calls {
      assert data == [] by { NoEntries(); }
    }
    if c.Send? && LetsSend(env, calls) {
      SendEntriesSnoc(sent, c.message);
      assert finish == [] && cancel == [];
    }
    assert Outgoing(env, calls) == start + data + finish + cancel;
    var adds := Adds(env, calls, c);
    if adds == [] {
      assert Outgoing(env, more) == start + data + finish + cancel;
      assert Outgoing(env, calls) + [] == Outgoing(env, calls);
    } else if c.Close? {
      assert Outgoing(env, more) == start + data + finish + adds && cancel == [];
    } else if c.FinishSend? {
      assert Outgoing(env, more) == start + data + adds + cancel && finish == [] && cancel == [];
    }
  }

  lemma NoEntries()
    ensures SendEntries([]) == []
  {
  }

  // A call that leaves the given entry, and its flags.
  lemma CallDid(env: Env, s: State, calls: seq<UserCall>, c: UserCall)
    requires Did(env, s, calls)
    ensures Did(env, Call(s, env, c), calls + [c])
  {
    var t := Call(s, env, c);
    OutgoingSnoc(env, calls, c);
    TallySnoc(calls, c);
    FlagsSnoc(env, calls, c);
    hide Outgoing, OutboundOf, Tally, Throws, After, Before, Sent, U32BE;
    if c.OnHeaders? || c.OnMessage? || c.OnEnd? {
      assert Outgoing(env, calls) + [] == Outgoing(env, calls);
    } else {
      var e := t.trace[|s.trace|];
      assert t.trace == s.trace + [e];
      Logged(s.trace, e);
      assert Adds(env, calls, c) == if OnTransport(e) then [e] else [];
    }
  }

  lemma {:induction false} CallAllDid(env: Env, s: State, calls: seq<UserCall>, more: seq<UserCall>)
    requires Did(env, s, calls)
    ensures Did(env, CallAll(s, env, more), calls + more)
    decreases more
  {
    hide Did, Call;
    if more == [] {
      assert calls + more == calls;
    } else {
      CallDid(env, s, calls, more[0]);
      CallAllDid(env, Call(s, env, more[0]), calls + [more[0]], more[1..]);
      assert calls + [more[0]] + more[1..] == calls + more;
    }
  }

  // States that differ in what the transport's side does not know.
  ghost predicate SameSending(s: State, t: State) {
    && t.trace == s.trace && t.ticks == s.ticks
    && t.started == s.started && t.closed == s.closed
    && t.finishedSending == s.finishedSending && t.sentFirstMessage == s.sentFirstMessage
    && t.onHeaders == s.onHeaders && t.onMessage == s.onMessage && t.onEnd == s.onEnd
  }

  lemma SameDid(env: Env, s: State, t: State, calls: seq<UserCall>)
    requires Did(env, s, calls) && SameSending(s, t)
    ensures Did(env, t, calls)
  {
    hide Outgoing, OutboundOf, Tally, Throws, After, Before, Sent;
  }

  /** From s to t only callbacks make calls, and each error that one throws is thrown again. */
  ghost predicate Reacts(env: Env, s: State, t: State) {
    && t.ticks >= s.ticks
    && Tally(t.trace, Reraised) - Tally(s.trace, Reraised) == Throws(env, t.ticks) - Throws(env, s.ticks)
    && forall calls :: Did(env, s, calls) ==> Did(env, t, calls + Reactions(env, s.ticks, t.ticks))
  }

  lemma SameReacts(env: Env, s: State, t: State)
    requires SameSending(s, t)
    ensures Reacts(env, s, t)
  {
    forall calls | Did(env, s, calls) ensures Did(env, t, calls + Reactions(env, s.ticks, t.ticks)) {
      SameDid(env, s, t, calls);
      hide Did;
      assert calls + [] == calls;
    }
  }

  lemma ReactsOn(env: Env, s: State, t: State, u: State)
    requires Reacts(env, s, t) && Reacts(env, t, u)
    ensures Reacts(env, s, u)
  {
    hide Did;
    forall calls | Did(env, s, calls) ensures Did(env, u, calls + Reactions(env, s.ticks, u.ticks)) {
      var first := Reactions(env, s.ticks, t.ticks);
      assert Did(env, t, calls + first);
      ReactionsConcat(env, s.ticks, t.ticks, u.ticks);
      Associate(calls, first, Reactions(env, t.ticks, u.ticks));
    }
  }

  // An entry that is neither for the transport nor a refusal.
  lemma MarkDid(env: Env, s: State, t: State, calls: seq<UserCall>, e: Entry)
    requires Did(env, s, calls) && SameSending(s.(trace := t.trace, ticks := t.ticks), t)
    requires t.trace == s.trace + [e] && !OnTransport(e) && e != Refused
    ensures Did(env, t, calls)
  {
    hide Outgoing, OutboundOf, Tally, After, Before, Sent;
    Logged(s.trace, e);
    assert OutboundOf(s.trace) + [] == OutboundOf(s.trace);
  }

  lemma {:induction false} CallAllRaises(env: Env, s: State, calls: seq<UserCall>)
    ensures var t := CallAll(s, env, calls);
            t.ticks == s.ticks && Tally(t.trace, Reraised) == Tally(s.trace, Reraised)
    decreases calls
  {
    hide Tally, Call;
    if calls != [] {
      CallRaises(env, s, calls[0]);
      CallAllRaises(env, Call(s, env, calls[0]), calls[1..]);
    }
  }

  lemma CallRaises(env: Env, s: State, c: UserCall)
    ensures var t := Call(s, env, c);
            t.ticks == s.ticks && Tally(t.trace, Reraised) == Tally(s.trace, Reraised)
  {
    hide Tally, U32BE;
    var t := Call(s, env, c);
    if !(c.OnHeaders? || c.OnMessage? || c.OnEnd?) {
      var e := t.trace[|s.trace|];
      assert t.trace == s.trace + [e];
      Logged(s.trace, e);
    }
  }

  lemma InvokeReacts(env: Env, s: State, slot: nat, what: Dispatch)
    ensures Reacts(env, s, Invoke(s, env, slot, what)) && Invoke(s, env, slot, what).ticks == s.ticks + 1
  {
    hide Did, Tally, CallAll;
    var reaction := env.react(s.ticks);
    var s1 := s.(ticks := s.ticks + 1).Log(Called(slot, what));
    var t := CallAll(s1, env, reaction.calls);
    OneReaction(env, s.ticks);
    CallAllRaises(env, s1, reaction.calls);
    Logged(s.trace, Called(slot, what));
    Logged(t.trace, Reraised);
    forall calls | Did(env, s, calls)
      ensures Did(env, Invoke(s, env, slot, what), calls + Reactions(env, s.ticks, s.ticks + 1))
    {
      MarkDid(env, s, s1, calls, Called(slot, what));
      CallAllDid(env, s1, calls, reaction.calls);
      if reaction.throws {
        MarkDid(env, t, t.Log(Reraised), calls + reaction.calls, Reraised);
      }
    }
  }

  lemma {:induction false} InvokeFromReacts(env: Env, s: State, slot: nat, count: nat, what: Dispatch)
    requires slot <= count
    ensures Reacts(env, s, InvokeFrom(s, env, slot, count, what))
    decreases count - slot
  {
    hide Reacts, Invoke;
    if slot == count {
      SameReacts(env, s, s);
    } else if s.closed && !what.OfHeaders? {
      InvokeFromReacts(env, s, slot + 1, count, what);
    } else {
      InvokeReacts(env, s, slot, what);
      InvokeFromReacts(env, Invoke(s, env, slot, what), slot + 1, count, what);
      ReactsOn(env, s, Invoke(s, env, slot, what), InvokeFrom(s, env, slot, count, what));
    }
  }

  lemma DispatchReacts(env: Env, s: State, t: State, count: nat, what: Dispatch)
    requires SameSending(s, t)
    ensures Reacts(env, s, InvokeFrom(t, env, 0, count, what))
  {
    hide Reacts, InvokeFrom;
    SameReacts(env, s, t);
    InvokeFromReacts(env, t, 0, count, what);
    ReactsOn(env, s, t, InvokeFrom(t, env, 0, count, what));
  }

  lemma CompleteReacts(env: Env, s: State, code: Code, text: string, trailers: Metadata)
    ensures Reacts(env, s, Complete(s, env, code, text, trailers))
  {
    hide Reacts, InvokeFrom;
    if s.completed {
      SameReacts(env, s, s);
    } else {
      var t := s.(completed := true).Log(Completed);
      MarkReacts(env, s, t, Completed);
      InvokeFromReacts(env, t, 0, s.onEnd, OfEnd(code, text, trailers));
      ReactsOn(env, s, t, Complete(s, env, code, text, trailers));
    }
  }

  lemma MarkReacts(env: Env, s: State, t: State, e: Entry)
    requires SameSending(s.(trace := t.trace), t) && t.trace == s.trace + [e]
    requires !OnTransport(e) && e != Refused && e != Reraised
    ensures Reacts(env, s, t)
  {
    hide Did, Tally;
    Logged(s.trace, e);
    forall calls | Did(env, s, calls) ensures Did(env, t, calls + Reactions(env, s.ticks, t.ticks)) {
      MarkDid(env, s, t, calls, e);
      assert calls + [] == calls;
    }
  }

  lemma HeadersReact(env: Env, s: State, t: State, headers: Metadata)
    requires SameSending(s, t)
    ensures Reacts(env, s, RawOnHeaders(t, env, headers))
  {
    hide Reacts, InvokeFrom;
    if t.completed { SameReacts(env, s, t); } else { DispatchReacts(env, s, t, t.onHeaders, OfHeaders(headers)); }
  }

  lemma {:induction false} ChunksReact(env: Env, s: State, chunks: seq<Chunk>)
    ensures Reacts(env, s, OnChunks(s, env, chunks))
    decreases chunks
  {
    hide Reacts, OnChunk;
    if chunks == [] {
      SameReacts(env, s, s);
    } else {
      ChunkReacts(env, s, chunks[0]);
      ChunksReact(env, OnChunk(s, env, chunks[0]), chunks[1..]);
      ReactsOn(env, s, OnChunk(s, env, chunks[0]), OnChunks(s, env, chunks));
    }
  }

  lemma ChunkReacts(env: Env, s: State, chunk: Chunk)
    ensures Reacts(env, s, OnChunk(s, env, chunk))
  {
    hide Reacts, InvokeFrom, RawOnHeaders;
    match chunk
    case Message(data) =>
      SameReacts(env, s, s);
      DispatchReacts(env, s, s.(delivered := s.delivered + [data]), s.onMessage, OfMessage(data));
    case Trailers(text) =>
      var metadata := env.parseMetadata(text);
      HeadersReact(env, s, s.(responseHeaders := Some(metadata)), metadata);
      SameReacts(env, s, s.(responseTrailers := Some(metadata)));
  }

  // What the transport delivers makes the client call nothing but its callbacks.
  lemma EventReacts(env: Env, s: State, e: Event)
    requires !e.User?
    ensures Reacts(env, s, Step(s, env, e))
  {
    hide Reacts, Complete, RawOnHeaders, OnChunks, ScanFrames, StatusText, StatusOf, HeadersCode;
    SameReacts(env, s, s);
    match e
    case TransportHeaders(headers, status) =>
      var t := RawOnHeaders(s.(responseHeaders := Some(headers)), env, headers);
      HeadersReact(env, s, s.(responseHeaders := Some(headers)), headers);
      var (code, text) := (HeadersCode(env, headers, status), StatusText(env, headers));
      CompleteReacts(env, t, code, text, headers);
      ReactsOn(env, s, t, Complete(t, env, code, text, headers));
    case TransportChunk(bytes) =>
      var scan := ScanFrames(s.pending + bytes);
      var t := s.(pending := scan.rest, fed := s.fed + bytes);
      SameReacts(env, s, t);
      CompleteReacts(env, t, INTERNAL, PARSING_ERROR, NO_METADATA);
      ReactsOn(env, s, t, Complete(t, env, INTERNAL, PARSING_ERROR, NO_METADATA));
      ChunksReact(env, t, ChunksOf(scan.frames));
      ReactsOn(env, s, t, OnChunks(t, env, ChunksOf(scan.frames)));
    case TransportEnd =>
      forall code, text, md ensures Reacts(env, s, Complete(s, env, code, text, md)) {
        CompleteReacts(env, s, code, text, md);
      }
  }

  // ---- whole runs ----

  /** The calls made in a run, in order: those of the user, and those of the callbacks it runs. */
  function CallsMade(s: State, env: Env, events: seq<Event>): seq<UserCall>
    decreases events
  {
    if events == [] then []
    else
      var t := Step(s, env, events[0]);
      (if events[0].User? then [events[0].call] else Between(env, s.ticks, t.ticks)) + CallsMade(t, env, events[1..])
  }

  function Between(env: Env, from: nat, end: nat): seq<UserCall> {
    if from <= end then Reactions(env, from, end) else []
  }

  lemma {:induction false} RunDid(env: Env, s: State, events: seq<Event>, calls: seq<UserCall>)
    requires Did(env, s, calls) && Tally(s.trace, Reraised) == Throws(env, s.ticks)
    ensures var t := Run(s, env, events);
            Did(env, t, calls + CallsMade(s, env, events)) && Tally(t.trace, Reraised) == Throws(env, t.ticks)
    decreases events
  {
    hide Did, Step, Tally, Throws;
    if events == [] {
      assert calls + [] == calls;
    } else {
      var e, t := events[0], Step(s, env, events[0]);
      var made := if e.User? then [e.call] else Between(env, s.ticks, t.ticks);
      assert Did(env, t, calls + made) && Tally(t.trace, Reraised) == Throws(env, t.ticks) by {
        StepDid(env, s, e, calls);
      }
      RunDid(env, t, events[1..], calls + made);
      Associate(calls, made, CallsMade(t, env, events[1..]));
    }
  }

  lemma StepDid(env: Env, s: State, e: Event, calls: seq<UserCall>)
    requires Did(env, s, calls) && Tally(s.trace, Reraised) == Throws(env, s.ticks)
    ensures var t := Step(s, env, e);
            var made := if e.User? then [e.call] else Between(env, s.ticks, t.ticks);
            Did(env, t, calls + made) && Tally(t.trace, Reraised) == Throws(env, t.ticks)
  {
    hide Did, Tally, Throws;
    if e.User? {
      CallDid(env, s, calls, e.call);
      CallRaises(env, s, e.call);
    } else {
      hide Step;
      EventReacts(env, s, e);
    }
  }

  lemma FreshDid(env: Env)
    ensures Did(env, FRESH, []) && Tally(FRESH.trace, Reraised) == Throws(env, FRESH.ticks)
  {
  }

  /** What goes to the transport, over every run and whatever the callbacks do: for the calls made, by the user or by
      callbacks, exactly start, every message let through in a frame of its own, finishSend and cancel. Every other call
      but a registration is refused. All callbacks registered are there, and every error thrown by one is thrown
      again. */
  lemma OutgoingExactly(env: Env, events: seq<Event>)
    ensures var t, calls := Run(FRESH, env, events), CallsMade(FRESH, env, events);
            && OutboundOf(t.trace) == Outgoing(env, calls)
            && |calls| == |OutboundOf(t.trace)| + Tally(t.trace, Refused) + t.onHeaders + t.onMessage + t.onEnd
            && t.onHeaders == Tally(calls, OnHeaders) && t.onMessage == Tally(calls, OnMessage)
            && t.onEnd == Tally(calls, OnEnd)
            && Tally(t.trace, Reraised) == Throws(env, t.ticks)
  {
    hide Run, Outgoing, OutboundOf, Tally, Throws, CallsMade;
    FreshDid(env);
    RunDid(env, FRESH, events, []);
    assert [] + CallsMade(FRESH, env, events) == CallsMade(FRESH, env, events);
  }

  // ---- the plain case ----

  function UserEvents(calls: seq<UserCall>): seq<Event> { seq(|calls|, i requires 0 <= i < |calls| => User(calls[i])) }

  lemma {:induction false} UserCallsMade(s: State, env: Env, calls: seq<UserCall>)
    ensures CallsMade(s, env, UserEvents(calls)) == calls
    decreases calls
  {
    hide Step;
    if calls != [] {
      assert UserEvents(calls)[1..] == UserEvents(calls[1..]);
      UserCallsMade(Step(s, env, User(calls[0])), env, calls[1..]);
    }
  }

  function Sends(messages: seq<seq<byte>>): seq<UserCall> {
    seq(|messages|, i requires 0 <= i < |messages| => Send(messages[i]))
  }

  lemma {:induction false} SendsAlone(messages: seq<seq<byte>>, c: UserCall)
    requires !c.Send?
    ensures Before(Sends(messages), c) == Sends(messages) && Messages(Sends(messages)) == messages
    ensures c !in Sends(messages)
  {
    if messages != [] {
      assert Sends(messages)[1..] == Sends(messages[1..]) && Sends(messages)[0] == Send(messages[0]);
      SendsAlone(messages[1..], c);
    }
  }

  /** A message in its frame, as sendMessage gets it. */
  function Framed(messages: seq<seq<byte>>): (entries: seq<Entry>)
    requires forall m | m in messages :: |m| < UINT32_LIMIT
  {
    seq(|messages|, i requires 0 <= i < |messages| =>
      assert messages[i] in messages;
      ToSend(EncodeFrame(Frame(0, messages[i]))))
  }

  lemma {:induction false} EntriesAreFrames(messages: seq<seq<byte>>)
    requires forall m | m in messages :: |m| < UINT32_LIMIT
    ensures SendEntries(messages) == Framed(messages)
  {
    hide EncodeFrame;
    if messages != [] {
      assert messages[0] in messages && forall m | m in messages[1..] :: m in messages;
      EntriesAreFrames(messages[1..]);
      FrameOf(messages[0]);
      assert Framed(messages) == [ToSend(EncodeFrame(Frame(0, messages[0])))] + Framed(messages[1..]);
    }
  }

  lemma FrameOf(m: seq<byte>)
    requires |m| < UINT32_LIMIT
    ensures EncodeFrame(Frame(0, m)) == [0] + U32BE(|m| % UINT32_LIMIT) + m
  {
  }

  /** After start, every message sent goes out as it is, in a frame with a zero flag: all of them in order when the
      request is a stream, and the first alone when it is not. */
  lemma MessagesGoOut(env: Env, messages: seq<seq<byte>>)
    requires forall m | m in messages :: |m| < UINT32_LIMIT
    ensures var out := if env.requestStream || messages == [] then messages else [messages[0]];
            OutboundOf(Run(FRESH, env, UserEvents([Start] + Sends(messages))).trace) == [ToStart] + Framed(out)
  {
    hide Run, OutboundOf, CallsMade, Framed;
    var calls := [Start] + Sends(messages);
    OutgoingExactly(env, UserEvents(calls));
    UserCallsMade(FRESH, env, calls);
    assert calls[1..] == Sends(messages) && Start in calls && After(calls, Start) == Sends(messages);
    SendsAlone(messages, Close);
    SendsAlone(messages, FinishSend);
    EntriesAreFrames(Sent(env, calls));
  }
}
