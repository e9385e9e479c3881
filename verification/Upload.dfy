/** A WebSocket upload end to end: the client's queue, a reliable channel that may be closed at any
    time, and the server's reads, interleaved in any way. */
module Upload {
  import opened Bytes
  import opened Framing
  import opened ClientModel
  import opened ClientSending
  import S = WebSocketSender
  import R = WebSocketReader

  // `taken` counts the messages the server has read, the first being the headers. `ended` says that a
  // Read has reported EOF, `finished` that it was because of the finish frame.
  datatype System = System(sender: S.Sender, taken: nat, reader: R.Reader, received: seq<byte>,
                           ended: bool, finished: bool)

  const INITIAL := System(S.IDLE, 0, R.UNREAD, [], false, false)

  // `Read(size, lost)` reads with a buffer of that size; with `lost` set, a closed connection is
  // noticed before the messages still under way.
  datatype Action =
    | Call(toSend: S.ToSend) | Start | Open | Close
    | AcceptHeaders | Read(size: nat, lost: bool)

  function Deliver(sys: System, o: R.Outcome, taken: nat, finished: bool): System {
    sys.(reader := o.reader, taken := taken, received := sys.received + o.bytes,
         ended := o.err == Some(R.EOF), finished := finished)
  }

  // A Read that would block changes nothing.
  function AfterRead(sys: System, size: nat, lost: bool): System {
    if sys.taken == 0 || sys.ended then sys
    else if sys.reader.remainingBuffer.Some? then
      Deliver(sys, R.ReadRemaining(sys.reader, size), sys.taken, false)
    else if sys.sender.ws == S.Closed && (lost || sys.taken >= |sys.sender.wire|) then
      Deliver(sys, R.ReadMessage(sys.reader, R.Incoming(0, [], None), size), sys.taken, false)
    else if sys.taken < |sys.sender.wire| then
      var frame := sys.sender.wire[sys.taken];
      Deliver(sys, R.ReadMessage(sys.reader, R.Incoming(R.BINARY, frame, None), size), sys.taken + 1, frame == [1])
    else sys
  }

  function Step(sys: System, headers: seq<byte>, a: Action): System {
    match a
    case Call(t) => sys.(sender := S.AfterCall(sys.sender, t))
    case Start => if sys.sender.ws == S.NotCreated then sys.(sender := sys.sender.(ws := S.Connecting)) else sys
    case Open => if sys.sender.ws == S.Connecting then sys.(sender := S.AfterOpen(sys.sender, headers)) else sys
    case Close => if sys.sender.ws != S.NotCreated then sys.(sender := sys.sender.(ws := S.Closed)) else sys
    case AcceptHeaders => if sys.taken == 0 && sys.sender.wire != [] then sys.(taken := 1) else sys
    case Read(size, lost) => AfterRead(sys, size, lost)
  }

  function Run(sys: System, headers: seq<byte>, actions: seq<Action>): System
    decreases |actions|
  {
    if actions == [] then sys else Run(Step(sys, headers, actions[0]), headers, actions[1..])
  }

  /** The message bytes of the calls up to the first finishSend. */
  function UpToFinish(calls: seq<S.ToSend>): seq<byte> {
    if calls == [] || calls[0].FinishSend? then [] else calls[0].bytes + UpToFinish(calls[1..])
  }

  lemma {:induction false} UpToFinishConcat(a: seq<S.ToSend>, b: seq<S.ToSend>)
    ensures UpToFinish(a + b) == UpToFinish(a) + if S.ToSend.FinishSend in a then [] else UpToFinish(b)
  {
    if a == [] {
      assert a + b == b;
    } else {
      assert (a + b)[1..] == a[1..] + b && (a + b)[0] == a[0];
      UpToFinishConcat(a[1..], b);
      assert forall t | t != a[0] :: t in a <==> t in a[1..];
    }
  }

  /** What every step keeps. `k` calls have been taken off the wire; the bytes received and those left
      over in the reader are theirs, and only the last of them can have been the finish signal. */
  ghost predicate Inv(sys: System, headers: seq<byte>) {
    && S.Inv(sys.sender, headers)
    && sys.taken <= |sys.sender.wire|
    && R.Valid(sys.reader) && sys.reader.remainingError == None
    && (sys.finished ==> sys.ended)
    && (sys.reader.cancelled <==> sys.ended && !sys.finished)
    && (sys.reader.cancelled ==> sys.sender.ws == S.Closed)
    && (sys.ended ==> sys.reader.remainingBuffer == None)
    && if sys.taken == 0 then sys.received == [] && sys.reader.remainingBuffer == None && !sys.ended
       else
         var k := sys.taken - 1;
         && k <= |sys.sender.calls|
         && sys.received + R.Left(sys.reader) == UpToFinish(sys.sender.calls[..k])
         && (sys.finished <==> S.ToSend.FinishSend in sys.sender.calls[..k])
  }

  // The next frame on the wire is that of the next call.
  lemma NextFrame(s: S.Sender, headers: seq<byte>, taken: nat)
    requires S.Inv(s, headers) && 0 < taken < |s.wire|
    ensures taken - 1 < |s.calls| && s.wire[taken] == S.WireFrame(s.calls[taken - 1])
  {
    var all := [headers] + S.WireFrames(s.calls);
    assert s.wire <= all && s.wire[taken] == all[taken];
  }

  // A message taken off the wire yields the bytes of its call.
  lemma FrameRead(r: R.Reader, t: S.ToSend, size: nat)
    requires R.Valid(r) && r == R.UNREAD.(cancelled := r.cancelled)
    ensures var o := R.ReadMessage(r, R.Incoming(R.BINARY, S.WireFrame(t), None), size);
            && R.Valid(o.reader) && o.reader.remainingError == None
            && o.bytes + R.Left(o.reader) == (if t.Data? then t.bytes else [])
            && (o.err == Some(R.EOF) <==> t.FinishSend?)
            && o.reader.cancelled == r.cancelled
            && (t.FinishSend? ==> o.reader.remainingBuffer == None)
            && (S.WireFrame(t) == [1] <==> t.FinishSend?)
  {
    var frame := S.WireFrame(t);
    S.FramesAreDistinct(t, S.ToSend.FinishSend);
    assert t.Data? ==> frame[1..] == t.bytes && frame[0] == 0;
    R.MessageRead(r, R.Incoming(R.BINARY, frame, None), size);
  }

  // A Read that takes a frame off the wire.
  lemma TakeKeeps(sys: System, headers: seq<byte>, size: nat)
    requires Inv(sys, headers) && 0 < sys.taken < |sys.sender.wire| && !sys.ended
    requires sys.reader.remainingBuffer.None?
    ensures var frame := sys.sender.wire[sys.taken];
            var o := R.ReadMessage(sys.reader, R.Incoming(R.BINARY, frame, None), size);
            Inv(Deliver(sys, o, sys.taken + 1, frame == [1]), headers)
  {
    hide UpToFinish, S.Inv, R.ReadMessage;
    var k := sys.taken - 1;
    var calls := sys.sender.calls;
    NextFrame(sys.sender, headers, sys.taken);
    var t := calls[k];
    FrameRead(sys.reader, t, size);
    var o := R.ReadMessage(sys.reader, R.Incoming(R.BINARY, S.WireFrame(t), None), size);
    TakeOne(calls, k);
    assert sys.received + [] == sys.received;
    assert sys.received + o.bytes + R.Left(o.reader) == sys.received + (o.bytes + R.Left(o.reader));
  }

  lemma ReadKeeps(sys: System, headers: seq<byte>, size: nat, lost: bool)
    requires Inv(sys, headers)
    ensures Inv(AfterRead(sys, size, lost), headers)
  {
    hide UpToFinish, S.Inv;
    var s := sys.sender;
    if sys.taken == 0 || sys.ended {
    } else if sys.reader.remainingBuffer.Some? {
      hide R.ReadRemaining;
      R.RemainingRead(sys.reader, size);
      var o := R.ReadRemaining(sys.reader, size);
      assert sys.received + o.bytes + R.Left(o.reader) == sys.received + (o.bytes + R.Left(o.reader));
    } else if s.ws == S.Closed && (lost || sys.taken >= |s.wire|) {
      assert sys.received + [] == sys.received;
    } else if sys.taken < |s.wire| {
      TakeKeeps(sys, headers, size);
    }
  }

  lemma TakeOne(calls: seq<S.ToSend>, k: nat)
    requires k < |calls|
    ensures S.ToSend.FinishSend !in calls[..k] ==>
              UpToFinish(calls[..k + 1]) == UpToFinish(calls[..k]) + if calls[k].Data? then calls[k].bytes else []
    ensures S.ToSend.FinishSend in calls[..k + 1] <==> S.ToSend.FinishSend in calls[..k] || calls[k].FinishSend?
  {
    assert calls[..k + 1] == calls[..k] + [calls[k]];
    UpToFinishConcat(calls[..k], [calls[k]]);
    assert [calls[k]][1..] == [];
    assert calls[k].Data? ==> calls[k].bytes + [] == calls[k].bytes;
  }

  lemma StepKeeps(sys: System, headers: seq<byte>, a: Action)
    requires Inv(sys, headers)
    ensures Inv(Step(sys, headers, a), headers)
  {
    hide UpToFinish;
    match a
    case Call(t) =>
      S.CallKeeps(sys.sender, t, headers);
      if sys.taken > 0 {
        assert (sys.sender.calls + [t])[..sys.taken - 1] == sys.sender.calls[..sys.taken - 1];
      }
    case Open =>
      if sys.sender.ws == S.Connecting {
        S.OpenKeeps(sys.sender, headers);
      }
    case Read(size, lost) => ReadKeeps(sys, headers, size, lost);
    case AcceptHeaders => assert UpToFinish(sys.sender.calls[..0]) == [] by { NothingSent(sys.sender.calls[..0]); }
    case Start =>
    case Close =>
  }

  lemma NothingSent(calls: seq<S.ToSend>)
    requires calls == []
    ensures UpToFinish(calls) == []
  {
  }

  lemma {:induction false} RunKeeps(sys: System, headers: seq<byte>, actions: seq<Action>)
    requires Inv(sys, headers)
    ensures Inv(Run(sys, headers, actions), headers)
    decreases |actions|
  {
    hide Inv, Step;
    if actions != [] {
      StepKeeps(sys, headers, actions[0]);
      RunKeeps(Step(sys, headers, actions[0]), headers, actions[1..]);
    }
  }

  /** End-to-end upload, over every interleaving of the client's calls, the opening and closing of the
      socket, and reads with buffers of any sizes: the bytes received are a prefix of the messages sent before
      finishSend, in the order sent, and all of them once a Read reports EOF because of the finish frame. The
      handler's context is cancelled only after the client's socket closed, and never because of that frame. */
  lemma UploadSafety(headers: seq<byte>, actions: seq<Action>)
    ensures var sys := Run(INITIAL, headers, actions);
            && sys.received <= UpToFinish(sys.sender.calls)
            && (sys.finished ==>
                  sys.received == UpToFinish(sys.sender.calls) && S.ToSend.FinishSend in sys.sender.calls)
            && (sys.reader.cancelled ==> sys.sender.ws == S.Closed && !sys.finished)
  {
    hide UpToFinish, Run;
    assert Inv(INITIAL, headers);
    RunKeeps(INITIAL, headers, actions);
    var sys := Run(INITIAL, headers, actions);
    var calls := sys.sender.calls;
    if sys.taken > 0 {
      var k := sys.taken - 1;
      assert calls == calls[..k] + calls[k..];
      UpToFinishConcat(calls[..k], calls[k..]);
      assert sys.received <= UpToFinish(calls[..k]) <= UpToFinish(calls);
      if sys.finished {
        assert sys.received + [] == sys.received;
        assert S.ToSend.FinishSend in calls[..k];
      }
    }
  }

  // ---- progress ----

  /** The Reads that are enough for what a server has still to take off the wire: one a frame and one a byte. */
  function ReadsToFinish(calls: seq<S.ToSend>): nat {
    if calls == [] then 0
    else if calls[0].FinishSend? then 1
    else 1 + |calls[0].bytes| + ReadsToFinish(calls[1..])
  }

  lemma {:induction false} ReadsSettled(calls: seq<S.ToSend>, more: seq<S.ToSend>)
    requires S.ToSend.FinishSend in calls
    ensures ReadsToFinish(calls + more) == ReadsToFinish(calls)
  {
    assert (calls + more)[0] == calls[0] && (calls + more)[1..] == calls[1..] + more;
    if calls[0].Data? {
      ReadsSettled(calls[1..], more);
    }
  }

  /** Finishing was asked for, and the server reads over an open socket: how many Reads are enough. */
  ghost predicate Finishing(sys: System) {
    sys.sender.ws == S.Open && 0 < sys.taken <= |sys.sender.calls| + 1 && S.ToSend.FinishSend in sys.sender.calls
  }

  function Distance(sys: System): nat
    requires 0 < sys.taken <= |sys.sender.calls| + 1
  {
    |R.Left(sys.reader)| + ReadsToFinish(sys.sender.calls[sys.taken - 1..])
  }

  // Until a Read finishes, the finish frame is one of those to come.
  lemma FinishAhead(sys: System, headers: seq<byte>)
    requires Inv(sys, headers) && Finishing(sys) && !sys.finished
    ensures S.ToSend.FinishSend in sys.sender.calls[sys.taken - 1..] && !sys.ended && sys.taken < |sys.sender.wire|
  {
    var calls, k := sys.sender.calls, sys.taken - 1;
    assert calls == calls[..k] + calls[k..];
    assert |[headers] + S.WireFrames(calls)| == 1 + |calls|;
  }

  lemma OneFrameLess(calls: seq<S.ToSend>, k: nat)
    requires k < |calls|
    ensures ReadsToFinish(calls[k..])
         == if calls[k].FinishSend? then 1 else 1 + |calls[k].bytes| + ReadsToFinish(calls[k + 1..])
  {
    assert calls[k..][0] == calls[k] && calls[k..][1..] == calls[k + 1..];
  }

  // What a Read that takes the frame of the next call does.
  lemma TakesFrame(sys: System, headers: seq<byte>, size: nat, lost: bool) returns (o: R.Outcome)
    requires Inv(sys, headers) && Finishing(sys) && !sys.finished && sys.reader.remainingBuffer.None?
    ensures sys.taken <= |sys.sender.calls|
    ensures var t := sys.sender.calls[sys.taken - 1];
            && AfterRead(sys, size, lost) == Deliver(sys, o, sys.taken + 1, t.FinishSend?)
            && (t.Data? ==> |R.Left(o.reader)| <= |t.bytes|)
  {
    FinishAhead(sys, headers);
    NextFrame(sys.sender, headers, sys.taken);
    hide UpToFinish, S.Inv, S.WireFrame, R.ReadMessage, R.Left;
    var t := sys.sender.calls[sys.taken - 1];
    FrameRead(sys.reader, t, size);
    o := R.ReadMessage(sys.reader, R.Incoming(R.BINARY, S.WireFrame(t), None), size);
    assert |o.bytes + R.Left(o.reader)| == |o.bytes| + |R.Left(o.reader)|;
  }

  // A Read that takes a frame brings the end nearer, whatever the buffer holds.
  lemma TakeAdvances(sys: System, headers: seq<byte>, size: nat, lost: bool)
    requires Inv(sys, headers) && Finishing(sys) && !sys.finished && sys.reader.remainingBuffer.None?
    ensures var r := AfterRead(sys, size, lost); Finishing(r) && (r.finished || Distance(r) < Distance(sys))
  {
    hide Inv, AfterRead, ReadsToFinish, R.Left;
    var o := TakesFrame(sys, headers, size, lost);
    OneFrameLess(sys.sender.calls, sys.taken - 1);
  }

  // So does one that shortens what is left over.
  lemma ReadAdvances(sys: System, headers: seq<byte>, size: nat, lost: bool)
    requires Inv(sys, headers) && Finishing(sys) && !sys.finished && size > 0
    ensures var r := AfterRead(sys, size, lost); Finishing(r) && (r.finished || Distance(r) < Distance(sys))
  {
    if sys.reader.remainingBuffer.Some? {
      hide UpToFinish, S.Inv, ReadsToFinish;
      FinishAhead(sys, headers);
      R.RemainingShrinks(sys.reader, size);
    } else {
      TakeAdvances(sys, headers, size, lost);
    }
  }

  // No other step but a close takes it further away.
  lemma OtherStepAdvances(sys: System, headers: seq<byte>, a: Action)
    requires Inv(sys, headers) && Finishing(sys) && !sys.finished && !a.Close? && !a.Read?
    ensures var r := Step(sys, headers, a); Finishing(r) && Distance(r) <= Distance(sys)
  {
    hide UpToFinish;
    FinishAhead(sys, headers);
    if a.Call? {
      var calls, k := sys.sender.calls, sys.taken - 1;
      assert (calls + [a.toSend])[k..] == calls[k..] + [a.toSend];
      ReadsSettled(calls[k..], [a.toSend]);
    }
  }

  /** How many of the actions are Reads with a buffer that is not empty. */
  function NonEmptyReads(actions: seq<Action>): nat {
    if actions == [] then 0
    else (if actions[0].Read? && actions[0].size > 0 then 1 else 0) + NonEmptyReads(actions[1..])
  }

  // A Read with an empty buffer does no harm.
  lemma EmptyReadAdvances(sys: System, headers: seq<byte>, lost: bool)
    requires Inv(sys, headers) && Finishing(sys) && !sys.finished
    ensures var r := AfterRead(sys, 0, lost); Finishing(r) && (r.finished || Distance(r) <= Distance(sys))
  {
    if sys.reader.remainingBuffer.Some? {
      hide UpToFinish, S.Inv, ReadsToFinish;
      FinishAhead(sys, headers);
    } else {
      TakeAdvances(sys, headers, 0, lost);
    }
  }

  lemma {:induction false} StaysFinished(sys: System, headers: seq<byte>, actions: seq<Action>)
    requires Inv(sys, headers) && sys.finished
    ensures Run(sys, headers, actions).finished
    decreases |actions|
  {
    hide Inv;
    if actions != [] {
      assert sys.ended by { FinishedEnded(sys, headers); }
      StepKeeps(sys, headers, actions[0]);
      StaysFinished(Step(sys, headers, actions[0]), headers, actions[1..]);
    }
  }

  lemma FinishedEnded(sys: System, headers: seq<byte>)
    requires Inv(sys, headers) && sys.finished
    ensures sys.ended
  {
  }

  lemma {:induction false} ReadsGetThere(sys: System, headers: seq<byte>, actions: seq<Action>)
    requires Inv(sys, headers) && Finishing(sys)
    requires Action.Close !in actions && NonEmptyReads(actions) >= Distance(sys)
    ensures Run(sys, headers, actions).finished
    decreases |actions|
  {
    hide Inv, S.Inv, Step, AfterRead, Finishing, Distance;
    if sys.finished {
      StaysFinished(sys, headers, actions);
    } else {
      StillToRead(sys, headers);
      var a := actions[0];
      var r := Step(sys, headers, a);
      StepKeeps(sys, headers, a);
      OneAdvances(sys, headers, a);
      if r.finished {
        StaysFinished(r, headers, actions[1..]);
      } else {
        ReadsGetThere(r, headers, actions[1..]);
      }
    }
  }

  lemma StillToRead(sys: System, headers: seq<byte>)
    requires Inv(sys, headers) && Finishing(sys) && !sys.finished
    ensures Distance(sys) > 0
  {
    FinishAhead(sys, headers);
  }

  lemma OneAdvances(sys: System, headers: seq<byte>, a: Action)
    requires Inv(sys, headers) && Finishing(sys) && !sys.finished && !a.Close?
    ensures var r := Step(sys, headers, a);
            Finishing(r) && (r.finished || Distance(r) + NonEmptyReads([a]) <= Distance(sys))
  {
    hide Inv, AfterRead, Distance;
    assert NonEmptyReads([a]) == if a.Read? && a.size > 0 then 1 else 0 by { assert [a][1..] == []; }
    match a
    case Read(size, lost) =>
      if size > 0 { ReadAdvances(sys, headers, size, lost); } else { EmptyReadAdvances(sys, headers, lost); }
    case _ => OtherStepAdvances(sys, headers, a);
  }

  /** Progress, from any state of any run in which finishSend was called, the socket is open and the server has its
      headers: as long as nobody closes the socket, enough Reads with buffers that are not empty reach the finish
      frame, whatever calls and other steps come between. The server has every message sent before finishSend then. */
  lemma UploadFinishes(headers: seq<byte>, before: seq<Action>, after: seq<Action>)
    requires Finishing(Run(INITIAL, headers, before)) && Action.Close !in after
    requires NonEmptyReads(after) >= Distance(Run(INITIAL, headers, before))
    ensures var sys := Run(INITIAL, headers, before + after);
            sys.finished && sys.received == UpToFinish(sys.sender.calls) && !sys.reader.cancelled
  {
    hide UpToFinish, Run, Finishing, Distance;
    var sys := Run(INITIAL, headers, before);
    RunKeeps(INITIAL, headers, before);
    ReadsGetThere(sys, headers, after);
    RunConcat(INITIAL, headers, before, after);
    UploadSafety(headers, before + after);
  }

  lemma {:induction false} RunConcat(sys: System, headers: seq<byte>, a: seq<Action>, b: seq<Action>)
    ensures Run(sys, headers, a + b) == Run(Run(sys, headers, a), headers, b)
    decreases |a|
  {
    if a == [] {
      assert a + b == b;
    } else {
      assert (a + b)[0] == a[0] && (a + b)[1..] == a[1..] + b;
      RunConcat(Step(sys, headers, a[0]), headers, a[1..], b);
    }
  }

  // ---- what a gRPC client sends ----

  /** The calls on the transport that a client's trace shows. */
  function CallsOf(trace: seq<Entry>): seq<S.ToSend> {
    if trace == [] then []
    else
      var e := trace[|trace| - 1];
      CallsOf(trace[..|trace| - 1]) +
      (match e
       case ToSend(frame) => [S.Data(frame)]
       case ToFinish => [S.ToSend.FinishSend]
       case _ => [])
  }

  lemma CallsSnoc(trace: seq<Entry>, e: Entry)
    ensures CallsOf(trace + [e]) == CallsOf(trace) +
            (match e
             case ToSend(frame) => [S.Data(frame)]
             case ToFinish => [S.ToSend.FinishSend]
             case _ => [])
  {
    assert (trace + [e])[..|trace|] == trace;
  }

  // Only what goes to the transport counts.
  lemma {:induction false} CallsAreOutbound(trace: seq<Entry>)
    ensures CallsOf(OutboundOf(trace)) == CallsOf(trace)
  {
    if trace != [] {
      var rest, e := trace[..|trace| - 1], trace[|trace| - 1];
      CallsAreOutbound(rest);
      if OnTransport(e) {
        CallsSnoc(OutboundOf(rest), e);
      } else {
        assert CallsOf(rest) + [] == CallsOf(rest) && OutboundOf(rest) + [] == OutboundOf(rest);
      }
    }
  }

  lemma {:induction false} CallsConcat(a: seq<Entry>, b: seq<Entry>)
    ensures CallsOf(a + b) == CallsOf(a) + CallsOf(b)
    decreases |b|
  {
    if b == [] {
      assert a + b == a;
    } else {
      var n := |b| - 1;
      assert (a + b)[..|a| + n] == a + b[..n] && (a + b)[|a| + n] == b[n];
      CallsConcat(a, b[..n]);
    }
  }

  ghost predicate Short(messages: seq<seq<byte>>) { forall m | m in messages :: |m| < UINT32_LIMIT }

  lemma DataFramesFit(messages: seq<seq<byte>>)
    requires Short(messages)
    ensures AllFit(DataFrames(messages))
  {
    forall f | f in DataFrames(messages) ensures f.Fits() {
      var i :| 0 <= i < |messages| && DataFrames(messages)[i] == f;
      assert messages[i] in messages;
    }
  }

  // The bytes of the messages sent, up to the end.
  lemma {:induction false} MessageBytes(messages: seq<seq<byte>>)
    requires Short(messages)
    ensures AllFit(DataFrames(messages))
    ensures UpToFinish(CallsOf(SendEntries(messages))) == EncodeAll(DataFrames(messages))
    ensures S.ToSend.FinishSend !in CallsOf(SendEntries(messages))
  {
    hide EncodeFrame, U32BE;
    DataFramesFit(messages);
    if messages != [] {
      var m, rest := messages[0], messages[1..];
      assert m in messages && forall x | x in rest :: x in messages;
      MessageBytes(rest);
      FrameOf(m);
      var frame := EncodeFrame(Frame(0, m));
      CallsConcat([ToSend(frame)], SendEntries(rest));
      CallsSnoc([], ToSend(frame));
      assert [] + [ToSend(frame)] == [ToSend(frame)] && [] + [S.Data(frame)] == [S.Data(frame)];
      UpToFinishConcat([S.Data(frame)], CallsOf(SendEntries(rest)));
      EncodeOneMore(Frame(0, m), DataFrames(rest));
      assert DataFrames(messages) == [Frame(0, m)] + DataFrames(rest);
    }
  }

  // Behind the messages there is nothing but the finish signal.
  lemma OutgoingCalls(start: seq<Entry>, data: seq<Entry>, finish: seq<Entry>, cancel: seq<Entry>)
    requires start in {[], [ToStart]} && finish in {[], [ToFinish]} && cancel in {[], [ToCancel]}
    ensures CallsOf(start + data + finish + cancel) == CallsOf(data) + CallsOf(finish)
  {
    Marks();
    hide CallsOf;
    CallsConcat(start + data + finish, cancel);
    CallsConcat(start + data, finish);
    CallsConcat(start, data);
    assert [] + CallsOf(data) == CallsOf(data);
    assert CallsOf(data) + CallsOf(finish) + [] == CallsOf(data) + CallsOf(finish);
  }

  lemma OutgoingBytes(env: Env, calls: seq<UserCall>)
    requires Short(Sent(env, calls))
    ensures AllFit(DataFrames(Sent(env, calls)))
    ensures UpToFinish(CallsOf(Outgoing(env, calls))) == EncodeAll(DataFrames(Sent(env, calls)))
  {
    hide EncodeAll, DataFrames, SendEntries, Sent, Before, After, UpToFinish, CallsOf;
    var sent := Sent(env, calls);
    var open := Before(After(calls, UserCall.Start), UserCall.Close);
    var finish := if UserCall.FinishSend in open then [ToFinish] else [];
    MessageBytes(sent);
    OutgoingCalls(if UserCall.Start in calls then [ToStart] else [], SendEntries(sent), finish,
                  if UserCall.Close in After(calls, UserCall.Start) then [ToCancel] else []);
    Marks();
    var data := CallsOf(SendEntries(sent));
    UpToFinishConcat(data, CallsOf(finish));
    assert UpToFinish(data) + [] == UpToFinish(data);
  }

  lemma Marks()
    ensures CallsOf([]) == [] && CallsOf([ToStart]) == [] && CallsOf([ToCancel]) == []
    ensures CallsOf([ToFinish]) == [S.ToSend.FinishSend]
    ensures UpToFinish([S.ToSend.FinishSend]) == [] && UpToFinish([]) == []
  {
    CallsSnoc([], ToStart);
    CallsSnoc([], ToCancel);
    CallsSnoc([], ToFinish);
    assert [] + [ToStart] == [ToStart] && [] + [ToCancel] == [ToCancel] && [] + [ToFinish] == [ToFinish];
  }

  /** A whole upload: when the calls on the socket are those of a client run, whatever that run was, the body that the
      server reads decodes to messages of the Send calls that were let through, in order, and once a Read reports EOF
      because of the finish frame, to exactly those. */
  lemma UploadDelivers(env: Env, events: seq<Event>, headers: seq<byte>, actions: seq<Action>)
    requires Run(INITIAL, headers, actions).sender.calls == CallsOf(ClientModel.Run(FRESH, env, events).trace)
    requires Short(Sent(env, CallsMade(FRESH, env, events)))
    ensures var messages := Sent(env, CallsMade(FRESH, env, events));
            var sys := Run(INITIAL, headers, actions);
            && DecodeAll(sys.received).frames <= DataFrames(messages)
            && (sys.finished ==> DecodeAll(sys.received) == Decoded(DataFrames(messages), []))
  {
    hide Run, ClientModel.Run, UpToFinish, CallsOf, CallsMade, Sent, Outgoing, OutboundOf, DecodeAll, Short, Tally;
    var calls := CallsMade(FRESH, env, events);
    var trace := ClientModel.Run(FRESH, env, events).trace;
    var sys := Run(INITIAL, headers, actions);
    OutgoingExactly(env, events);
    CallsAreOutbound(trace);
    OutgoingBytes(env, calls);
    UploadSafety(headers, actions);
    var fs := DataFrames(Sent(env, calls));
    var all := EncodeAll(fs);
    DecodeEncode(fs, []);
    NothingDecodable([]);
    assert all + [] == all && fs + DecodeAll([]).frames == fs;
    var more := all[|sys.received|..];
    assert sys.received + more == all;
    DecodeAppend(sys.received, more);
  }
}
