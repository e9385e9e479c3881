/** The client's side of a WebSocket upload: messages wait in a queue until the socket opens. */
module WebSocketSender {
  import opened Bytes

  // An entry of the send queue: framed message bytes, or the signal that sending is finished.
  datatype ToSend = Data(bytes: seq<byte>) | FinishSend

  // `NotCreated` stands for `ws` being undefined, `Closed` for CLOSING and CLOSED.
  datatype ReadyState = NotCreated | Connecting | Open | Closed

  const FINISH_SEND_FRAME: seq<byte> := [1]

  /** What goes over the socket for a queue entry: a control byte, then the message. */
  function WireFrame(t: ToSend): seq<byte> {
    match t
    case Data(bytes) => [0] + bytes
    case FinishSend => FINISH_SEND_FRAME
  }

  function WireFrames(ts: seq<ToSend>): seq<seq<byte>> {
    seq(|ts|, i requires 0 <= i < |ts| => WireFrame(ts[i]))
  }

  /** No data frame is the finish signal, not even an empty message, and frames tell messages apart. */
  lemma FramesAreDistinct(a: ToSend, b: ToSend)
    ensures WireFrame(a) == WireFrame(b) <==> a == b
  {
    if WireFrame(a) == WireFrame(b) {
      assert WireFrame(a)[0] == WireFrame(b)[0];
      assert a.Data? ==> WireFrame(a)[1..] == a.bytes;
      assert b.Data? ==> WireFrame(b)[1..] == b.bytes;
    }
  }

  /** What a frame means to whoever receives it: a control byte of 0 and a message, or a lone 1. */
  function Unwire(frame: seq<byte>): Option<ToSend> {
    if frame == [1] then Some(FinishSend)
    else if frame != [] && frame[0] == 0 then Some(Data(frame[1..]))
    else None
  }

  lemma UnwireFrame(t: ToSend)
    ensures Unwire(WireFrame(t)) == Some(t)
  {
    assert t.Data? ==> WireFrame(t)[1..] == t.bytes;
  }

  /** Over an open socket, the headers are followed by frames that mean what was called, in order. */
  lemma WireMeans(s: Sender, headers: seq<byte>)
    requires s.ws == Open && Inv(s, headers)
    ensures |s.wire| == 1 + |s.calls| && s.wire[0] == headers
    ensures forall i | 0 <= i < |s.calls| :: Unwire(s.wire[1 + i]) == Some(s.calls[i])
  {
    forall i | 0 <= i < |s.calls| ensures Unwire(s.wire[1 + i]) == Some(s.calls[i]) {
      UnwireFrame(s.calls[i]);
    }
  }

  // `wire` is what the socket accepted for sending, `calls` the history of sendMessage and finishSend.
  datatype Sender = Sender(ws: ReadyState, sendQueue: seq<ToSend>, wire: seq<seq<byte>>, calls: seq<ToSend>)

  const IDLE := Sender(NotCreated, [], [], [])

  // WebSocket.send: a closing socket discards the data.
  function AfterSocketSend(s: Sender, frame: seq<byte>): Sender {
    if s.ws == Open then s.(wire := s.wire + [frame]) else s
  }

  function AfterCall(s: Sender, t: ToSend): Sender {
    var r := s.(calls := s.calls + [t]);
    if s.ws == NotCreated || s.ws == Connecting then r.(sendQueue := s.sendQueue + [t])
    else AfterSocketSend(r, WireFrame(t))
  }

  function AfterFlush(s: Sender, ts: seq<ToSend>): Sender
    decreases |ts|
  {
    if ts == [] then s else AfterFlush(AfterSocketSend(s, WireFrame(ts[0])), ts[1..])
  }

  function AfterOpen(s: Sender, headers: seq<byte>): Sender {
    AfterFlush(AfterSocketSend(s.(ws := Open), headers), s.sendQueue)
  }

  // A signed byte, the element of an Int8Array.
  type int8 = x: int | -0x80 <= x < 0x80

  function ToInt8(b: byte): int8 { if b < 0x80 then b else b as int - 0x100 }

  // The byte that the socket transmits for an element.
  function Transmitted(x: int8): byte { if x >= 0 then x else x + 0x100 }

  class WebSocketRequest {
    var ws: ReadyState
    var sendQueue: seq<ToSend>
    var wire: seq<seq<byte>>
    ghost var calls: seq<ToSend>

    ghost function State(): Sender
      reads this
    {
      Sender(ws, sendQueue, wire, calls)
    }

    constructor ()
      ensures State() == IDLE
    {
      ws, sendQueue, wire, calls := NotCreated, [], [], [];
    }

    method SocketSend(frame: seq<byte>)
      modifies this
      ensures State() == AfterSocketSend(old(State()), frame)
    {
      if ws == Open {
        wire := wire + [frame];
      }
    }

    method SendToWebsocket(toSend: ToSend)
      modifies this
      ensures State() == AfterSocketSend(old(State()), WireFrame(toSend))
    {
      if toSend == ToSend.FinishSend {
        SocketSend(FINISH_SEND_FRAME);
      } else {
        var byteArray := toSend.bytes;
        var c := new int8[|byteArray| + 1](_ => 0);
        forall i | 0 <= i < |byteArray| {
          c[1 + i] := ToInt8(byteArray[i]);
        }
        var sent := seq(c.Length, i requires 0 <= i < c.Length reads c => Transmitted(c[i]));
        assert sent == [0] + byteArray;
        SocketSend(sent);
      }
    }

    method SendMessage(msgBytes: seq<byte>)
      modifies this
      ensures State() == AfterCall(old(State()), Data(msgBytes))
    {
      calls := calls + [Data(msgBytes)];
      if ws == NotCreated || ws == Connecting {
        sendQueue := sendQueue + [Data(msgBytes)];
      } else {
        SendToWebsocket(Data(msgBytes));
      }
    }

    method FinishSend()
      modifies this
      ensures State() == AfterCall(old(State()), ToSend.FinishSend)
    {
      calls := calls + [ToSend.FinishSend];
      if ws == NotCreated || ws == Connecting {
        sendQueue := sendQueue + [ToSend.FinishSend];
      } else {
        SendToWebsocket(ToSend.FinishSend);
      }
    }

    // The client starts a transport at most once.
    method Start()
      requires ws == NotCreated
      modifies this
      ensures State() == old(State()).(ws := Connecting)
    {
      ws := Connecting;
    }

    // The browser opens a connecting socket and runs this handler in one task. `headers` is the
    // encoded metadata.
    method OnOpen(headers: seq<byte>)
      requires ws == Connecting
      modifies this
      ensures State() == AfterOpen(old(State()), headers)
    {
      ws := Open;
      SocketSend(headers);
      var queue := sendQueue;
      ghost var start := State();
      for i := 0 to |queue|
        invariant AfterFlush(State(), queue[i..]) == AfterFlush(start, queue)
      {
        assert queue[i..][0] == queue[i] && queue[i..][1..] == queue[i + 1..];
        SendToWebsocket(queue[i]);
      }
    }

    // cancel, or the other side closing the socket.
    method Close()
      requires ws != NotCreated
      modifies this
      ensures State() == old(State()).(ws := Closed)
    {
      ws := Closed;
    }
  }

  /** What every step keeps: before the socket opens, everything sent so far waits in the queue; while
      it is open, the wire holds the headers and then every call in order; afterwards a prefix of that. */
  ghost predicate Inv(s: Sender, headers: seq<byte>) {
    var all := [headers] + WireFrames(s.calls);
    match s.ws
    case NotCreated => s.wire == [] && s.sendQueue == s.calls
    case Connecting => s.wire == [] && s.sendQueue == s.calls
    case Open => s.wire == all
    case Closed => s.wire <= all
  }

  lemma {:induction false} FlushSends(s: Sender, ts: seq<ToSend>)
    requires s.ws == Open
    ensures AfterFlush(s, ts) == s.(wire := s.wire + WireFrames(ts))
    decreases |ts|
  {
    if ts == [] {
      assert s.wire + [] == s.wire;
    } else {
      assert WireFrames(ts) == [WireFrame(ts[0])] + WireFrames(ts[1..]);
      FlushSends(AfterSocketSend(s, WireFrame(ts[0])), ts[1..]);
      assert s.wire + [WireFrame(ts[0])] + WireFrames(ts[1..]) == s.wire + WireFrames(ts);
    }
  }

  lemma CallKeeps(s: Sender, t: ToSend, headers: seq<byte>)
    requires Inv(s, headers)
    ensures Inv(AfterCall(s, t), headers)
  {
    assert WireFrames(s.calls + [t]) == WireFrames(s.calls) + [WireFrame(t)];
    assert [headers] + WireFrames(s.calls) + [WireFrame(t)] == [headers] + WireFrames(s.calls + [t]);
  }

  /** A call reaches the wire only over an open socket, and waits only before it opens. */
  lemma OnlyOpenSends(s: Sender, t: ToSend)
    ensures var r := AfterCall(s, t);
            && r.ws == s.ws
            && r.wire == (if s.ws == Open then s.wire + [WireFrame(t)] else s.wire)
            && r.sendQueue == (if s.ws == NotCreated || s.ws == Connecting then s.sendQueue + [t] else s.sendQueue)
  {
  }

  /** Opening sends the headers and everything that waited, once and in order. */
  lemma OpenKeeps(s: Sender, headers: seq<byte>)
    requires s.ws == Connecting && Inv(s, headers)
    ensures Inv(AfterOpen(s, headers), headers) && AfterOpen(s, headers).calls == s.calls
  {
    var r := AfterSocketSend(s.(ws := Open), headers);
    FlushSends(r, s.sendQueue);
    assert r.wire == [headers];
  }
}
