/** The server's side of a WebSocket upload: the request body is read from the data frames, cut to
    whatever buffers the caller offers. */
module WebSocketReader {
  import opened Bytes

  datatype Error = EOF | NotBinary | Failed(reason: string)

  const BINARY := 2

  // What one Read of the connection returns: message type 0 when there was no message.
  datatype Incoming = Incoming(messageType: nat, payload: seq<byte>, err: Option<Error>)

  datatype Reader = Reader(remainingBuffer: Option<seq<byte>>, remainingError: Option<Error>, cancelled: bool)

  const UNREAD := Reader(None, None, false)

  // The outcome of one Read: the bytes put into the buffer, the error, and whether it took a message
  // from the connection.
  datatype Outcome = Outcome(reader: Reader, bytes: seq<byte>, err: Option<Error>)

  // A Read that goes on with what an earlier one left over.
  function ReadRemaining(r: Reader, size: nat): Outcome
    requires r.remainingBuffer.Some?
  {
    var rest := r.remainingBuffer.value;
    if |rest| <= size then Outcome(r.(remainingBuffer := None, remainingError := None), rest, r.remainingError)
    else Outcome(r.(remainingBuffer := Some(rest[size..])), rest[..size], None)
  }

  // A Read that takes the next message.
  function ReadMessage(r: Reader, m: Incoming, size: nat): Outcome
    requires r.remainingBuffer.None?
  {
    if m.err == Some(EOF) || m.messageType == 0 then Outcome(r.(cancelled := true), [], Some(EOF))
    else if m.messageType != BINARY then Outcome(r, [], Some(NotBinary))
    else if m.payload == [1] then Outcome(r, [], Some(EOF))
    else if m.payload == [] then Outcome(r, [], m.err)
    else
      var data := m.payload[1..];
      if |data| <= size then Outcome(r, data, m.err)
      else Outcome(r.(remainingBuffer := Some(data[size..]), remainingError := m.err), data[..size], None)
  }

  /** The message type is that of section 11.8 of RFC 6455: of the two kinds of messages, only those of type 2 are
      read. A message that is lost, or the end of the connection, cancels the handler. */
  lemma MessageTypes(r: Reader, payload: seq<byte>, size: nat)
    requires r.remainingBuffer.None?
    ensures ReadMessage(r, Incoming(1, payload, None), size) == Outcome(r, [], Some(NotBinary))
    ensures payload != [] && payload != [1] && |payload| <= size + 1 ==>
              ReadMessage(r, Incoming(2, payload, None), size) == Outcome(r, payload[1..], None)
    ensures ReadMessage(r, Incoming(2, [1], None), size) == Outcome(r, [], Some(EOF))
    ensures forall err ::
              ReadMessage(r, Incoming(0, payload, err), size) == Outcome(r.(cancelled := true), [], Some(EOF))
    ensures forall m: Incoming ::
              ReadMessage(r, m, size).reader.cancelled <==> r.cancelled || m.messageType == 0 || m.err == Some(EOF)
  {
  }

  class Conn {
    var incoming: seq<Incoming>

    constructor (incoming: seq<Incoming>)
      ensures this.incoming == incoming
    {
      this.incoming := incoming;
    }

    // Returns when there is a message or the connection is gone, so `incoming` is not empty then.
    method Read() returns (messageType: nat, payload: seq<byte>, err: Option<Error>)
      requires incoming != []
      modifies this
      ensures old(incoming) == [Incoming(messageType, payload, err)] + incoming
    {
      messageType, payload, err := incoming[0].messageType, incoming[0].payload, incoming[0].err;
      incoming := incoming[1..];
    }
  }

  // copy(p, src) for a source that fits.
  method Copy(p: array<byte>, src: seq<byte>)
    requires |src| <= p.Length
    modifies p
    ensures p[..] == src + old(p[|src|..])
  {
    forall i | 0 <= i < |src| {
      p[i] := src[i];
    }
  }

  class WrappedReader {
    const wsConn: Conn
    var remainingBuffer: Option<seq<byte>>
    var remainingError: Option<Error>
    // Whether cancel was called, which tells the response writer that the client is gone.
    var cancelled: bool

    constructor (wsConn: Conn)
      ensures this.wsConn == wsConn && State() == UNREAD
    {
      this.wsConn := wsConn;
      remainingBuffer, remainingError, cancelled := None, None, false;
    }

    ghost function State(): Reader
      reads this
    {
      Reader(remainingBuffer, remainingError, cancelled)
    }

    method Read(p: array<byte>) returns (n: nat, err: Option<Error>)
      requires remainingBuffer.None? ==> wsConn.incoming != []
      modifies this, wsConn, p
      ensures n <= p.Length && p[n..] == old(p[n..])
      ensures old(remainingBuffer).Some? ==>
                && Outcome(State(), p[..n], err) == ReadRemaining(old(State()), p.Length)
                && wsConn.incoming == old(wsConn.incoming)
      ensures old(remainingBuffer).None? ==>
                && Outcome(State(), p[..n], err) == ReadMessage(old(State()), old(wsConn.incoming[0]), p.Length)
                && wsConn.incoming == old(wsConn.incoming[1..])
    {
      if remainingBuffer != None {
        var remaining := remainingBuffer.value;
        if |remaining| <= p.Length {
          Copy(p, remaining);
          var remainingLength := |remaining|;
          err := remainingError;
          remainingBuffer := None;
          remainingError := None;
          return remainingLength, err;
        }
        Copy(p, remaining[..p.Length]);
        remainingBuffer := Some(remaining[p.Length..]);
        return p.Length, None;
      }
      var messageType, framePayload, readErr := wsConn.Read();
      if readErr == Some(EOF) || messageType == 0 {
        cancelled := true;
        return 0, Some(EOF);
      }
      if messageType != BINARY {
        return 0, Some(NotBinary);
      }
      if |framePayload| == 1 && framePayload[0] == 1 {
        assert framePayload == [1];
        return 0, Some(EOF);
      }
      if |framePayload| == 0 {
        return 0, readErr;
      }
      var dataPayload := framePayload[1..];
      if |dataPayload| <= p.Length {
        Copy(p, dataPayload);
        return |dataPayload|, readErr;
      }
      Copy(p, dataPayload[..p.Length]);
      remainingBuffer := Some(dataPayload[p.Length..]);
      remainingError := readErr;
      return p.Length, None;
    }
  }

  // ---- runs of Read ----

  /** The bytes of the request body that a message carries: a data frame without its control byte. */
  function DataOf(m: Incoming): seq<byte> {
    if m.err == Some(EOF) || m.messageType != BINARY || m.payload == [1] || m.payload == [] then [] else m.payload[1..]
  }

  /** The error that reading a message to its end reports. */
  function ErrorOf(m: Incoming): Option<Error> {
    if m.err == Some(EOF) || m.messageType == 0 then Some(EOF)
    else if m.messageType != BINARY then Some(NotBinary)
    else if m.payload == [1] then Some(EOF)
    else m.err
  }

  function PayloadBytes(ms: seq<Incoming>): seq<byte> {
    if ms == [] then [] else DataOf(ms[0]) + PayloadBytes(ms[1..])
  }

  function AsSeq(err: Option<Error>): seq<Error> { if err.Some? then [err.value] else [] }

  function Errors(ms: seq<Incoming>): seq<Error> {
    if ms == [] then [] else AsSeq(ErrorOf(ms[0])) + Errors(ms[1..])
  }

  // What is left over, and what it will report.
  function Left(r: Reader): seq<byte> { if r.remainingBuffer.Some? then r.remainingBuffer.value else [] }

  /** A retained buffer is not empty, and an error is retained only with one. */
  ghost predicate Valid(r: Reader) {
    && (r.remainingBuffer.Some? ==> r.remainingBuffer.value != [])
    && (r.remainingError.Some? ==> r.remainingBuffer.Some?)
  }

  // A run of Reads with buffers of the given sizes on the given messages. It ends when a Read would block.
  datatype Run = Run(reader: Reader, unread: seq<Incoming>, bytes: seq<byte>, errors: seq<Error>)

  function One(r: Reader, ms: seq<Incoming>, size: nat): Outcome
    requires r.remainingBuffer.None? ==> ms != []
  {
    if r.remainingBuffer.Some? then ReadRemaining(r, size) else ReadMessage(r, ms[0], size)
  }

  function Unread(r: Reader, ms: seq<Incoming>): seq<Incoming>
    requires r.remainingBuffer.None? ==> ms != []
  {
    if r.remainingBuffer.Some? then ms else ms[1..]
  }

  function Reads(r: Reader, ms: seq<Incoming>, sizes: seq<nat>): Run
    decreases |sizes|
  {
    if sizes == [] || (r.remainingBuffer.None? && ms == []) then Run(r, ms, [], [])
    else
      var o := One(r, ms, sizes[0]);
      var t := Reads(o.reader, Unread(r, ms), sizes[1..]);
      Run(t.reader, t.unread, o.bytes + t.bytes, AsSeq(o.err) + t.errors)
  }

  lemma RemainingRead(r: Reader, size: nat)
    requires Valid(r) && r.remainingBuffer.Some?
    ensures var o := ReadRemaining(r, size);
            && Valid(o.reader) && |o.bytes| <= size
            && o.bytes + Left(o.reader) == Left(r)
            && AsSeq(o.err) + AsSeq(o.reader.remainingError) == AsSeq(r.remainingError)
            && (o.err.Some? ==> o.reader.remainingBuffer.None?)
  {
    var rest := r.remainingBuffer.value;
    if |rest| > size {
      assert rest[..size] + rest[size..] == rest;
    }
  }

  lemma MessageRead(r: Reader, m: Incoming, size: nat)
    requires Valid(r) && r.remainingBuffer.None?
    ensures var o := ReadMessage(r, m, size);
            && Valid(o.reader) && |o.bytes| <= size
            && o.bytes + Left(o.reader) == DataOf(m)
            && AsSeq(o.err) + AsSeq(o.reader.remainingError) == AsSeq(ErrorOf(m))
            && (o.err.Some? ==> o.reader.remainingBuffer.None?)
  {
    var data := DataOf(m);
    if |data| > size {
      assert data[..size] + data[size..] == data;
    }
  }

  /** One Read: it keeps the reader valid, returns no more than the buffer holds, moves bytes and
      errors on without loss, reports an error only when nothing is left over, and with a buffer that is
      not empty takes a message or shortens what is left over. */
  lemma OneRead(r: Reader, ms: seq<Incoming>, size: nat)
    requires Valid(r) && (r.remainingBuffer.None? ==> ms != [])
    ensures var (o, unread) := (One(r, ms, size), Unread(r, ms));
            && Valid(o.reader) && |o.bytes| <= size
            && o.bytes + Left(o.reader) + PayloadBytes(unread) == Left(r) + PayloadBytes(ms)
            && AsSeq(o.err) + AsSeq(o.reader.remainingError) + Errors(unread) == AsSeq(r.remainingError) + Errors(ms)
            && (o.err.Some? ==> o.reader.remainingBuffer.None?)
            && (size > 0 ==> |unread| < |ms| || (unread == ms && |Left(o.reader)| < |Left(r)|))
  {
    hide ReadRemaining, ReadMessage, DataOf, ErrorOf, Valid, Left, AsSeq, PayloadBytes, Errors;
    WhatIsLeft(r);
    if r.remainingBuffer.Some? {
      var o := ReadRemaining(r, size);
      RemainingRead(r, size);
      if size > 0 { RemainingShrinks(r, size); }
    } else {
      var m, rest := ms[0], ms[1..];
      MessageRead(r, m, size);
      MessagesUnfold(ms);
      assert [] + PayloadBytes(ms) == PayloadBytes(ms) && [] + Errors(ms) == Errors(ms);
    }
  }

  lemma WhatIsLeft(r: Reader)
    ensures Valid(r) && r.remainingBuffer.None? ==> Left(r) == [] && AsSeq(r.remainingError) == []
    ensures Valid(r) && r.remainingBuffer.Some? ==> Left(r) != []
  {
  }

  lemma MessagesUnfold(ms: seq<Incoming>)
    requires ms != []
    ensures PayloadBytes(ms) == DataOf(ms[0]) + PayloadBytes(ms[1..])
    ensures Errors(ms) == AsSeq(ErrorOf(ms[0])) + Errors(ms[1..])
  {
  }

  lemma RemainingShrinks(r: Reader, size: nat)
    requires Valid(r) && r.remainingBuffer.Some? && size > 0
    ensures |Left(ReadRemaining(r, size).reader)| < |Left(r)|
  {
  }

  /** Re-chunking refinement, for any messages and any buffer sizes: the bytes returned, then what is
      left over, then what the unread messages carry, are the bytes the messages carried in the first
      place; the errors returned, the retained one and those to come likewise, so each is returned
      exactly once. */
  lemma {:induction false} ReadsConserve(r: Reader, ms: seq<Incoming>, sizes: seq<nat>)
    requires Valid(r)
    ensures var t := Reads(r, ms, sizes);
            && Valid(t.reader)
            && t.bytes + Left(t.reader) + PayloadBytes(t.unread) == Left(r) + PayloadBytes(ms)
            && t.errors + AsSeq(t.reader.remainingError) + Errors(t.unread) == AsSeq(r.remainingError) + Errors(ms)
    decreases |sizes|
  {
    hide One, Unread, PayloadBytes, Errors, Left, Valid, AsSeq;
    if sizes == [] || (r.remainingBuffer.None? && ms == []) {
      Regroup([], Left(r), PayloadBytes(ms), []);
      Regroup([], AsSeq(r.remainingError), Errors(ms), []);
    } else {
      var o, unread := One(r, ms, sizes[0]), Unread(r, ms);
      OneRead(r, ms, sizes[0]);
      ReadsConserve(o.reader, unread, sizes[1..]);
      var t := Reads(o.reader, unread, sizes[1..]);
      Regroup(o.bytes, t.bytes, Left(t.reader), PayloadBytes(t.unread));
      Regroup(o.bytes, Left(o.reader), PayloadBytes(unread), []);
      Regroup(AsSeq(o.err), t.errors, AsSeq(t.reader.remainingError), Errors(t.unread));
      Regroup(AsSeq(o.err), AsSeq(o.reader.remainingError), Errors(unread), []);
    }
  }

  lemma Regroup<T>(a: seq<T>, b: seq<T>, c: seq<T>, d: seq<T>)
    ensures a + b + c + d == a + (b + c + d)
    ensures a + b + c == a + (b + c) && b + c + [] == b + c && [] + b + c == b + c
  {
  }

  /** Progress: with buffers that are not empty, as many Reads as there are messages and bytes in them
      read everything, so a caller that reads until it has enough does not loop forever, over empty frames and
      frames of one control byte too. */
  lemma {:induction false} ReadsFinish(r: Reader, ms: seq<Incoming>, sizes: seq<nat>)
    requires Valid(r) && (forall n | n in sizes :: n > 0)
    requires |sizes| >= |ms| + |Left(r)| + |PayloadBytes(ms)|
    ensures var t := Reads(r, ms, sizes);
            && t.unread == [] && t.reader.remainingBuffer.None?
            && t.bytes == Left(r) + PayloadBytes(ms) && t.errors == AsSeq(r.remainingError) + Errors(ms)
    decreases |sizes|
  {
    hide One, Unread, PayloadBytes, Errors, Left, AsSeq;
    WhatIsLeft(r);
    if r.remainingBuffer.None? && ms == [] {
      assert PayloadBytes([]) == [] && Errors([]) == [] by { NothingToRead(); }
    } else if sizes == [] {
      assert false;
    } else {
      var o, unread := One(r, ms, sizes[0]), Unread(r, ms);
      assert sizes[0] in sizes && forall n | n in sizes[1..] :: n in sizes;
      OneRead(r, ms, sizes[0]);
      assert |o.bytes| + |Left(o.reader)| + |PayloadBytes(unread)| == |Left(r)| + |PayloadBytes(ms)|;
      ReadsFinish(o.reader, unread, sizes[1..]);
      Associate(o.bytes, Left(o.reader), PayloadBytes(unread));
      Associate(AsSeq(o.err), AsSeq(o.reader.remainingError), Errors(unread));
    }
  }

  lemma NothingToRead()
    ensures PayloadBytes([]) == [] && Errors([]) == []
  {
  }
}
