/** Complete downloads: exactly which callbacks a client runs when a whole response arrives, cut
    into chunks in any way, and its callbacks neither close the call nor register further ones. */
module ClientDownload {
  import opened Bytes
  import opened Framing
  import opened ChunkParsing
  import opened ParserRuns
  import opened ClientModel
  import opened ClientOrder

  // Callbacks may send, finish or fail, but not close the call or add callbacks.
  ghost predicate Quiet(env: Env) {
    forall n, c | c in env.react(n).calls :: c.Start? || c.Send? || c.FinishSend?
  }

  /** The callback invocations of a trace. */
  function Callbacks(trace: seq<Entry>): seq<Entry> {
    if trace == [] then []
    else
      var e := trace[|trace| - 1];
      Callbacks(trace[..|trace| - 1]) + if e.Called? then [e] else []
  }

  lemma CallbacksSnoc(trace: seq<Entry>, e: Entry)
    ensures Callbacks(trace + [e]) == Callbacks(trace) + if e.Called? then [e] else []
  {
    assert (trace + [e])[..|trace|] == trace;
  }

  /** One dispatch to each of the callbacks from, ..., count - 1. */
  function ToAll(from: nat, count: nat, what: Dispatch): seq<Entry>
    requires from <= count
    decreases count - from
  {
    if from == count then [] else [Called(from, what)] + ToAll(from + 1, count, what)
  }

  /** Every message, each to all `count` message callbacks. */
  function ToEach(messages: seq<seq<byte>>, count: nat): seq<Entry> {
    if messages == [] then [] else ToAll(0, count, OfMessage(messages[0])) + ToEach(messages[1..], count)
  }

  // ---- the parser's bytes do not matter to what the callbacks see ----

  function With(s: State, pending: seq<byte>, fed: seq<byte>): State {
    s.(pending := pending, fed := fed)
  }

  lemma CallWith(s: State, env: Env, c: UserCall, p: seq<byte>, f: seq<byte>)
    ensures Call(With(s, p, f), env, c) == With(Call(s, env, c), p, f)
  {
    hide RequestFrame;
    match c
    case Start =>
    case Send(message) =>
    case FinishSend =>
    case Close =>
    case OnHeaders =>
    case OnMessage =>
    case OnEnd =>
  }

  lemma {:induction false} CallAllWith(s: State, env: Env, calls: seq<UserCall>, p: seq<byte>, f: seq<byte>)
    ensures CallAll(With(s, p, f), env, calls) == With(CallAll(s, env, calls), p, f)
    decreases calls
  {
    hide Call;
    if calls != [] {
      CallWith(s, env, calls[0], p, f);
      CallAllWith(Call(s, env, calls[0]), env, calls[1..], p, f);
    }
  }

  lemma InvokeWith(s: State, env: Env, slot: nat, what: Dispatch, p: seq<byte>, f: seq<byte>)
    ensures Invoke(With(s, p, f), env, slot, what) == With(Invoke(s, env, slot, what), p, f)
  {
    hide CallAll;
    var s1 := s.(ticks := s.ticks + 1).Log(Called(slot, what));
    CallAllWith(s1, env, env.react(s.ticks).calls, p, f);
    assert With(s, p, f).(ticks := s.ticks + 1).Log(Called(slot, what)) == With(s1, p, f);
  }

  lemma {:induction false} InvokeFromWith(s: State, env: Env, slot: nat, count: nat, what: Dispatch,
                                      p: seq<byte>, f: seq<byte>)
    requires slot <= count
    ensures InvokeFrom(With(s, p, f), env, slot, count, what) == With(InvokeFrom(s, env, slot, count, what), p, f)
    decreases count - slot
  {
    hide Invoke;
    if slot < count {
      InvokeWith(s, env, slot, what, p, f);
      InvokeFromWith(s, env, slot + 1, count, what, p, f);
      InvokeFromWith(Invoke(s, env, slot, what), env, slot + 1, count, what, p, f);
    }
  }

  lemma OnChunkWith(s: State, env: Env, chunk: Chunk, p: seq<byte>, f: seq<byte>)
    ensures OnChunk(With(s, p, f), env, chunk) == With(OnChunk(s, env, chunk), p, f)
  {
    hide InvokeFrom;
    match chunk
    case Message(data) =>
      var s1 := s.(delivered := s.delivered + [data]);
      InvokeFromWith(s1, env, 0, s.onMessage, OfMessage(data), p, f);
      assert With(s, p, f).(delivered := s.delivered + [data]) == With(s1, p, f);
    case Trailers(text) =>
      var metadata := env.parseMetadata(text);
      var s1 := s.(responseHeaders := Some(metadata));
      InvokeFromWith(s1, env, 0, s.onHeaders, OfHeaders(metadata), p, f);
      assert With(s, p, f).(responseHeaders := Some(metadata)) == With(s1, p, f);
  }

  lemma {:induction false} OnChunksWith(s: State, env: Env, chunks: seq<Chunk>, p: seq<byte>, f: seq<byte>)
    ensures OnChunks(With(s, p, f), env, chunks) == With(OnChunks(s, env, chunks), p, f)
    decreases chunks
  {
    hide OnChunk;
    if chunks != [] {
      OnChunkWith(s, env, chunks[0], p, f);
      OnChunksWith(OnChunk(s, env, chunks[0]), env, chunks[1..], p, f);
    }
  }

  lemma {:induction false} OnChunksConcat(s: State, env: Env, a: seq<Chunk>, b: seq<Chunk>)
    ensures OnChunks(s, env, a + b) == OnChunks(OnChunks(s, env, a), env, b)
    decreases a
  {
    hide OnChunk;
    if a == [] {
      assert a + b == b;
    } else {
      assert (a + b)[1..] == a[1..] + b;
      OnChunksConcat(OnChunk(s, env, a[0]), env, a[1..], b);
    }
  }

  // ---- how far a dispatch gets ----

  lemma {:induction false} CallsInvokeNothing(s: State, env: Env, calls: seq<UserCall>)
    ensures Callbacks(CallAll(s, env, calls).trace) == Callbacks(s.trace)
    decreases calls
  {
    hide Callbacks;
    if calls != [] {
      CallbacksSnoc(s.trace, Refused);
      match calls[0] {
        case Start => CallbacksSnoc(s.trace, ToStart);
        case Send(message) => CallbacksSnoc(s.trace, ToSend(RequestFrame(message)));
        case FinishSend => CallbacksSnoc(s.trace, ToFinish);
        case Close => CallbacksSnoc(s.trace, ToCancel);
        case _ =>
      }
      CallsInvokeNothing(Call(s, env, calls[0]), env, calls[1..]);
    }
  }

  lemma OneInvoked(s: State, env: Env, slot: nat, what: Dispatch)
    ensures Callbacks(Invoke(s, env, slot, what).trace) == Callbacks(s.trace) + [Called(slot, what)]
  {
    hide Callbacks;
    var reaction := env.react(s.ticks);
    var s1 := s.(ticks := s.ticks + 1).Log(Called(slot, what));
    CallbacksSnoc(s.trace, Called(slot, what));
    CallsInvokeNothing(s1, env, reaction.calls);
    CallbacksSnoc(CallAll(s1, env, reaction.calls).trace, Reraised);
  }

  /** Whatever the callbacks do: a dispatch runs the callbacks in order, once each, without gaps. Errors
      thrown by some do not keep others from running. It gets to the last one unless the call is closed, and
      a headers dispatch gets there even then. */
  lemma {:induction false} DispatchReaches(s: State, env: Env, slot: nat, count: nat, what: Dispatch)
    returns (reached: nat)
    requires slot <= count
    ensures slot <= reached <= count
    ensures var t := InvokeFrom(s, env, slot, count, what);
            && Callbacks(t.trace) == Callbacks(s.trace) + ToAll(slot, reached, what)
            && (what.OfHeaders? || !t.closed ==> reached == count)
    decreases count - slot
  {
    hide Callbacks, Invoke;
    if slot == count || (s.closed && !what.OfHeaders?) {
      reached := slot;
      if s.closed && !what.OfHeaders? {
        StaysClosed(s, env, slot, count, what);
      }
      assert Callbacks(s.trace) + [] == Callbacks(s.trace);
    } else {
      OneInvoked(s, env, slot, what);
      var t := Invoke(s, env, slot, what);
      reached := DispatchReaches(t, env, slot + 1, count, what);
      assert Callbacks(s.trace) + [Called(slot, what)] + ToAll(slot + 1, reached, what)
          == Callbacks(s.trace) + ([Called(slot, what)] + ToAll(slot + 1, reached, what));
    }
  }

  // ---- quiet callbacks ----

  // The state of an open call that runs quiet callbacks, up to what they may touch.
  ghost predicate SameCall(s: State, t: State) {
    && t.closed == s.closed && t.completed == s.completed
    && t.onHeaders == s.onHeaders && t.onMessage == s.onMessage && t.onEnd == s.onEnd
    && t.responseHeaders == s.responseHeaders && t.responseTrailers == s.responseTrailers
  }

  lemma {:induction false} QuietCalls(s: State, env: Env, calls: seq<UserCall>)
    requires forall c | c in calls :: c.Start? || c.Send? || c.FinishSend?
    ensures var t := CallAll(s, env, calls); SameCall(s, t) && Callbacks(t.trace) == Callbacks(s.trace)
    decreases calls
  {
    hide Callbacks;
    if calls != [] {
      var t := Call(s, env, calls[0]);
      QuietCall(s, env, calls[0]);
      QuietCalls(t, env, calls[1..]);
    }
  }

  lemma QuietCall(s: State, env: Env, c: UserCall)
    requires c.Start? || c.Send? || c.FinishSend?
    ensures var t := Call(s, env, c); SameCall(s, t) && Callbacks(t.trace) == Callbacks(s.trace)
  {
    hide Callbacks;
    CallbacksSnoc(s.trace, Refused);
    match c {
      case Start => CallbacksSnoc(s.trace, ToStart);
      case Send(message) => CallbacksSnoc(s.trace, ToSend(RequestFrame(message)));
      case FinishSend => CallbacksSnoc(s.trace, ToFinish);
    }
  }

  lemma QuietInvoke(s: State, env: Env, slot: nat, what: Dispatch)
    requires Quiet(env)
    ensures var t := Invoke(s, env, slot, what);
            SameCall(s, t) && Callbacks(t.trace) == Callbacks(s.trace) + [Called(slot, what)]
  {
    hide Callbacks;
    var reaction := env.react(s.ticks);
    var s1 := s.(ticks := s.ticks + 1).Log(Called(slot, what));
    CallbacksSnoc(s.trace, Called(slot, what));
    QuietCalls(s1, env, reaction.calls);
    CallbacksSnoc(CallAll(s1, env, reaction.calls).trace, Reraised);
  }

  lemma {:induction false} QuietInvokeFrom(s: State, env: Env, slot: nat, count: nat, what: Dispatch)
    requires Quiet(env) && !s.closed && slot <= count
    ensures var t := InvokeFrom(s, env, slot, count, what);
            SameCall(s, t) && Callbacks(t.trace) == Callbacks(s.trace) + ToAll(slot, count, what)
    decreases count - slot
  {
    hide Callbacks, Invoke;
    if slot == count {
      assert Callbacks(s.trace) + [] == Callbacks(s.trace);
    } else {
      QuietInvoke(s, env, slot, what);
      var t := Invoke(s, env, slot, what);
      QuietInvokeFrom(t, env, slot + 1, count, what);
      assert Callbacks(s.trace) + [Called(slot, what)] + ToAll(slot + 1, count, what)
          == Callbacks(s.trace) + ([Called(slot, what)] + ToAll(slot + 1, count, what));
    }
  }

  // Any frames, on an open call that has its headers, or frames that are no blocks: every message goes to every
  // message callback, and trailer blocks run no callback.
  lemma {:induction false} QuietFrames(s: State, env: Env, fs: seq<Frame>)
    requires Quiet(env) && !s.closed && !s.completed && (s.responseHeaders.Some? || MessageFramesOnly(fs))
    ensures var t := OnChunks(s, env, ChunksOf(fs));
            && !t.closed && !t.completed && t.responseHeaders == s.responseHeaders && t.onEnd == s.onEnd
            && (MessageFramesOnly(fs) ==> t.responseTrailers == s.responseTrailers)
            && Callbacks(t.trace) == Callbacks(s.trace) + ToEach(MessagesOf(fs), s.onMessage)
    decreases fs
  {
    hide Callbacks, InvokeFrom;
    if fs == [] {
      assert Callbacks(s.trace) + [] == Callbacks(s.trace);
    } else {
      var f := fs[0];
      var t := OnChunk(s, env, ChunkOf(f));
      assert ChunksOf(fs)[1..] == ChunksOf(fs[1..]);
      assert MessageFramesOnly(fs) ==> MessageFramesOnly(fs[1..]) && !f.IsTrailer();
      if f.IsTrailer() {
        QuietFrames(t, env, fs[1..]);
        assert [] + MessagesOf(fs[1..]) == MessagesOf(fs[1..]);
      } else {
        QuietInvokeFrom(s.(delivered := s.delivered + [f.payload]), env, 0, s.onMessage, OfMessage(f.payload));
        QuietFrames(t, env, fs[1..]);
        assert MessagesOf(fs)[1..] == MessagesOf(fs[1..]);
        Associate(Callbacks(s.trace), ToAll(0, s.onMessage, OfMessage(f.payload)),
                  ToEach(MessagesOf(fs[1..]), s.onMessage));
      }
    }
  }

  ghost predicate MessageFramesOnly(fs: seq<Frame>) {
    forall f | f in fs :: !f.IsTrailer()
  }

  lemma QuietComplete(s: State, env: Env, code: Code, text: string, trailers: Metadata)
    requires Quiet(env) && !s.closed && !s.completed
    ensures var t := Complete(s, env, code, text, trailers);
            && t.completed && !t.closed
            && Callbacks(t.trace) == Callbacks(s.trace) + ToAll(0, s.onEnd, OfEnd(code, text, trailers))
  {
    hide Callbacks, InvokeFrom;
    CallbacksSnoc(s.trace, Completed);
    QuietInvokeFrom(s.(completed := true).Log(Completed), env, 0, s.onEnd, OfEnd(code, text, trailers));
  }

  // ---- chunk events ----

  function ChunkEvents(cuts: seq<seq<byte>>): seq<Event> {
    seq(|cuts|, i requires 0 <= i < |cuts| => TransportChunk(cuts[i]))
  }

  // Quiet callbacks leave the call open whatever the chunks are.
  lemma {:induction false} QuietChunks(s: State, env: Env, chunks: seq<Chunk>)
    requires Quiet(env) && !s.closed
    ensures !OnChunks(s, env, chunks).closed
    decreases chunks
  {
    hide InvokeFrom, Callbacks;
    if chunks != [] {
      match chunks[0] {
        case Message(data) =>
          QuietInvokeFrom(s.(delivered := s.delivered + [data]), env, 0, s.onMessage, OfMessage(data));
        case Trailers(text) =>
          var metadata := env.parseMetadata(text);
          QuietInvokeFrom(s.(responseHeaders := Some(metadata)), env, 0, s.onHeaders, OfHeaders(metadata));
      }
      QuietChunks(OnChunk(s, env, chunks[0]), env, chunks[1..]);
    }
  }

  /** The cutting does not matter: a run of chunk events leaves the client as if all the frames the
      parser emits over the run had come out of one call. */
  lemma {:induction false} ChunkEventsAreFrames(s: State, env: Env, cuts: seq<seq<byte>>)
    requires Quiet(env) && !s.closed && !ParseRun(s.pending, cuts).threw
    ensures var r := ParseRun(s.pending, cuts);
            && !OnChunks(s, env, ChunksOf(r.frames)).closed
            && Run(s, env, ChunkEvents(cuts))
                  == With(OnChunks(s, env, ChunksOf(r.frames)), r.rest, s.fed + Flatten(cuts))
    decreases cuts
  {
    hide OnChunks, ScanFrames, Quiet;
    QuietChunks(s, env, ChunksOf(ParseRun(s.pending, cuts).frames));
    if cuts == [] {
      assert s.fed + [] == s.fed;
      NoChunks(s, env);
    } else {
      var scan := ScanFrames(s.pending + cuts[0]);
      var c1 := ChunksOf(scan.frames);
      var fed := s.fed + cuts[0];
      var s1 := OnTransportChunk(s, env, cuts[0]);
      OnChunksWith(s, env, c1, scan.rest, fed);
      assert s1 == With(OnChunks(s, env, c1), scan.rest, fed);
      QuietChunks(s, env, c1);
      ChunkEventsAreFrames(s1, env, cuts[1..]);
      var r := ParseRun(scan.rest, cuts[1..]);
      var c2 := ChunksOf(r.frames);
      OnChunksWith(OnChunks(s, env, c1), env, c2, scan.rest, fed);
      OnChunksConcat(s, env, c1, c2);
      assert ChunksOf(scan.frames + r.frames) == c1 + c2;
      assert ChunkEvents(cuts)[1..] == ChunkEvents(cuts[1..]);
      assert fed + Flatten(cuts[1..]) == s.fed + Flatten(cuts);
    }
  }

  lemma NoChunks(s: State, env: Env)
    ensures OnChunks(s, env, ChunksOf([])) == s
  {
  }

  // ---- whole responses ----

  // A client that waits for its response.
  predicate Waiting(s: State) {
    !s.closed && !s.completed && s.pending == [] && s.responseHeaders == None && s.responseTrailers == None
  }

  /** The outcome of a download: from `s` to `t` the callbacks run are exactly the headers callbacks with
      `headers`, the message callbacks with every message in order, and the end callbacks, once each, with the code
      and the metadata that carried it. */
  ghost predicate RunsExactly(env: Env, s: State, t: State, headers: Metadata, messages: seq<seq<byte>>, code: Code,
                              last: Metadata)
  {
    && t.completed && !t.closed && t.pending == []
    && Callbacks(t.trace) == Callbacks(s.trace)
         + ToAll(0, s.onHeaders, OfHeaders(headers))
         + ToEach(messages, s.onMessage)
         + ToAll(0, s.onEnd, OfEnd(code, StatusText(env, last), last))
  }

  // Whole data frames, then one ASCII trailer block.
  ghost predicate Body(fs: seq<Frame>, trailer: Frame) {
    && (forall f | f in fs :: f.Fits() && !f.IsTrailer())
    && trailer.Fits() && trailer.IsTrailer() && ValidAscii(trailer.payload)
  }

  function MetadataOf(env: Env, block: Frame): Metadata {
    env.parseMetadata(AsciiText(block.payload))
  }

  // How a call ends that has trailers.
  function EndOfTrailers(env: Env, md: Metadata): Dispatch {
    match StatusOf(env, md)
    case None => OfEnd(INTERNAL, NO_STATUS_IN_TRAILERS, NO_METADATA)
    case Some(code) => OfEnd(code, StatusText(env, md), md)
  }

  // Data frames and a trailer block, on a client that already has its headers, then the end.
  lemma QuietBody(s: State, env: Env, fs: seq<Frame>, trailer: Frame)
    requires Quiet(env) && !s.closed && !s.completed && s.responseHeaders.Some? && Body(fs, trailer)
    ensures var md := MetadataOf(env, trailer);
            var t := OnTransportEnd(OnChunks(s, env, ChunksOf(fs + [trailer])), env);
            && t.completed && !t.closed
            && Callbacks(t.trace) == Callbacks(s.trace) + ToEach(MessagesOf(fs), s.onMessage)
                                     + ToAll(0, s.onEnd, EndOfTrailers(env, md))
  {
    hide Callbacks, Complete, StatusText;
    var md := MetadataOf(env, trailer);
    assert ChunksOf(fs + [trailer]) == ChunksOf(fs) + [Trailers(AsciiText(trailer.payload))];
    OnChunksConcat(s, env, ChunksOf(fs), [Trailers(AsciiText(trailer.payload))]);
    QuietFrames(s, env, fs);
    var s1 := OnChunks(s, env, ChunksOf(fs));
    var s2 := s1.(responseTrailers := Some(md));
    assert OnChunks(s1, env, [Trailers(AsciiText(trailer.payload))]) == s2 by {
      OneTrailer(s1, env, trailer);
    }
    var end := EndOfTrailers(env, md);
    QuietComplete(s2, env, end.code, end.text, end.trailers);
  }

  lemma OneTrailer(s: State, env: Env, trailer: Frame)
    ensures OnChunks(s, env, [Trailers(AsciiText(trailer.payload))])
         == OnChunk(s, env, Trailers(AsciiText(trailer.payload)))
  {
  }

  // The end event on a state that differs only in the parser's bytes.
  lemma EndWith(s: State, env: Env, p: seq<byte>, f: seq<byte>)
    ensures OnTransportEnd(With(s, p, f), env) == With(OnTransportEnd(s, env), p, f)
  {
    hide InvokeFrom, StatusText;
    forall code, text, md
      ensures Complete(With(s, p, f), env, code, text, md) == With(Complete(s, env, code, text, md), p, f)
    {
      var s1 := s.(completed := true).Log(Completed);
      InvokeFromWith(s1, env, 0, s.onEnd, OfEnd(code, text, md), p, f);
      assert With(s, p, f).(completed := true).Log(Completed) == With(s1, p, f);
    }
  }

  // Chunk events followed by the end, in terms of the frames alone.
  lemma ChunksThenEnd(s: State, env: Env, cuts: seq<seq<byte>>, fs: seq<Frame>)
    requires Quiet(env) && !s.closed && ParseRun(s.pending, cuts) == Scan(fs, [], false)
    ensures Run(s, env, ChunkEvents(cuts) + [TransportEnd])
         == With(OnTransportEnd(OnChunks(s, env, ChunksOf(fs)), env), [], s.fed + Flatten(cuts))
  {
    hide OnChunks, ParseRun, OnTransportEnd, Run;
    ChunkEventsAreFrames(s, env, cuts);
    RunConcat(env, s, ChunkEvents(cuts), [TransportEnd]);
    var t := Run(s, env, ChunkEvents(cuts));
    RunOne(t, env, TransportEnd);
    EndWith(OnChunks(s, env, ChunksOf(fs)), env, [], s.fed + Flatten(cuts));
  }

  lemma RunOne(s: State, env: Env, e: Event)
    ensures Run(s, env, [e]) == Step(s, env, e)
  {
  }

  /** A whole body over HTTP: after headers that do not themselves report an error, and for every cutting of the body
      into chunks, the callbacks run are exactly: headers, every message in order, one end as the trailer block has
      it. */
  lemma HttpBody(s: State, env: Env, headers: Metadata, fs: seq<Frame>, trailer: Frame, cuts: seq<seq<byte>>)
    requires Quiet(env) && Waiting(s) && HeadersCode(env, headers, 200) == OK && Body(fs, trailer)
    requires AllFit(fs + [trailer]) && Flatten(cuts) == EncodeAll(fs + [trailer])
    ensures var t := Run(s, env, [TransportHeaders(headers, 200)] + ChunkEvents(cuts) + [TransportEnd]);
            && t.completed && !t.closed && t.pending == []
            && Callbacks(t.trace) == Callbacks(s.trace)
                                     + ToAll(0, s.onHeaders, OfHeaders(headers)) + ToEach(MessagesOf(fs), s.onMessage)
                                     + ToAll(0, s.onEnd, EndOfTrailers(env, MetadataOf(env, trailer)))
  {
    hide Callbacks, EndOfTrailers, HeadersCode, OnChunks, Run, ParseRun, OnTransportEnd, InvokeFrom;
    var s0 := s.(responseHeaders := Some(headers));
    QuietInvokeFrom(s0, env, 0, s.onHeaders, OfHeaders(headers));
    var s1 := Step(s, env, TransportHeaders(headers, 200));
    assert s1 == InvokeFrom(s0, env, 0, s.onHeaders, OfHeaders(headers));
    InvokeFromWith(s0, env, 0, s.onHeaders, OfHeaders(headers), s0.pending, s0.fed);
    assert s1.pending == [] && s1.fed == s.fed by {
      assert With(s0, s0.pending, s0.fed) == s0;
    }
    BodyIsEmitted(fs, trailer, cuts);
    ChunksThenEnd(s1, env, cuts, fs + [trailer]);
    QuietBody(s1, env, fs, trailer);
    var events := ChunkEvents(cuts) + [TransportEnd];
    Associate([TransportHeaders(headers, 200)], ChunkEvents(cuts), [TransportEnd]);
    RunCons(env, s, TransportHeaders(headers, 200), events);
  }

  /** HTTP download: after headers that do not themselves report an error, and for every cutting of the body into
      chunks, the callbacks run are exactly: headers, every message in order, one end with the status of the
      trailer block. */
  lemma HttpDownload(s: State, env: Env, headers: Metadata, fs: seq<Frame>, trailer: Frame,
                     cuts: seq<seq<byte>>, code: Code)
    requires Quiet(env) && Waiting(s) && HeadersCode(env, headers, 200) == OK
    requires Body(fs, trailer) && StatusOf(env, MetadataOf(env, trailer)) == Some(code)
    requires AllFit(fs + [trailer]) && Flatten(cuts) == EncodeAll(fs + [trailer])
    ensures RunsExactly(env, s, Run(s, env, [TransportHeaders(headers, 200)] + ChunkEvents(cuts) + [TransportEnd]),
                        headers, MessagesOf(fs), code, MetadataOf(env, trailer))
  {
    hide Callbacks, StatusText, HeadersCode, Run, MessagesOf;
    HttpBody(s, env, headers, fs, trailer, cuts);
  }

  lemma BodyIsEmitted(fs: seq<Frame>, trailer: Frame, cuts: seq<seq<byte>>)
    requires Body(fs, trailer) && AllFit(fs + [trailer])
    requires Flatten(cuts) == EncodeAll(fs + [trailer])
    ensures ParseRun([], cuts) == Scan(fs + [trailer], [], false)
  {
    assert forall i | 0 <= i < |fs| :: (fs + [trailer])[i] in fs;
    AnyCuttingEmitsAll(cuts, fs + [trailer]);
  }

  /** Trailers-only response: headers that carry the status, an empty body however it is cut, and the end give the
      headers callbacks and one end with that status, be it zero, positive, negative or not a number. */
  lemma TrailersOnlyDownload(s: State, env: Env, headers: Metadata, cuts: seq<seq<byte>>, code: Code)
    requires Quiet(env) && Waiting(s) && StatusOf(env, headers) == Some(code) && Flatten(cuts) == []
    ensures RunsExactly(env, s, Run(s, env, [TransportHeaders(headers, 200)] + ChunkEvents(cuts) + [TransportEnd]),
                        headers, [], code, headers)
  {
    hide Callbacks, StatusText, OnChunks, Run, ParseRun, OnTransportHeaders, OnTransportEnd;
    var s2 := Step(s, env, TransportHeaders(headers, 200));
    TrailersOnlyHeaders(s, env, headers, code);
    assert Flatten(cuts) == EncodeAll([]) by { NoBytesNoFrames(); }
    AnyCuttingEmitsAll(cuts, []);
    ChunksThenEnd(s2, env, cuts, []);
    NoChunks(s2, env);
    var events := ChunkEvents(cuts) + [TransportEnd];
    assert [TransportHeaders(headers, 200)] + ChunkEvents(cuts) + [TransportEnd]
        == [TransportHeaders(headers, 200)] + events;
    RunCons(env, s, TransportHeaders(headers, 200), events);
    NoMessages(Callbacks(s.trace) + ToAll(0, s.onHeaders, OfHeaders(headers)), s.onMessage);
  }

  lemma NoMessages(trace: seq<Entry>, count: nat)
    ensures trace + ToEach([], count) == trace
  {
  }

  // The two events of a trailers-only response.
  // A positive status completes the call with the headers, any other with the end.
  lemma TrailersOnlyHeaders(s: State, env: Env, headers: Metadata, code: Code)
    requires Quiet(env) && Waiting(s) && StatusOf(env, headers) == Some(code)
    ensures var s1 := OnTransportHeaders(s, env, headers, 200);
            var t := OnTransportEnd(s1, env);
            && s1.pending == [] && !s1.closed && t.completed && !t.closed
            && Callbacks(t.trace) == Callbacks(s.trace) + ToAll(0, s.onHeaders, OfHeaders(headers))
                                     + ToAll(0, s.onEnd, OfEnd(code, StatusText(env, headers), headers))
  {
    hide Callbacks, StatusText, InvokeFrom, Complete;
    var s0 := s.(responseHeaders := Some(headers));
    QuietInvokeFrom(s0, env, 0, s.onHeaders, OfHeaders(headers));
    InvokeFromWith(s0, env, 0, s.onHeaders, OfHeaders(headers), s0.pending, s0.fed);
    assert With(s0, s0.pending, s0.fed) == s0;
    var s1 := RawOnHeaders(s0, env, headers);
    var t := Complete(s1, env, code, StatusText(env, headers), headers);
    QuietComplete(s1, env, code, StatusText(env, headers), headers);
    CompleteWith(s1, env, code, StatusText(env, headers), headers);
    CompleteOnce(t, env, code, StatusText(env, headers), headers);
  }

  lemma CompleteOnce(s: State, env: Env, code: Code, text: string, md: Metadata)
    requires s.completed
    ensures Complete(s, env, code, text, md) == s
  {
  }

  // Completing leaves the parser's bytes and the captured metadata alone.
  lemma CompleteWith(s: State, env: Env, code: Code, text: string, md: Metadata)
    requires Quiet(env) && !s.closed && !s.completed
    ensures var t := Complete(s, env, code, text, md);
            && t.pending == s.pending && t.responseHeaders == s.responseHeaders
            && t.responseTrailers == s.responseTrailers
  {
    hide InvokeFrom, Callbacks;
    var s1 := s.(completed := true).Log(Completed);
    QuietInvokeFrom(s1, env, 0, s.onEnd, OfEnd(code, text, md));
    InvokeFromWith(s1, env, 0, s.onEnd, OfEnd(code, text, md), s1.pending, s1.fed);
    assert With(s1, s1.pending, s1.fed) == s1;
  }

  // A header block, data frames and a trailer block, on a client without headers, then the end.
  lemma QuietHeaderBlock(s: State, env: Env, header: Frame, fs: seq<Frame>, trailer: Frame)
    requires Quiet(env) && Waiting(s) && header.IsTrailer() && Body(fs, trailer)
    ensures var (first, last) := (MetadataOf(env, header), MetadataOf(env, trailer));
            var t := OnTransportEnd(OnChunks(s, env, ChunksOf([header] + (fs + [trailer]))), env);
            && t.completed && !t.closed
            && Callbacks(t.trace) == Callbacks(s.trace) + ToAll(0, s.onHeaders, OfHeaders(first))
                                     + ToEach(MessagesOf(fs), s.onMessage)
                                     + ToAll(0, s.onEnd, EndOfTrailers(env, last))
  {
    hide Callbacks, EndOfTrailers, OnChunks, OnTransportEnd, InvokeFrom;
    var first := MetadataOf(env, header);
    var c0, c1 := Trailers(AsciiText(header.payload)), ChunksOf(fs + [trailer]);
    assert ChunksOf([header] + (fs + [trailer])) == [c0] + c1;
    OnChunksConcat(s, env, [c0], c1);
    OneTrailer(s, env, header);
    var s0 := s.(responseHeaders := Some(first));
    QuietInvokeFrom(s0, env, 0, s.onHeaders, OfHeaders(first));
    QuietBody(OnChunk(s, env, c0), env, fs, trailer);
  }

  /** A whole body over a WebSocket: a header block in whole chunks, then data frames in any pieces and a trailer block.
      Nothing is held back, the first block becomes the headers, and the end is as the last block has it. */
  lemma WebSocketBody(s: State, env: Env, header: Frame, headerCuts: seq<seq<byte>>, fs: seq<Frame>, trailer: Frame,
                      cuts: seq<seq<byte>>)
    requires Quiet(env) && Waiting(s) && Body(fs, trailer)
    requires header.Fits() && header.IsTrailer() && ValidAscii(header.payload)
    requires Flatten(headerCuts) == EncodeFrame(header)
    requires AllFit(fs + [trailer]) && Flatten(cuts) == EncodeAll(fs + [trailer])
    ensures var t := Run(s, env, ChunkEvents(headerCuts + cuts) + [TransportEnd]);
            && t.completed && !t.closed && t.pending == []
            && Callbacks(t.trace) == Callbacks(s.trace) + ToAll(0, s.onHeaders, OfHeaders(MetadataOf(env, header)))
                                     + ToEach(MessagesOf(fs), s.onMessage)
                                     + ToAll(0, s.onEnd, EndOfTrailers(env, MetadataOf(env, trailer)))
  {
    hide Callbacks, EndOfTrailers, OnChunks, Run, ParseRun, OnTransportEnd;
    assert EncodeAll([header]) == EncodeFrame(header) + EncodeAll([]) == EncodeFrame(header);
    AnyCuttingEmitsAll(headerCuts, [header]);
    BodyIsEmitted(fs, trailer, cuts);
    ParseRunConcat([], headerCuts, cuts);
    ChunksThenEnd(s, env, headerCuts + cuts, [header] + (fs + [trailer]));
    QuietHeaderBlock(s, env, header, fs, trailer);
  }

  /** WebSocket download: the chunks are the server's messages. The header block arrives in whole chunks, then
      data frames in any pieces and the trailer block. Nothing is held back; the first block becomes the headers and
      the last the trailers. */
  lemma WebSocketDownload(s: State, env: Env, header: Frame, headerCuts: seq<seq<byte>>, fs: seq<Frame>, trailer: Frame,
                          cuts: seq<seq<byte>>, code: Code)
    requires Quiet(env) && Waiting(s)
    requires header.Fits() && header.IsTrailer() && ValidAscii(header.payload)
    requires Body(fs, trailer) && StatusOf(env, MetadataOf(env, trailer)) == Some(code)
    requires Flatten(headerCuts) == EncodeFrame(header)
    requires AllFit(fs + [trailer]) && Flatten(cuts) == EncodeAll(fs + [trailer])
    ensures RunsExactly(env, s, Run(s, env, ChunkEvents(headerCuts + cuts) + [TransportEnd]),
                        MetadataOf(env, header), MessagesOf(fs), code, MetadataOf(env, trailer))
  {
    hide Callbacks, StatusText, Run, MessagesOf;
    WebSocketBody(s, env, header, headerCuts, fs, trailer, cuts);
  }

  /** When the server flushes nothing but its trailer block, that block is taken for the headers, and the call
      still ends once, with its status. */
  lemma WebSocketTrailersOnly(s: State, env: Env, trailer: Frame, cuts: seq<seq<byte>>, code: Code)
    requires Quiet(env) && Waiting(s)
    requires trailer.Fits() && trailer.IsTrailer() && ValidAscii(trailer.payload)
    requires StatusOf(env, MetadataOf(env, trailer)) == Some(code) && Flatten(cuts) == EncodeFrame(trailer)
    ensures var md := MetadataOf(env, trailer);
            RunsExactly(env, s, Run(s, env, ChunkEvents(cuts) + [TransportEnd]), md, [], code, md)
  {
    hide Callbacks, StatusText, OnChunks, Run, ParseRun, InvokeFrom, Complete;
    var md := MetadataOf(env, trailer);
    assert EncodeAll([trailer]) == EncodeFrame(trailer) + EncodeAll([]) == EncodeFrame(trailer);
    AnyCuttingEmitsAll(cuts, [trailer]);
    ChunksThenEnd(s, env, cuts, [trailer]);
    assert ChunksOf([trailer]) == [Trailers(AsciiText(trailer.payload))];
    OneTrailer(s, env, trailer);
    var s0 := s.(responseHeaders := Some(md));
    QuietInvokeFrom(s0, env, 0, s.onHeaders, OfHeaders(md));
    var s1 := OnChunk(s, env, Trailers(AsciiText(trailer.payload)));
    QuietComplete(s1, env, code, StatusText(env, md), md);
    NoMessages(Callbacks(s.trace) + ToAll(0, s.onHeaders, OfHeaders(md)), s.onMessage);
  }
}
