/** Downloads that go wrong: which callbacks still run when the headers report an error, when the body
    breaks off, and when a trailer block is damaged, and that nothing runs after that. */
module ClientFailures {
  import opened Bytes
  import opened Framing
  import opened ChunkParsing
  import opened ParserRuns
  import opened ClientModel
  import opened ClientOrder
  import opened ClientDownload

  // A completed call: chunks change neither the trace nor that.
  lemma {:induction false} ChunksAfterCompletion(s: State, env: Env, chunks: seq<Chunk>)
    requires s.completed
    ensures var t := OnChunks(s, env, chunks); t.completed && t.trace == s.trace
    decreases chunks
  {
    if chunks != [] {
      ChunksAfterCompletion(OnChunk(s, env, chunks[0]), env, chunks[1..]);
    }
  }

  lemma EventAfterCompletion(s: State, env: Env, e: Event)
    requires s.completed
    ensures var t := Step(s, env, e); t.completed && Callbacks(t.trace) == Callbacks(s.trace)
  {
    hide Callbacks, InvokeFrom, ScanFrames, OnChunks;
    match e
    case User(call) =>
      CallsInvokeNothing(s, env, [call]);
      assert CallAll(s, env, [call]) == Call(s, env, call);
    case TransportChunk(bytes) =>
      var scan := ScanFrames(s.pending + bytes);
      ChunksAfterCompletion(s.(pending := scan.rest, fed := s.fed + bytes), env, ChunksOf(scan.frames));
    case TransportHeaders(headers, status) =>
    case TransportEnd =>
  }

  /** Completion is final: whatever arrives or is called afterwards, and whatever callbacks would do, not
      one callback more is run. */
  lemma {:induction false} NothingAfterCompletion(s: State, env: Env, events: seq<Event>)
    requires s.completed
    ensures var t := Run(s, env, events); t.completed && Callbacks(t.trace) == Callbacks(s.trace)
    decreases events
  {
    hide Step, Callbacks;
    if events != [] {
      EventAfterCompletion(s, env, events[0]);
      NothingAfterCompletion(Step(s, env, events[0]), env, events[1..]);
    }
  }

  /** Headers report no error exactly for HTTP status 200 without a positive grpc-status; a grpc-status of 0 does not
      make up for another HTTP status. Without a grpc-status the code is one of the seventeen. */
  lemma HeadersReportOk(env: Env, headers: Metadata, status: nat)
    ensures HeadersCode(env, headers, status) == OK <==>
            status == 200 && !(StatusOf(env, headers).Some? && StatusOf(env, headers).value.Num?
                               && StatusOf(env, headers).value.n > 0)
    ensures headers.grpcStatus == [] ==>
            HeadersCode(env, headers, status).Num? && 0 <= HeadersCode(env, headers, status).n <= 16
  {
    if status != 200 {
      assert HttpStatusToCode(status) != OK;
    }
  }

  /** Headers that report an error end the call at once with the code they give, a positive grpc-status
      before the HTTP status, and no later event has any effect on the callbacks. */
  lemma ErrorHeadersEndTheCall(s: State, env: Env, headers: Metadata, status: nat, later: seq<Event>)
    requires Quiet(env) && Waiting(s) && status != 0 && HeadersCode(env, headers, status) != OK
    ensures var code := HeadersCode(env, headers, status);
            var t := Run(s, env, [TransportHeaders(headers, status)] + later);
            && t.completed
            && Callbacks(t.trace) == Callbacks(s.trace) + ToAll(0, s.onHeaders, OfHeaders(headers))
                                     + ToAll(0, s.onEnd, OfEnd(code, StatusText(env, headers), headers))
  {
    hide Callbacks, InvokeFrom, Run, StatusText, HeadersCode, Complete;
    var code := HeadersCode(env, headers, status);
    var s0 := s.(responseHeaders := Some(headers));
    QuietInvokeFrom(s0, env, 0, s.onHeaders, OfHeaders(headers));
    QuietComplete(RawOnHeaders(s0, env, headers), env, code, StatusText(env, headers), headers);
    RunCons(env, s, TransportHeaders(headers, status), later);
    NothingAfterCompletion(Step(s, env, TransportHeaders(headers, status)), env, later);
  }

  // The state behind headers that report no error.
  lemma AfterHeaders(s: State, env: Env, headers: Metadata)
    requires Quiet(env) && Waiting(s) && HeadersCode(env, headers, 200) == OK
    ensures var t := Step(s, env, TransportHeaders(headers, 200));
            && !t.closed && !t.completed && t.pending == []
            && t.responseHeaders == Some(headers) && t.responseTrailers == None
            && t.onMessage == s.onMessage && t.onEnd == s.onEnd
            && Callbacks(t.trace) == Callbacks(s.trace) + ToAll(0, s.onHeaders, OfHeaders(headers))
  {
    hide Callbacks, InvokeFrom, HeadersCode;
    var s0 := s.(responseHeaders := Some(headers));
    QuietInvokeFrom(s0, env, 0, s.onHeaders, OfHeaders(headers));
    InvokeFromWith(s0, env, 0, s.onHeaders, OfHeaders(headers), s0.pending, s0.fed);
    assert With(s0, s0.pending, s0.fed) == s0;
  }

  // Without trailer blocks in the stream, every cutting of it is aligned.
  lemma {:induction false} NoTrailersAligned(pending: seq<byte>, cuts: seq<seq<byte>>)
    requires MessageFramesOnly(DecodeAll(pending + Flatten(cuts)).frames)
    ensures Aligned(pending, cuts)
    decreases cuts
  {
    hide DecodeAll;
    if cuts != [] {
      var head, tail := pending + cuts[0], Flatten(cuts[1..]);
      Associate(pending, cuts[0], tail);
      DecodeAppend(head, tail);
      var d, all := DecodeAll(head), DecodeAll(head + tail).frames;
      assert forall f | f in d.frames :: f in all;
      assert forall f | f in DecodeAll(d.rest + tail).frames :: f in all;
      NoTrailersAligned(d.rest, cuts[1..]);
    }
  }

  // So the parser is always where the whole-stream decoder is.
  lemma NoTrailersNoHoldback(cuts: seq<seq<byte>>)
    requires MessageFramesOnly(DecodeAll(Flatten(cuts)).frames)
    ensures ParseRun([], cuts) == Scan(DecodeAll(Flatten(cuts)).frames, DecodeAll(Flatten(cuts)).rest, false)
  {
    hide DecodeAll, Flatten, Aligned;
    assert [] + Flatten(cuts) == Flatten(cuts);
    NoTrailersAligned([], cuts);
    AlignedEmitsAll([], cuts);
  }

  // How a call ends whose headers are all there is.
  function EndOfHeaders(env: Env, headers: Metadata): Dispatch {
    match StatusOf(env, headers)
    case None => OfEnd(UNKNOWN, NO_STATUS_IN_HEADERS, headers)
    case Some(code) => OfEnd(code, StatusText(env, headers), headers)
  }

  /** A body that breaks off: without a trailer block, every complete message still arrives in order, for every
      cutting, and the call ends once: as unknown if the headers carry no status, and otherwise with the status that
      they carry. With a status of zero the call then looks complete. */
  lemma TruncatedDownload(s: State, env: Env, headers: Metadata, cuts: seq<seq<byte>>)
    requires Quiet(env) && Waiting(s) && HeadersCode(env, headers, 200) == OK
    requires MessageFramesOnly(DecodeAll(Flatten(cuts)).frames)
    ensures var t := Run(s, env, [TransportHeaders(headers, 200)] + ChunkEvents(cuts) + [TransportEnd]);
            && t.completed && t.pending == DecodeAll(Flatten(cuts)).rest
            && Callbacks(t.trace) == Callbacks(s.trace) + ToAll(0, s.onHeaders, OfHeaders(headers))
                                     + ToEach(MessagesOf(DecodeAll(Flatten(cuts)).frames), s.onMessage)
                                     + ToAll(0, s.onEnd, EndOfHeaders(env, headers))
  {
    hide Callbacks, Run, OnChunks, DecodeAll, ParseRun, Flatten, Complete;
    var s1 := Step(s, env, TransportHeaders(headers, 200));
    AfterHeaders(s, env, headers);
    NoTrailersNoHoldback(cuts);
    var fs := DecodeAll(Flatten(cuts)).frames;
    ChunkEventsAreFrames(s1, env, cuts);
    QuietFrames(s1, env, fs);
    var s2 := Run(s1, env, ChunkEvents(cuts));
    var end := EndOfHeaders(env, headers);
    QuietComplete(s2, env, end.code, end.text, headers);
    CompleteWith(s2, env, end.code, end.text, headers);
    RunInThree(s, env, TransportHeaders(headers, 200), ChunkEvents(cuts), [TransportEnd]);
    RunOne(s2, env, TransportEnd);
  }

  lemma RunInThree(s: State, env: Env, e: Event, a: seq<Event>, b: seq<Event>)
    ensures Run(s, env, [e] + a + b) == Run(Run(Step(s, env, e), env, a), env, b)
  {
    hide Run;
    assert [e] + a + b == [e] + (a + b);
    RunCons(env, s, e, a + b);
    RunConcat(env, Step(s, env, e), a, b);
  }

  /** A trailer block that is not ASCII: the messages of the chunks before the one that completes it have
      arrived, those that share its chunk are lost, the call ends once, as an internal error, and nothing that
      comes later runs a callback. */
  lemma DamagedTrailer(s: State, env: Env, headers: Metadata, cuts: seq<seq<byte>>, bad: seq<byte>, later: seq<Event>)
    requires Quiet(env) && Waiting(s) && HeadersCode(env, headers, 200) == OK
    requires var r := ParseRun([], cuts); !r.threw && ScanFrames(r.rest + bad).threw
    ensures var t := Run(s, env, [TransportHeaders(headers, 200)] + ChunkEvents(cuts)
                         + ([TransportChunk(bad)] + later));
            && t.completed
            && Callbacks(t.trace) == Callbacks(s.trace) + ToAll(0, s.onHeaders, OfHeaders(headers))
                                     + ToEach(MessagesOf(ParseRun([], cuts).frames), s.onMessage)
                                     + ToAll(0, s.onEnd, OfEnd(
                                         Num(13), "parsing error: Metadata is not valid (printable) ASCII",
                                         Metadata([], [], "")))
  {
    hide Callbacks, Run, OnChunks, ParseRun, Complete, HeadersCode, ScanFrames;
    var s1 := Step(s, env, TransportHeaders(headers, 200));
    AfterHeaders(s, env, headers);
    ChunkEventsAreFrames(s1, env, cuts);
    QuietFrames(s1, env, ParseRun([], cuts).frames);
    var s2 := Run(s1, env, ChunkEvents(cuts));
    var s3 := s2.(pending := ScanFrames(s2.pending + bad).rest, fed := s2.fed + bad);
    QuietComplete(s3, env, INTERNAL, PARSING_ERROR, NO_METADATA);
    RunInThree(s, env, TransportHeaders(headers, 200), ChunkEvents(cuts), [TransportChunk(bad)] + later);
    RunCons(env, s2, TransportChunk(bad), later);
    NothingAfterCompletion(Step(s2, env, TransportChunk(bad)), env, later);
  }
}
