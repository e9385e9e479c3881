/** A response from the handler's calls on the server to the callbacks of the client. */
module EndToEnd {
  import opened Bytes
  import opened Framing
  import opened ChunkParsing
  import opened ParserRuns
  import opened Headers
  import opened ClientModel
  import opened ClientDownload
  import opened ClientStreams
  import H = GrpcWebResponses
  import W = WebSocketResponses
  import X = XhrTransport

  const GRPC_STATUS := "grpc-status"

  /** The two header libraries understand each other: what the server rendered is ASCII, and the client's
      parser finds the grpc-status values in it. */
  ghost predicate Understood(env: Env, render: Header -> seq<byte>, th: Header) {
    && |render(th)| < UINT32_LIMIT && ValidAscii(render(th))
    && (GRPC_STATUS in th ==> env.parseMetadata(AsciiText(render(th))).grpcStatus == th[GRPC_STATUS])
  }

  /** The handler reported its status under some spelling of grpc-status, after the headers in `flushed`
      were gone, and no other trailer has that name. */
  ghost predicate ReportedStatus(headers: Header, flushed: set<string>, status: string) {
    && DistinctTrailers(headers, flushed)
    && exists k :: k in headers && ToLower(Strip(k)) == GRPC_STATUS && ToLower(k) != "trailer" && ToLower(k) !in flushed
                   && headers[k] == [status]
  }

  function Block(text: seq<byte>): Frame { Frame(0x80, text) }

  ghost predicate DataOnly(fs: seq<Frame>)
    ensures DataOnly(fs) ==> AllFit(fs)
  {
    forall f | f in fs :: f.Fits() && !f.IsTrailer()
  }

  lemma StatusArrives(env: Env, render: Header -> seq<byte>, th: Header,
                      headers: Header, flushed: set<string>, status: string)
    requires H.IsTrailer(th, headers, flushed) && Understood(env, render, th)
             && ReportedStatus(headers, flushed, status)
    ensures StatusOf(env, MetadataOf(env, Block(render(th)))) == Some(env.parseInt(status))
  {
    TrailerPartition(th, headers, flushed);
    var k :| k in headers && ToLower(Strip(k)) == GRPC_STATUS && ToLower(k) != "trailer" && ToLower(k) !in flushed
             && headers[k] == [status];
    assert th[ToLower(Strip(k))] == headers[k];
  }

  // A payload of data frames and a trailer block, as one list of frames.
  lemma BodyFrames(fs: seq<Frame>, text: seq<byte>)
    requires AllFit(fs) && |text| < UINT32_LIMIT
    ensures AllFit(fs + [Block(text)])
    ensures EncodeAll(fs + [Block(text)]) == EncodeAll(fs) + H.HeaderBlock(text)
  {
    hide EncodeFrame;
    var block := Block(text);
    H.HeaderBlockIsFrame(text);
    EncodeAllConcat(fs, [block]);
    EncodeOneMore(block, []);
    assert [block] + [] == [block];
    NoBytesNoFrames();
    assert EncodeFrame(block) + [] == EncodeFrame(block);
  }

  /** An HTTP call that goes well: the server answers with `head` and `body` to a handler that writes the data
      frames `fs` in any pieces and reports `status` before it returns; the client waits for the response, its
      callbacks are quiet, and the headers do not themselves report an error. */
  ghost predicate HttpExchange(env: Env, s: State, headers: Metadata, ops: seq<H.HandlerOp>, before: Header,
                               render: Header -> seq<byte>, head: Header, body: seq<byte>, th: Header,
                               fs: seq<Frame>, status: string)
  {
    && H.FullResponse(ops, before, false, render, Some(200), head, body, th)
    && DataOnly(fs) && H.Payload(ops) == EncodeAll(fs)
    && ReportedStatus(H.HeadersAfter(ops), LowerKeys(head), status) && Understood(env, render, th)
    && Quiet(env) && Waiting(s) && HeadersCode(env, headers, 200) == OK
  }

  // An HTTP response with the status 200, as the transport reports it.
  function HttpEvents(headers: Metadata, cuts: seq<seq<byte>>): seq<Event> {
    [TransportHeaders(headers, 200)] + ChunkEvents(cuts) + [TransportEnd]
  }

  /** HTTP download, end to end: the handler writes whole data frames in any pieces and sets grpc-status before it
      returns. Whatever chunks the body is cut into, and however the client goes on sending meanwhile, its callbacks run
      exactly once for the headers, once for every message in order, and once for the end, with the handler's status. */
  lemma DownloadOverHttp(env: Env, s: State, headers: Metadata, cuts: seq<seq<byte>>, events: seq<Event>,
                         ops: seq<H.HandlerOp>, before: Header, render: Header -> seq<byte>, head: Header,
                         body: seq<byte>, th: Header, fs: seq<Frame>, status: string)
    requires HttpExchange(env, s, headers, ops, before, render, head, body, th, fs, status)
    requires Flatten(cuts) == body && Interleaves(events, HttpEvents(headers, cuts))
    ensures RunsExactly(env, s, Run(s, env, events), headers, MessagesOf(fs), env.parseInt(status),
                        MetadataOf(env, Block(render(th))))
  {
    hide RunsExactly, Quiet, Waiting, HeadersCode, Run, ReportedStatus, Interleaves, H.IsTrailer, H.Prepared;
    BodyFrames(fs, render(th));
    StatusArrives(env, render, th, H.HeadersAfter(ops), LowerKeys(head), status);
    H.HeaderBlockIsFrame(render(th));
    HttpDownload(s, env, headers, fs, Block(render(th)), cuts, env.parseInt(status));
    StreamsAlike(s, env, events, HttpEvents(headers, cuts), headers, MessagesOf(fs), env.parseInt(status),
                 MetadataOf(env, Block(render(th))));
  }

  /** The same through XMLHttpRequest: the body is shown as x-user-defined text, and progress events fall
      anywhere, the last when all of it is there. */
  lemma DownloadOverXhr(env: Env, s: State, headers: Metadata, chunks: seq<seq<byte>>, events: seq<Event>,
                        ops: seq<H.HandlerOp>, before: Header, render: Header -> seq<byte>, head: Header,
                        body: seq<byte>, th: Header, fs: seq<Frame>, status: string)
    requires HttpExchange(env, s, headers, ops, before, render, head, body, th, fs, status)
    requires X.Showed(body, chunks) && Interleaves(events, HttpEvents(headers, chunks))
    ensures RunsExactly(env, s, Run(s, env, events), headers, MessagesOf(fs), env.parseInt(status),
                        MetadataOf(env, Block(render(th))))
  {
    hide RunsExactly, HttpExchange, Run, MessagesOf, Interleaves, X.Showed;
    X.ShowedChunks(body, chunks);
    DownloadOverHttp(env, s, headers, chunks, events, ops, before, render, head, body, th, fs, status);
  }

  /** An HTTP call that fails before the handler writes anything: the status, set under `key`, goes out with the
      headers, and the client's parser finds it there. */
  ghost predicate HttpFailure(env: Env, s: State, headers: Metadata, ops: seq<H.HandlerOp>, before: Header,
                              head: Header, body: seq<byte>, key: string, status: string)
  {
    && H.HeadersOnlyResponse(ops, before, false, Some(200), head, body)
    && key in H.HeadersAfter(ops) && ToLower(Strip(key)) == GRPC_STATUS && ToLower(key) != "trailer"
    && H.HeadersAfter(ops)[key] == [status]
    && NoClash(H.HeadersAfter(ops), PrepareOptions(H.GRPC_WEB_CONTENT_TYPE))
    && (forall k | k in head && ToLower(k) == GRPC_STATUS :: headers.grpcStatus == head[k])
    && Quiet(env) && Waiting(s)
  }

  lemma StatusIsSent(env: Env, s: State, headers: Metadata, ops: seq<H.HandlerOp>, before: Header, head: Header,
                     body: seq<byte>, key: string, status: string)
    requires HttpFailure(env, s, headers, ops, before, head, body, key, status)
    ensures StatusOf(env, headers) == Some(env.parseInt(status)) && body == [] && Quiet(env) && Waiting(s)
  {
    hide Quiet, Waiting, NoClash, H.Prepared, H.HeadersAfter, Strip, ToLower, CanonicalHeaderKey;
    H.EveryHeaderIsSent(ops, before, false, Some(200), head, body, key);
    CanonicalKeepsLower(Strip(key));
    CanonicalKeepsLower("access-control-expose-headers");
    StatusNames();
    assert head[CanonicalHeaderKey(Strip(key))] == [status];
  }

  /** A handler that fails before it writes anything: its status travels in the response's headers, and the
      client's callbacks run once for the headers and once for the end, with that status. */
  lemma ErrorOverHttp(env: Env, s: State, headers: Metadata, cuts: seq<seq<byte>>, events: seq<Event>,
                      ops: seq<H.HandlerOp>, before: Header, head: Header, body: seq<byte>, key: string, status: string)
    requires HttpFailure(env, s, headers, ops, before, head, body, key, status)
    requires Flatten(cuts) == body && Interleaves(events, HttpEvents(headers, cuts))
    ensures RunsExactly(env, s, Run(s, env, events), headers, [], env.parseInt(status), headers)
  {
    hide RunsExactly, HttpFailure, Run, Interleaves;
    StatusIsSent(env, s, headers, ops, before, head, body, key, status);
    TrailersOnlyDownload(s, env, headers, cuts, env.parseInt(status));
    StreamsAlike(s, env, events, HttpEvents(headers, cuts), headers, [], env.parseInt(status), headers);
  }

  // grpc-status is neither the content type nor the list of exposed headers.
  lemma StatusNames()
    ensures GRPC_STATUS != "content-type" && ToLower("access-control-expose-headers") != GRPC_STATUS
  {
    assert ToLower("access-control-expose-headers")[0] == 'a';
    assert GRPC_STATUS[0] == 'g' && "content-type"[0] == 'c';
  }

  /** A WebSocket call that goes well: the server answers with the messages `sent` to a handler that writes the data
      frames `fs` in any pieces and reports `status` after the header block is gone. */
  ghost predicate WebSocketExchange(env: Env, s: State, ops: seq<H.HandlerOp>, render: Header -> seq<byte>,
                                    sent: seq<seq<byte>>, th: Header, fs: seq<Frame>, status: string)
  {
    && W.WebSocketResponse(ops, render, sent, th) && H.FirstSend(ops) < |ops|
    && DataOnly(fs) && H.Payload(ops) == EncodeAll(fs)
    && ReportedStatus(H.HeadersAfter(ops), LowerKeys(W.FlushedBy(ops)) - {"trailer"}, status)
    && Understood(env, render, th) && Understood(env, render, W.FlushedBy(ops))
    && Quiet(env) && Waiting(s)
  }

  /** One that fails before the handler writes anything. */
  ghost predicate WebSocketFailure(env: Env, s: State, ops: seq<H.HandlerOp>, render: Header -> seq<byte>,
                                   sent: seq<seq<byte>>, th: Header, status: string)
  {
    && W.WebSocketResponse(ops, render, sent, th) && H.FirstSend(ops) == |ops|
    && ReportedStatus(H.HeadersAfter(ops), {}, status) && Understood(env, render, th)
    && Quiet(env) && Waiting(s)
  }

  /** WebSocket download, end to end: every message of the server arrives as one chunk. The header block becomes
      the headers, nothing is held back, and the trailer block ends the call with the handler's status. */
  lemma DownloadOverWebSocket(env: Env, s: State, events: seq<Event>, ops: seq<H.HandlerOp>,
                              render: Header -> seq<byte>, sent: seq<seq<byte>>, th: Header, fs: seq<Frame>,
                              status: string)
    requires WebSocketExchange(env, s, ops, render, sent, th, fs, status)
    requires Interleaves(events, ChunkEvents(sent) + [TransportEnd])
    ensures RunsExactly(env, s, Run(s, env, events), MetadataOf(env, Block(render(W.FlushedBy(ops)))), MessagesOf(fs),
                        env.parseInt(status), MetadataOf(env, Block(render(th))))
  {
    hide RunsExactly, Quiet, Waiting, Run, ReportedStatus, LowerKeys, EncodeAll, EncodeFrame, MessagesOf, Flatten;
    hide Interleaves;
    hide H.IsTrailer, H.HeaderBlock, H.Payload, H.HeadersAfter, W.BlockMessages, W.Writes, W.FlushedBy;
    var header, trailer := render(W.FlushedBy(ops)), render(th);
    var cuts := W.Writes(ops) + W.BlockMessages(trailer);
    assert sent == W.BlockMessages(header) + cuts;
    H.HeaderBlockIsFrame(header);
    H.HeaderBlockIsFrame(trailer);
    W.BlockMessagesSpell(header);
    W.BlockMessagesSpell(trailer);
    W.WritesSpellPayload(ops);
    FlattenConcat(W.Writes(ops), W.BlockMessages(trailer));
    BodyFrames(fs, trailer);
    StatusArrives(env, render, th, H.HeadersAfter(ops), LowerKeys(W.FlushedBy(ops)) - {"trailer"}, status);
    WebSocketDownload(s, env, Block(header), W.BlockMessages(header), fs, Block(trailer), cuts, env.parseInt(status));
    StreamsAlike(s, env, events, ChunkEvents(sent) + [TransportEnd], MetadataOf(env, Block(header)), MessagesOf(fs),
                 env.parseInt(status), MetadataOf(env, Block(trailer)));
  }

  /** A handler that writes nothing over a WebSocket: the only block is taken for the headers, and the client
      still learns the handler's status, once. */
  lemma ErrorOverWebSocket(env: Env, s: State, events: seq<Event>, ops: seq<H.HandlerOp>,
                           render: Header -> seq<byte>, sent: seq<seq<byte>>, th: Header, status: string)
    requires WebSocketFailure(env, s, ops, render, sent, th, status)
    requires Interleaves(events, ChunkEvents(sent) + [TransportEnd])
    ensures var md := MetadataOf(env, Block(render(th)));
            RunsExactly(env, s, Run(s, env, events), md, [], env.parseInt(status), md)
  {
    hide RunsExactly, Quiet, Waiting, Run, ReportedStatus, Interleaves, H.IsTrailer, W.BlockMessages, H.HeaderBlock;
    H.HeaderBlockIsFrame(render(th));
    W.BlockMessagesSpell(render(th));
    StatusArrives(env, render, th, H.HeadersAfter(ops), {}, status);
    WebSocketTrailersOnly(s, env, Block(render(th)), sent, env.parseInt(status));
    var md := MetadataOf(env, Block(render(th)));
    StreamsAlike(s, env, events, ChunkEvents(sent) + [TransportEnd], md, [], env.parseInt(status), md);
  }
}
