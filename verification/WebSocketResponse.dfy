/** The WebSocket response writer of the server: every header or trailer block goes out as two
    messages, every write of the handler as one. */
module WebSocketResponses {
  import opened Bytes
  import opened Framing
  import opened Headers
  import opened GrpcWebResponses

  /** writeHeaderFrame sends flag and length, then the text. */
  function BlockMessages(text: seq<byte>): seq<seq<byte>> {
    [HeaderBlock(text)[..HEADER_SIZE], text]
  }

  /** Two messages: five bytes with flag and length, then the text. */
  lemma BlockMessagesAre(text: seq<byte>)
    requires |text| < 0x100
    ensures BlockMessages(text) == [[0x80, 0, 0, 0, |text|], text]
  {
    assert HeaderBlock(text)[..5] == [0x80, 0, 0, 0, |text|];
  }

  lemma BlockMessagesSpell(text: seq<byte>)
    ensures Flatten(BlockMessages(text)) == HeaderBlock(text)
  {
    hide HeaderBlock;
    BlockPrefix(text);
    assert BlockMessages(text)[1..] == [text];
    FlattenSnoc([], text);
    assert [] + [text] == [text] && Flatten<byte>([]) + text == text;
  }

  class WebSocketResponseWriter {
    var writtenHeaders: bool
    const headers: HeaderMap
    const flushedHeaders: HeaderMap
    // http.Header.Write
    const render: Header -> seq<byte>
    // The messages handed to the connection.
    var sent: seq<seq<byte>>

    constructor (render: Header -> seq<byte>)
      ensures fresh(headers) && fresh(flushedHeaders) && headers != flushedHeaders
      ensures !writtenHeaders && headers.entries == map[] && flushedHeaders.entries == map[] && sent == []
      ensures this.render == render
    {
      writtenHeaders := false;
      headers := new HeaderMap(map[]);
      flushedHeaders := new HeaderMap(map[]);
      this.render := render;
      sent := [];
    }

    method Write(b: seq<byte>)
      requires headers != flushedHeaders
      modifies this, flushedHeaders
      ensures writtenHeaders
      ensures old(writtenHeaders) ==> sent == old(sent) + [b] && flushedHeaders.entries == old(flushedHeaders.entries)
      ensures !old(writtenHeaders) ==>
                && sent == old(sent) + BlockMessages(render(headers.entries)) + [b]
                && LowerKeys(flushedHeaders.entries)
                   == old(LowerKeys(flushedHeaders.entries)) + (LowerKeys(headers.entries) - {"trailer"})
    {
      if !writtenHeaders {
        WriteHeader(200);
      }
      sent := sent + [b];
    }

    method WriteHeaderFrame(h: Header)
      modifies this`sent
      ensures sent == old(sent) + BlockMessages(render(h))
    {
      hide U32BE, HeaderBlock;
      var headerBuffer := render(h);
      BlockPrefix(headerBuffer);
      sent := sent + [[0x80] + U32BE(|headerBuffer| % UINT32_LIMIT)];
      sent := sent + [headerBuffer];
    }

    method CopyFlushedHeaders()
      requires headers != flushedHeaders
      modifies flushedHeaders
      ensures LowerKeys(flushedHeaders.entries)
           == old(LowerKeys(flushedHeaders.entries)) + (LowerKeys(headers.entries) - {"trailer"})
    {
      ghost var before := flushedHeaders.entries;
      ghost var order := CopyHeader(flushedHeaders, headers, FlushedOptions());
      CopyOverwrites(before, headers.entries, FlushedOptions(), order);
      FlushedKeys(flushedHeaders.entries, before, headers.entries);
    }

    // The status code is not sent: the WebSocket handshake had one.
    method WriteHeader(code: nat)
      requires headers != flushedHeaders
      modifies this, flushedHeaders
      ensures writtenHeaders && sent == old(sent) + BlockMessages(render(headers.entries))
      ensures LowerKeys(flushedHeaders.entries)
           == old(LowerKeys(flushedHeaders.entries)) + (LowerKeys(headers.entries) - {"trailer"})
    {
      CopyFlushedHeaders();
      writtenHeaders := true;
      WriteHeaderFrame(headers.entries);
    }

    method ExtractTrailerHeaders() returns (th: HeaderMap)
      ensures fresh(th) && IsTrailer(th.entries, headers.entries, LowerKeys(flushedHeaders.entries))
    {
      th := ExtractTrailingHeaders(headers, flushedHeaders);
    }

    method FlushTrailers() returns (ghost th: Header)
      modifies this`sent
      ensures IsTrailer(th, headers.entries, LowerKeys(flushedHeaders.entries))
      ensures sent == old(sent) + BlockMessages(render(th))
    {
      var trailers := ExtractTrailerHeaders();
      th := trailers.entries;
      WriteHeaderFrame(trailers.entries);
    }
  }

  // ---- a whole request ----

  /** The handler's writes, one message each. */
  function Writes(ops: seq<HandlerOp>): seq<seq<byte>> {
    if ops == [] then []
    else Writes(ops[..|ops| - 1]) + if ops[|ops| - 1].Write? then [ops[|ops| - 1].bytes] else []
  }

  lemma {:induction false} WritesSpellPayload(ops: seq<HandlerOp>)
    ensures Flatten(Writes(ops)) == Payload(ops)
  {
    if ops != [] {
      WritesSpellPayload(ops[..|ops| - 1]);
      if ops[|ops| - 1].Write? {
        FlattenSnoc(Writes(ops[..|ops| - 1]), ops[|ops| - 1].bytes);
      } else {
        assert Writes(ops) == Writes(ops[..|ops| - 1]) && Payload(ops) == Payload(ops[..|ops| - 1]);
      }
    }
  }

  /** The headers that go out in the header block, if there is one. */
  function FlushedBy(ops: seq<HandlerOp>): Header { HeadersAfter(ops[..FirstSend(ops)]) }

  /** All messages of a response: a header block as soon as the handler sends anything, its writes, and a
      trailer block with the headers that were not in the header block. */
  ghost predicate WebSocketResponse(ops: seq<HandlerOp>, render: Header -> seq<byte>, sent: seq<seq<byte>>,
                                    th: Header)
  {
    if FirstSend(ops) < |ops| then
      && IsTrailer(th, HeadersAfter(ops), LowerKeys(FlushedBy(ops)) - {"trailer"})
      && sent == BlockMessages(render(FlushedBy(ops))) + Writes(ops) + BlockMessages(render(th))
    else
      && IsTrailer(th, HeadersAfter(ops), {})
      && sent == BlockMessages(render(th))
  }

  ghost predicate Underway(w: WebSocketResponseWriter, ops: seq<HandlerOp>, i: nat)
    requires i <= |ops|
    reads w, w.headers, w.flushedHeaders
  {
    && w.headers != w.flushedHeaders
    && w.headers.entries == HeadersAfter(ops[..i])
    && (w.writtenHeaders <==> FirstSend(ops) < i)
    && if w.writtenHeaders then
         && LowerKeys(w.flushedHeaders.entries) == LowerKeys(FlushedBy(ops)) - {"trailer"}
         && w.sent == BlockMessages(w.render(FlushedBy(ops))) + Writes(ops[..i])
       else
         && w.flushedHeaders.entries == map[]
         && w.sent == [] && Writes(ops[..i]) == []
  }

  lemma WritesAfter(ops: seq<HandlerOp>, i: nat)
    requires i < |ops|
    ensures Writes(ops[..i + 1]) == Writes(ops[..i]) + if ops[i].Write? then [ops[i].bytes] else []
  {
    assert ops[..i + 1][..i] == ops[..i];
  }

  method PerformCall(w: WebSocketResponseWriter, ops: seq<HandlerOp>, i: nat)
    requires i < |ops| && SingleFlush(ops) && Underway(w, ops, i)
    modifies w, w.headers, w.flushedHeaders
    ensures Underway(w, ops, i + 1)
  {
    hide HeadersAfter, Writes, SingleFlush, BlockMessages;
    StepAfter(ops, i);
    WritesAfter(ops, i);
    assert LowerKeys(map[]) == {};
    match ops[i]
    case SetHeader(key, values) => w.headers.Set(key, values);
    case DeleteHeader(key) => w.headers.Delete(key);
    case WriteHeader(code) =>
      FirstCall(ops, i);
      w.WriteHeader(code);
    case Write(bytes) =>
      FirstCall(ops, i);
      w.Write(bytes);
    case Flush =>
  }

  /** HandleGrpcWebsocketRequest around a handler that makes the given calls and then closes the request
      body, which flushes the trailers. */
  method HandleGrpcWebsocketRequest(ops: seq<HandlerOp>, render: Header -> seq<byte>)
    returns (sent: seq<seq<byte>>)
    requires SingleFlush(ops)
    ensures exists th: Header :: WebSocketResponse(ops, render, sent, th)
  {
    hide IsTrailer, BlockMessages;
    var w := new WebSocketResponseWriter(render);
    assert ops[..0] == [];
    for i := 0 to |ops|
      invariant fresh(w) && fresh(w.headers) && fresh(w.flushedHeaders)
      invariant Underway(w, ops, i)
    {
      hide Underway;
      PerformCall(w, ops, i);
    }
    assert ops[..|ops|] == ops && LowerKeys(map[]) == {};
    ghost var th := w.FlushTrailers();
    sent := w.sent;
    assert [] + BlockMessages(render(th)) == BlockMessages(render(th));
    assert WebSocketResponse(ops, render, sent, th);
  }

  /** Header and trailer block share out the headers exactly: when the keys other than "Trailer" stay apart
      after stripping and lower-casing, each one present at the end is in the header block, without regard to
      case, or else in the trailer block, and not in both. */
  lemma HeaderTrailerPartition(ops: seq<HandlerOp>, render: Header -> seq<byte>, sent: seq<seq<byte>>,
                               th: Header, key: string)
    requires WebSocketResponse(ops, render, sent, th) && FirstSend(ops) < |ops|
    requires DistinctTrailers(HeadersAfter(ops), {}) && key in HeadersAfter(ops) && ToLower(key) != "trailer"
    ensures ToLower(key) in LowerKeys(FlushedBy(ops)) <==> ToLower(Strip(key)) !in th
    ensures ToLower(key) !in LowerKeys(FlushedBy(ops)) ==> th[ToLower(Strip(key))] == HeadersAfter(ops)[key]
  {
    TrailerOrFlushed(th, HeadersAfter(ops), LowerKeys(FlushedBy(ops)) - {"trailer"}, key);
  }

  /** The final values of a header are in the header block, under its name in whatever case. */
  predicate InHeaderBlock(flushed: Header, key: string, values: seq<string>) {
    exists k :: k in flushed && ToLower(k) == ToLower(key) && flushed[k] == values
  }

  /** When they arrive, which is not always: exactly if the name was not in the header block, so that they go into the
      trailer block, or the header block already had them. */
  lemma FinalValuesInBlocks(ops: seq<HandlerOp>, render: Header -> seq<byte>, sent: seq<seq<byte>>, th: Header,
                            key: string)
    requires WebSocketResponse(ops, render, sent, th) && FirstSend(ops) < |ops|
    requires DistinctTrailers(HeadersAfter(ops), {}) && key in HeadersAfter(ops) && ToLower(key) != "trailer"
    ensures var values, trailed := HeadersAfter(ops)[key], ToLower(Strip(key));
            InHeaderBlock(FlushedBy(ops), key, values) || (trailed in th && th[trailed] == values) <==>
            ToLower(key) !in LowerKeys(FlushedBy(ops)) || InHeaderBlock(FlushedBy(ops), key, values)
  {
    hide WebSocketResponse, DistinctTrailers, HeadersAfter, FlushedBy, LowerKeys, InHeaderBlock;
    HeaderTrailerPartition(ops, render, sent, th, key);
  }

  /** A change that comes too late: a header that is in the header block and changed afterwards. */
  lemma LateChangeInBlocks(name: string, v: seq<string>, w: seq<string>, bytes: seq<byte>, render: Header -> seq<byte>,
                           sent: seq<seq<byte>>, th: Header)
    requires 'T' !in name && ToLower(name) != "trailer" && v != w
    requires WebSocketResponse([SetHeader(name, v), Write(bytes), SetHeader(name, w)], render, sent, th)
    ensures !InHeaderBlock(map[name := v], name, w) && ToLower(name) !in th
    ensures sent == BlockMessages(render(map[name := v])) + [bytes] + BlockMessages(render(th))
  {
    hide IsTrailer, BlockMessages, HeadersAfter, ToLower, Strip, FirstSend;
    var ops := [SetHeader(name, v), Write(bytes), SetHeader(name, w)];
    SetWriteSet(name, v, bytes, w);
    NotMarked(name);
    HeaderTrailerPartition(ops, render, sent, th, name);
    assert ops[..0] == [] && ops[..3] == ops;
    WritesAfter(ops, 0);
    WritesAfter(ops, 1);
    WritesAfter(ops, 2);
  }
}
