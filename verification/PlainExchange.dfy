/** The simplest exchanges of EndToEnd, to show that what its theorems ask for does happen. */
module PlainExchanges {
  import opened Bytes
  import opened Framing
  import opened ChunkParsing
  import opened Headers
  import opened ClientModel
  import opened ClientDownload
  import opened ClientStreams
  import opened EndToEnd
  import opened HeaderText
  import H = GrpcWebResponses
  import W = WebSocketResponses

  lemma LowerStays(k: string)
    requires forall c | c in k :: !('A' <= c <= 'Z')
    ensures ToLower(k) == k
  {
    forall i | 0 <= i < |k| ensures LowerChar(k[i]) == k[i] {
      assert k[i] in k;
    }
  }

  // The trailer block of a handler that set nothing but one lower-case key, which was not flushed.
  lemma OneTrailer(key: string, value: string, flushed: set<string>)
    requires (forall c | c in key :: !('A' <= c <= 'Z')) && key !in {"trailer"} + flushed
    ensures H.IsTrailer(map[key := [value]], map[key := [value]], flushed)
    ensures ToLower(Strip(key)) == key && ToLower(key) == key
  {
    hide ToLower, Strip, ImageOf;
    var th: Header := map[key := [value]];
    var opts := TrailerOptions(flushed);
    LowerStays(key);
    NotMarked(key);
    TrailerImage(flushed, th, key);
    assert ImageOf(th, opts, key) == (key, [value]) && Copied(th, opts, key);
    assert ImageKeys(th, opts) == {key};
  }

  lemma StatusIsReported(status: string, flushed: set<string>)
    requires GRPC_STATUS !in flushed
    ensures H.IsTrailer(map[GRPC_STATUS := [status]], map[GRPC_STATUS := [status]], flushed)
    ensures ReportedStatus(map[GRPC_STATUS := [status]], flushed, status)
  {
    hide ToLower, Strip, H.IsTrailer;
    assert GRPC_STATUS[0] != "trailer"[0];
    OneTrailer(GRPC_STATUS, status, flushed);
  }

  // What is sent before the first byte of a handler that has set no header.
  function BareHead(): Header {
    map[H.EXPOSE_HEADERS := [H.Join([GRPC_STATUS, "grpc-message"], ", ")]]
  }

  lemma BareHeadIsPrepared()
    ensures H.Prepared(BareHead(), map[], map[], H.ContentType(false))
  {
    hide H.Join, H.Prepared, CanonicalHeaderKey, ToLower, Overwritten;
    NothingCopied(H.ContentType(false));
    assert IsOrder([], {});
    assert [] + ["grpc-status", "grpc-message"] == ["grpc-status", "grpc-message"];
    H.PreparedFrom(map[], [], map[], map[], H.ContentType(false));
  }

  lemma NothingCopied(contentType: string)
    ensures Overwritten(map[], map[], map[], PrepareOptions(contentType))
  {
  }

  lemma StatusIsNotExposed()
    ensures GRPC_STATUS !in LowerKeys(BareHead())
  {
    hide H.Join, CanonicalHeaderKey, ToLower;
    StatusNames();
    CanonicalKeepsLower("access-control-expose-headers");
  }

  // What a handler leaves that writes once and then sets one header.
  lemma WriteThenSet(bytes: seq<byte>, key: string, value: string)
    ensures var ops := [H.Write(bytes), H.SetHeader(key, [value])];
            && H.FirstSend(ops) == 0 && H.HeadersAfter(ops[..0]) == map[] && H.StatusOf(ops) == 200
            && H.HeadersAfter(ops) == map[key := [value]] && H.Payload(ops) == bytes
  {
    var ops := [H.Write(bytes), H.SetHeader(key, [value])];
    assert ops[..0] == [] && ops[..2] == ops;
    H.StepAfter(ops, 0);
    H.StepAfter(ops, 1);
    assert [] + bytes == bytes && bytes + [] == bytes;
  }

  /** A handler that writes its frames and then sets its status gets an exchange that EndToEnd speaks about: the body
      is its frames and a block with that status, whatever they are. */
  lemma PlainExchange(env: Env, s: State, headers: Metadata, render: Header -> seq<byte>,
                      fs: seq<Frame>, status: string)
    requires DataOnly(fs) && Understood(env, render, map[GRPC_STATUS := [status]])
    requires Quiet(env) && Waiting(s) && HeadersCode(env, headers, 200) == OK
    ensures var th: Header := map[GRPC_STATUS := [status]];
            HttpExchange(env, s, headers, [H.Write(EncodeAll(fs)), H.SetHeader(GRPC_STATUS, [status])], map[], render,
                         BareHead(), EncodeAll(fs) + H.HeaderBlock(render(th)), th, fs, status)
  {
    hide Quiet, Waiting, HeadersCode, Understood, DataOnly, ReportedStatus, LowerKeys, BareHead;
    hide H.IsTrailer, H.HeaderBlock, H.Prepared, H.HeadersAfter, H.Payload, H.FirstSend, H.StatusOf;
    WriteThenSet(EncodeAll(fs), GRPC_STATUS, status);
    BareHeadIsPrepared();
    StatusIsNotExposed();
    StatusIsReported(status, LowerKeys(BareHead()));
  }

  // What a handler leaves that sets one header and nothing else.
  lemma SetOnly(key: string, value: string)
    ensures var ops := [H.SetHeader(key, [value])];
            H.FirstSend(ops) == |ops| && H.HeadersAfter(ops) == map[key := [value]]
  {
    var ops := [H.SetHeader(key, [value])];
    assert ops[..0] == [] && ops[..1] == ops && !H.Sends(ops[0]);
    H.StepAfter(ops, 0);
  }

  // The headers sent to a client when the status is all there is.
  function StatusHead(status: string): Header {
    var name := CanonicalHeaderKey(GRPC_STATUS);
    map[name := [status]][H.EXPOSE_HEADERS := [H.Join([name] + [GRPC_STATUS, "grpc-message"], ", ")]]
  }

  lemma StatusIsPlain()
    ensures ToLower(Strip(GRPC_STATUS)) == GRPC_STATUS && ToLower(GRPC_STATUS) == GRPC_STATUS
    ensures Strip(GRPC_STATUS) == GRPC_STATUS && GRPC_STATUS != "trailer" && GRPC_STATUS != "content-type"
  {
    hide ToLower, Strip;
    LowerStays(GRPC_STATUS);
    NotMarked(GRPC_STATUS);
    StatusNames();
    assert GRPC_STATUS[0] != "trailer"[0];
  }

  lemma StatusImage(status: string, contentType: string)
    ensures var src: Header := map[GRPC_STATUS := [status]];
            && Copied(src, PrepareOptions(contentType), GRPC_STATUS)
            && ImageOf(src, PrepareOptions(contentType), GRPC_STATUS) == (CanonicalHeaderKey(GRPC_STATUS), [status])
  {
    hide CanonicalHeaderKey, ToLower, Strip, ImageOf;
    StatusIsPlain();
    PrepareImage(contentType, map[GRPC_STATUS := [status]], GRPC_STATUS);
  }

  lemma StatusIsCopied(status: string, contentType: string)
    ensures Overwritten(map[CanonicalHeaderKey(GRPC_STATUS) := [status]], map[], map[GRPC_STATUS := [status]],
                        PrepareOptions(contentType))
    ensures NoClash(map[GRPC_STATUS := [status]], PrepareOptions(contentType))
  {
    hide CanonicalHeaderKey, ToLower, ImageOf, Overwritten, CopyInOrder, PrepareOptions, Copied;
    var src: Header, opts := map[GRPC_STATUS := [status]], PrepareOptions(contentType);
    StatusImage(status, contentType);
    assert IsOrder([GRPC_STATUS], src.Keys);
    CopyOverwrites(map[], src, opts, [GRPC_STATUS]);
    OneCopied(src, opts, GRPC_STATUS);
    assert forall k | Copied(src, opts, k) :: k == GRPC_STATUS by { CopiedIsThere(src, opts); }
  }

  lemma CopiedIsThere(src: Header, opts: CopyOptions)
    ensures forall k | Copied(src, opts, k) :: k in src
  {
  }

  lemma StatusHeadIsPrepared(status: string)
    ensures H.Prepared(StatusHead(status), map[], map[GRPC_STATUS := [status]], H.ContentType(false))
  {
    hide H.Join, H.Prepared, CanonicalHeaderKey, Overwritten, H.ContentType;
    var name := CanonicalHeaderKey(GRPC_STATUS);
    StatusIsCopied(status, H.ContentType(false));
    assert IsOrder([name], map[name := [status]].Keys);
    H.PreparedFrom(map[name := [status]], [name], map[], map[GRPC_STATUS := [status]], H.ContentType(false));
  }

  lemma StatusHeadHolds(status: string)
    ensures forall k | k in StatusHead(status) && ToLower(k) == GRPC_STATUS :: StatusHead(status)[k] == [status]
  {
    hide H.Join, CanonicalHeaderKey, ToLower;
    StatusNames();
    CanonicalKeepsLower("access-control-expose-headers");
  }

  lemma OneCopied(src: Header, opts: CopyOptions, key: string)
    requires Copied(src, opts, key)
    ensures CopyInOrder(map[], src, opts, [key]) == map[ImageOf(src, opts, key).0 := ImageOf(src, opts, key).1]
  {
    hide ImageOf, ToLower;
    assert [key][1..] == [];
  }

  /** A handler that only sets its status gets a response without a body that EndToEnd speaks about. */
  lemma PlainFailure(env: Env, s: State, headers: Metadata, status: string)
    requires Quiet(env) && Waiting(s) && headers.grpcStatus == [status]
    ensures HttpFailure(env, s, headers, [H.SetHeader(GRPC_STATUS, [status])], map[], StatusHead(status), [],
                        GRPC_STATUS, status)
  {
    hide Quiet, Waiting, H.Prepared, H.HeadersAfter, NoClash, ToLower, Strip, StatusHead, PrepareOptions, H.FirstSend;
    SetOnly(GRPC_STATUS, status);
    StatusHeadIsPrepared(status);
    StatusHeadHolds(status);
    StatusIsCopied(status, H.GRPC_WEB_CONTENT_TYPE);
    StatusIsPlain();
  }

  /** The same handlers over a WebSocket: the frames of the first go out as one message between the blocks. Header
      block and trailer block share out the headers as HeaderTrailerPartition asks. */
  lemma PlainStream(env: Env, s: State, render: Header -> seq<byte>, fs: seq<Frame>, status: string)
    requires DataOnly(fs) && Understood(env, render, map[GRPC_STATUS := [status]]) && Understood(env, render, map[])
    requires Quiet(env) && Waiting(s)
    ensures var ops := [H.Write(EncodeAll(fs)), H.SetHeader(GRPC_STATUS, [status])];
            var th: Header := map[GRPC_STATUS := [status]];
            var sent := W.BlockMessages(render(map[])) + [EncodeAll(fs)] + W.BlockMessages(render(th));
            && WebSocketExchange(env, s, ops, render, sent, th, fs, status)
            && DistinctTrailers(H.HeadersAfter(ops), {}) && GRPC_STATUS in H.HeadersAfter(ops)
  {
    hide Quiet, Waiting, Understood, DataOnly, ReportedStatus, EncodeAll, ToLower, DistinctTrailers;
    hide H.IsTrailer, H.HeadersAfter, H.Payload, H.FirstSend, W.BlockMessages, W.Writes;
    var ops := [H.Write(EncodeAll(fs)), H.SetHeader(GRPC_STATUS, [status])];
    WriteThenSet(EncodeAll(fs), GRPC_STATUS, status);
    StatusIsReported(status, {});
    assert LowerKeys(map[]) - {"trailer"} == {};
    assert W.Writes(ops) == [EncodeAll(fs)] by { OneWrite(ops, EncodeAll(fs), GRPC_STATUS, [status]); }
    assert DistinctTrailers(H.HeadersAfter(ops), {}) by { StatusIsDistinct(status); }
  }

  lemma StatusIsDistinct(status: string)
    ensures DistinctTrailers(map[GRPC_STATUS := [status]], {})
  {
  }

  lemma OneWrite(ops: seq<H.HandlerOp>, bytes: seq<byte>, key: string, values: seq<string>)
    requires ops == [H.Write(bytes), H.SetHeader(key, values)]
    ensures W.Writes(ops) == [bytes]
  {
    assert ops[..0] == [] && ops[..2] == ops;
    W.WritesAfter(ops, 0);
    W.WritesAfter(ops, 1);
  }

  lemma PlainStreamFailure(env: Env, s: State, render: Header -> seq<byte>, status: string)
    requires Understood(env, render, map[GRPC_STATUS := [status]]) && Quiet(env) && Waiting(s)
    ensures var th: Header := map[GRPC_STATUS := [status]];
            WebSocketFailure(env, s, [H.SetHeader(GRPC_STATUS, [status])], render, W.BlockMessages(render(th)),
                             th, status)
  {
    hide Quiet, Waiting, Understood, ReportedStatus, H.IsTrailer, H.HeadersAfter, H.FirstSend, W.BlockMessages;
    SetOnly(GRPC_STATUS, status);
    StatusIsReported(status, {});
  }

  /** http.Header.Write, for the headers of such a handler: one line. */
  ghost predicate WritesStatusLine(render: Header -> seq<byte>, status: string) {
    && IsPlain(status) && |Line((GRPC_STATUS, status))| < UINT32_LIMIT
    && OneByteEach(Line((GRPC_STATUS, status)))
    && render(map[GRPC_STATUS := [status]]) == CharBytes(Line((GRPC_STATUS, status)))
  }

  /** The client understands the line "grpc-status: " with a status, whose text it gets as it was, if its metadata
      parser finds the status in that line. */
  lemma StatusLineIsUnderstood(env: Env, render: Header -> seq<byte>, status: string)
    requires WritesStatusLine(render, status)
    requires env.parseMetadata("grpc-status: " + status + "\r\n").grpcStatus == [status]
    ensures Understood(env, render, map[GRPC_STATUS := [status]])
  {
    hide CharBytes, AsciiText, ValidAscii;
    var field := (GRPC_STATUS, status);
    assert Lines([field]) == Line(field) by { OneLine(field); }
    assert IsPlain(GRPC_STATUS);
    LinesAreRead([field]);
    assert Line(field) == "grpc-status: " + status + "\r\n";
  }

  lemma OneLine(field: Field)
    ensures Lines([field]) == Line(field)
  {
    assert [field][1..] == [] && Line(field) + "" == Line(field);
  }

  /** A whole call, with nothing left open but the metadata parser: the handler writes its frames and reports its
      status, the block is the line with that status, and the client's callbacks get every message and that status. */
  lemma PlainCall(env: Env, s: State, headers: Metadata, render: Header -> seq<byte>, fs: seq<Frame>, status: string,
                  cuts: seq<seq<byte>>, events: seq<Event>)
    requires DataOnly(fs) && Quiet(env) && Waiting(s) && HeadersCode(env, headers, 200) == OK
    requires WritesStatusLine(render, status)
    requires env.parseMetadata("grpc-status: " + status + "\r\n").grpcStatus == [status]
    requires Flatten(cuts) == EncodeAll(fs) + H.HeaderBlock(render(map[GRPC_STATUS := [status]]))
    requires Interleaves(events, HttpEvents(headers, cuts))
    ensures RunsExactly(env, s, Run(s, env, events), headers, MessagesOf(fs), env.parseInt(status),
                        env.parseMetadata("grpc-status: " + status + "\r\n"))
  {
    hide RunsExactly, Quiet, Waiting, HeadersCode, Interleaves, Run, Understood, HttpExchange, EncodeAll, H.HeaderBlock;
    hide CharBytes, AsciiText, MessagesOf;
    var th: Header := map[GRPC_STATUS := [status]];
    var ops := [H.Write(EncodeAll(fs)), H.SetHeader(GRPC_STATUS, [status])];
    StatusLineIsUnderstood(env, render, status);
    PlainExchange(env, s, headers, render, fs, status);
    DownloadOverHttp(env, s, headers, cuts, events, ops, map[], render, BareHead(),
                     EncodeAll(fs) + H.HeaderBlock(render(th)), th, fs, status);
    StatusLineIsText(status);
  }

  lemma StatusLineIsText(status: string)
    requires IsPlain(status) && OneByteEach(Line((GRPC_STATUS, status)))
    ensures AsciiText(CharBytes(Line((GRPC_STATUS, status)))) == "grpc-status: " + status + "\r\n"
  {
    OneLine((GRPC_STATUS, status));
    assert IsPlain(GRPC_STATUS);
    LinesAreRead([(GRPC_STATUS, status)]);
    assert Line((GRPC_STATUS, status)) == "grpc-status: " + status + "\r\n";
  }
}
