/** The HTTP response writer of the server: headers before the first byte, the handler's frames as
    they are, and what is left of the headers as a trailer block at the end; as text on request. */
module GrpcWebResponses {
  import opened Bytes
  import opened Framing
  import opened Headers
  import Base64

  /** A header or trailer block: flag byte with the most significant bit, length, and the headers as
      text. The length is converted to 32 bits. */
  function HeaderBlock(text: seq<byte>): (block: seq<byte>)
    ensures |block| == HEADER_SIZE + |text|
  {
    [0x80] + U32BE(|text| % UINT32_LIMIT) + text
  }

  lemma HeaderBlockIsFrame(text: seq<byte>)
    requires |text| < UINT32_LIMIT
    ensures Frame(0x80, text).IsTrailer() && HeaderBlock(text) == EncodeFrame(Frame(0x80, text))
  {
  }

  lemma BlockPrefix(text: seq<byte>)
    ensures HeaderBlock(text)[..5] == [0x80] + U32BE(|text| % UINT32_LIMIT) && HeaderBlock(text)[5..] == text
    ensures HeaderBlock(text) == HeaderBlock(text)[..5] + HeaderBlock(text)[5..]
  {
    hide U32BE;
  }

  // Flag and length are written first, then the text, and all of it is flushed.
  function BlockOps(text: seq<byte>): seq<Base64.Op> {
    [Base64.Write(HeaderBlock(text)[..5]), Base64.Write(text), Base64.Flush]
  }

  function Join(parts: seq<string>, sep: string): string {
    if parts == [] then "" else if |parts| == 1 then parts[0] else parts[0] + sep + Join(parts[1..], sep)
  }

  /** How a reader takes such a list apart. */
  function Split(text: string): seq<string>
    decreases |text|
  {
    match Index(text, ", ")
    case None => [text]
    case Some(i) => [text[..i]] + Split(text[i + 2..])
  }

  lemma FoundAtComma(s: string)
    ensures Index(s, ", ").Some? ==> Index(s, ", ").value < |s| && s[Index(s, ", ").value] == ','
  {
    if Index(s, ", ").Some? {
      var i := Index(s, ", ").value;
      assert s[i..i + 2][0] == s[i];
    }
  }

  lemma SplitFirst(part: string, rest: string)
    requires ',' !in part
    ensures Split(part) == [part] && Split(part + ", " + rest) == [part] + Split(rest)
  {
    hide Index;
    FoundAtComma(part);
    var text := part + ", " + rest;
    assert text[|part|..|part| + 2] == ", " && text[..|part|] == part && text[|part| + 2..] == rest;
    IndexIsFirst(text, ", ", |part|);
    FoundAtComma(text);
    assert forall i | 0 <= i < |part| :: text[i] == part[i];
  }

  /** Names without commas can be read back from the list that joins them. */
  lemma {:induction false} SplitJoin(parts: seq<string>)
    requires parts != [] && forall p | p in parts :: ',' !in p
    ensures Split(Join(parts, ", ")) == parts
    decreases |parts|
  {
    hide Split;
    var rest := parts[1..];
    assert parts[0] in parts && parts == [parts[0]] + rest && forall p | p in rest :: p in parts;
    SplitFirst(parts[0], Join(rest, ", "));
    if rest != [] {
      SplitJoin(rest);
    }
  }

  // net/http's ResponseWriter: the header map is sent once, with the status or with the first bytes.
  class ResponseWriter {
    const header: HeaderMap
    var status: Option<nat>
    var sentHeader: Header
    var body: seq<byte>

    constructor (header: HeaderMap)
      ensures this.header == header && status == None && sentHeader == map[] && body == []
    {
      this.header := header;
      status, sentHeader, body := None, map[], [];
    }

    method WriteHeader(code: nat)
      modifies this
      ensures body == old(body)
      ensures old(status).Some? ==> status == old(status) && sentHeader == old(sentHeader)
      ensures old(status).None? ==> status == Some(code) && sentHeader == header.entries
    {
      if status == None {
        status := Some(code);
        sentHeader := header.entries;
      }
    }

    method Write(b: seq<byte>)
      modifies this
      ensures body == old(body) + b
      ensures old(status).Some? ==> status == old(status) && sentHeader == old(sentHeader)
      ensures old(status).None? ==> status == Some(200) && sentHeader == header.entries
    {
      WriteHeader(200);
      body := body + b;
    }

    method Flush()
      modifies this
      ensures body == old(body)
      ensures old(status).Some? ==> status == old(status) && sentHeader == old(sentHeader)
      ensures old(status).None? ==> status == Some(200) && sentHeader == header.entries
    {
      WriteHeader(200);
    }
  }

  // The writer for text mode. Its encoder writes whole groups to `wrapped` and holds up to two bytes.
  class Base64ResponseWriter {
    const wrapped: ResponseWriter
    var held: seq<byte>

    constructor (wrapped: ResponseWriter)
      ensures this.wrapped == wrapped && held == []
    {
      this.wrapped := wrapped;
      held := [];
    }

    ghost function Stream(): Base64.TextStream
      reads this, wrapped
    {
      Base64.TextStream(wrapped.body, held)
    }

    method Write(b: seq<byte>)
      modifies this, wrapped
      ensures Stream() == Base64.AfterWrite(old(Stream()), b)
      ensures old(wrapped.status).Some? ==>
                wrapped.status == old(wrapped.status) && wrapped.sentHeader == old(wrapped.sentHeader)
      ensures old(wrapped.status).None? && wrapped.status.Some? ==>
                wrapped.status == Some(200) && wrapped.sentHeader == wrapped.header.entries
    {
      var all := held + b;
      var whole := Base64.Whole(all);
      if whole > 0 {
        wrapped.Write(Base64.Encode(all[..whole]));
      } else {
        assert all[..whole] == [] && wrapped.body + [] == wrapped.body;
      }
      held := all[whole..];
    }

    // Closes the encoder, which pads what it holds, starts a new one, and flushes.
    method Flush()
      modifies this, wrapped
      ensures Stream() == Base64.AfterFlush(old(Stream()))
      ensures old(wrapped.status).Some? ==>
                wrapped.status == old(wrapped.status) && wrapped.sentHeader == old(wrapped.sentHeader)
      ensures old(wrapped.status).None? ==> wrapped.status == Some(200) && wrapped.sentHeader == wrapped.header.entries
    {
      if held != [] {
        wrapped.Write(Base64.Encode(held));
      } else {
        assert wrapped.body + [] == wrapped.body;
      }
      held := [];
      wrapped.Flush();
    }
  }

  const GRPC_WEB_CONTENT_TYPE := "application/grpc-web"
  const GRPC_WEB_TEXT_CONTENT_TYPE := "application/grpc-web-text"

  function ContentType(isTextFormat: bool): string {
    if isTextFormat then GRPC_WEB_TEXT_CONTENT_TYPE else GRPC_WEB_CONTENT_TYPE
  }

  const EXPOSE_HEADERS := CanonicalHeaderKey("access-control-expose-headers")

  /** What prepareHeaders makes of the response's header map: the handler's headers, converted, over
      what was there, and the list of all keys for the browser. */
  ghost predicate Prepared(wh: Header, before: Header, headers: Header, contentType: string) {
    exists copied: Header, keys: seq<string> ::
      && Overwritten(copied, before, headers, PrepareOptions(contentType))
      && IsOrder(keys, copied.Keys)
      && wh == copied[EXPOSE_HEADERS := [Join(keys + ["grpc-status", "grpc-message"], ", ")]]
  }

  /** What a trailer block may hold: the headers that were not flushed. */
  ghost predicate IsTrailer(th: Header, headers: Header, flushed: set<string>) {
    Overwritten(th, map[], headers, TrailerOptions(flushed))
  }

  class GrpcWebResponse {
    var wroteHeaders: bool
    var wroteBody: bool
    const headers: HeaderMap
    const wrapped: ResponseWriter
    // The writer put around `wrapped` in text mode.
    const text: Base64ResponseWriter?
    const contentType: string
    // http.Header.Write
    const render: Header -> seq<byte>

    // What was written to and flushed through the wrapped writer.
    ghost var ops: seq<Base64.Op>

    ghost predicate Valid()
      reads this, wrapped, text
    {
      && headers != wrapped.header
      && contentType == ContentType(text != null)
      && (text == null ==> wrapped.body == Base64.Written(ops))
      && (text != null ==> text.wrapped == wrapped && text.Stream() == Base64.AfterOps(Base64.TextStream([], []), ops))
    }

    constructor (resp: ResponseWriter, isTextFormat: bool, render: Header -> seq<byte>)
      requires resp.body == []
      ensures Valid() && wrapped == resp && fresh(headers) && (text != null ==> fresh(text))
      ensures !wroteHeaders && !wroteBody && headers.entries == map[] && ops == []
      ensures isTextFormat <==> text != null
      ensures this.render == render
      ensures resp.body == [] && resp.status == old(resp.status)
    {
      wroteHeaders, wroteBody := false, false;
      headers := new HeaderMap(map[]);
      wrapped := resp;
      contentType := ContentType(isTextFormat);
      this.render := render;
      ops := [];
      if isTextFormat {
        text := new Base64ResponseWriter(resp);
      } else {
        text := null;
      }
    }

    // What writing or flushing leaves of the response's head.
    twostate predicate HeadKept(code: nat)
      reads wrapped, wrapped.header
    {
      && (old(wrapped.status).Some? ==>
            wrapped.status == old(wrapped.status) && wrapped.sentHeader == old(wrapped.sentHeader))
      && (old(wrapped.status).None? && wrapped.status.Some? ==>
            wrapped.status == Some(code) && wrapped.sentHeader == wrapped.header.entries)
    }

    // w.wrapped.Write, with or without the text writer.
    method WriteWrapped(b: seq<byte>)
      requires Valid()
      modifies this`ops, wrapped, text
      ensures Valid() && ops == old(ops) + [Base64.Write(b)] && HeadKept(200)
    {
      OpsGrow(ops, Base64.Write(b));
      ops := ops + [Base64.Write(b)];
      if text == null {
        wrapped.Write(b);
      } else {
        text.Write(b);
      }
    }

    // flushWriter(w.wrapped)
    method FlushWrapped()
      requires Valid()
      modifies this`ops, wrapped, text
      ensures Valid() && ops == old(ops) + [Base64.Flush] && HeadKept(200) && wrapped.status.Some?
    {
      OpsGrow(ops, Base64.Flush);
      ops := ops + [Base64.Flush];
      if text == null {
        wrapped.Flush();
      } else {
        text.Flush();
      }
    }

    method Write(b: seq<byte>)
      requires Valid()
      modifies this, wrapped, wrapped.header, text
      ensures Valid() && wroteHeaders && wroteBody && ops == old(ops) + [Base64.Write(b)] && HeadKept(200)
      ensures old(wroteHeaders) ==> wrapped.header.entries == old(wrapped.header.entries)
      ensures !old(wroteHeaders) ==>
                Prepared(wrapped.header.entries, old(wrapped.header.entries), headers.entries, contentType)
    {
      hide Prepared, Base64.AfterOps, Base64.Written, ContentType;
      if !wroteHeaders {
        PrepareHeaders();
      }
      wroteBody, wroteHeaders := true, true;
      WriteWrapped(b);
    }

    method WriteHeader(code: nat)
      requires Valid()
      modifies this`wroteHeaders, wrapped, wrapped.header
      ensures Valid() && wroteHeaders && HeadKept(code) && wrapped.status.Some?
      ensures Prepared(wrapped.header.entries, old(wrapped.header.entries), headers.entries, contentType)
    {
      hide Prepared, Base64.AfterOps, Base64.Written, ContentType;
      PrepareHeaders();
      wrapped.WriteHeader(code);
      wroteHeaders := true;
    }

    method Flush()
      requires Valid()
      modifies this`ops, wrapped, text
      ensures Valid() && HeadKept(200)
      ensures if wroteHeaders || wroteBody then ops == old(ops) + [Base64.Flush]
              else ops == old(ops) && wrapped.status == old(wrapped.status)
    {
      if wroteHeaders || wroteBody {
        FlushWrapped();
      }
    }

    method PrepareHeaders()
      requires Valid()
      modifies wrapped.header
      ensures Valid()
      ensures Prepared(wrapped.header.entries, old(wrapped.header.entries), headers.entries, contentType)
    {
      hide Prepared, Overwritten, PrepareOptions, Base64.AfterOps, Base64.Written, IsOrder, Join;
      var wh := wrapped.header;
      ghost var order := CopyHeader(wh, headers, PrepareOptions(contentType));
      CopyOverwrites(old(wrapped.header.entries), headers.entries, PrepareOptions(contentType), order);
      ghost var copied := wh.entries;
      var responseHeaderKeys := HeaderKeys(wh);
      wh.Set(EXPOSE_HEADERS, [Join(responseHeaderKeys + ["grpc-status", "grpc-message"], ", ")]);
      PreparedFrom(copied, responseHeaderKeys, old(wrapped.header.entries), headers.entries, contentType);
    }

    method FinishRequest() returns (ghost th: Header)
      requires Valid()
      modifies this, wrapped, wrapped.header, text
      ensures Valid() && HeadKept(200) && wrapped.status.Some?
      ensures old(wroteHeaders || wroteBody) ==>
                && IsTrailer(th, headers.entries, LowerKeys(wrapped.header.entries))
                && wrapped.header.entries == old(wrapped.header.entries)
                && ops == old(ops) + BlockOps(render(th))
      ensures !old(wroteHeaders || wroteBody) ==>
                && Prepared(wrapped.header.entries, old(wrapped.header.entries), headers.entries, contentType)
                && ops == old(ops) + [Base64.Flush]
    {
      hide Prepared, IsTrailer, BlockOps, LowerKeys, Base64.AfterOps, Base64.Written;
      th := map[];
      if wroteHeaders || wroteBody {
        th := CopyTrailersToPayload();
      } else {
        WriteHeader(200);
        FlushWrapped();
      }
    }

    method CopyTrailersToPayload() returns (ghost th: Header)
      requires Valid()
      modifies this`ops, wrapped, text
      ensures Valid() && HeadKept(200) && wrapped.status.Some?
      ensures IsTrailer(th, headers.entries, LowerKeys(wrapped.header.entries))
      ensures ops == old(ops) + BlockOps(render(th))
      ensures wrapped.header.entries == old(wrapped.header.entries)
    {
      hide IsTrailer, LowerKeys, Base64.AfterOps, Base64.Written, ContentType, U32BE, HeaderBlock;
      var trailers := ExtractTrailingHeaders(headers, wrapped.header);
      th := trailers.entries;
      var trailerBuffer := render(trailers.entries);
      var prefix := [0x80] + U32BE(|trailerBuffer| % UINT32_LIMIT);
      BlockPrefix(trailerBuffer);
      WriteWrapped(prefix);
      WriteWrapped(trailerBuffer);
      FlushWrapped();
    }
  }

  lemma PreparedFrom(copied: Header, keys: seq<string>, before: Header, headers: Header, contentType: string)
    requires Overwritten(copied, before, headers, PrepareOptions(contentType)) && IsOrder(keys, copied.Keys)
    ensures Prepared(copied[EXPOSE_HEADERS := [Join(keys + ["grpc-status", "grpc-message"], ", ")]],
                     before, headers, contentType)
  {
  }

  lemma OpsGrow(ops: seq<Base64.Op>, op: Base64.Op)
    ensures Base64.Written(ops + [op]) == Base64.Written(ops) + if op.Write? then op.bytes else []
    ensures forall t :: Base64.AfterOps(t, ops + [op])
                     == if op.Write? then Base64.AfterWrite(Base64.AfterOps(t, ops), op.bytes)
                        else Base64.AfterFlush(Base64.AfterOps(t, ops))
  {
    Base64.WrittenConcat(ops, [op]);
    assert [op][1..] == [];
    forall t {
      Base64.OpsSnoc(t, ops, op);
    }
  }

  method ExtractTrailingHeaders(src: HeaderMap, flushed: HeaderMap) returns (th: HeaderMap)
    ensures fresh(th) && IsTrailer(th.entries, src.entries, LowerKeys(flushed.entries))
  {
    th := new HeaderMap(map[]);
    var opts := TrailerOptions(LowerKeys(flushed.entries));
    ghost var order := CopyHeader(th, src, opts);
    CopyOverwrites(map[], src.entries, opts, order);
  }

  // ---- a whole request ----

  /** What a handler does with its response writer. */
  datatype HandlerOp =
    | SetHeader(key: string, values: seq<string>)
    | DeleteHeader(key: string)
    | WriteHeader(code: nat)
    | Write(bytes: seq<byte>)
    | Flush

  function HeadersAfter(ops: seq<HandlerOp>): Header {
    if ops == [] then map[]
    else
      var h := HeadersAfter(ops[..|ops| - 1]);
      var op := ops[|ops| - 1];
      match op
      case SetHeader(key, values) => h[key := values]
      case DeleteHeader(key) => h - {key}
      case _ => h
  }

  function Payload(ops: seq<HandlerOp>): seq<byte> {
    if ops == [] then []
    else Payload(ops[..|ops| - 1]) + if ops[|ops| - 1].Write? then ops[|ops| - 1].bytes else []
  }

  predicate Sends(op: HandlerOp) { op.WriteHeader? || op.Write? }

  /** The position of the first call that makes the response start, or the length. */
  function FirstSend(ops: seq<HandlerOp>): (n: nat)
    ensures n <= |ops| && (n < |ops| ==> Sends(ops[n])) && forall i | 0 <= i < n :: !Sends(ops[i])
  {
    if ops == [] || Sends(ops[0]) then 0 else 1 + FirstSend(ops[1..])
  }

  predicate About(op: HandlerOp, key: string) { (op.SetHeader? || op.DeleteHeader?) && op.key == key }

  /** The handler's headers are what was set last and not deleted since. */
  lemma {:induction false} LastCallCounts(ops: seq<HandlerOp>, i: nat, key: string)
    requires i < |ops| && About(ops[i], key) && forall j | i < j < |ops| :: !About(ops[j], key)
    ensures key in HeadersAfter(ops) <==> ops[i].SetHeader?
    ensures ops[i].SetHeader? ==> HeadersAfter(ops)[key] == ops[i].values
    decreases |ops|
  {
    if i < |ops| - 1 {
      var before := ops[..|ops| - 1];
      assert forall j | 0 <= j < |before| :: before[j] == ops[j];
      LastCallCounts(before, i, key);
      assert !About(ops[|ops| - 1], key);
    }
  }

  lemma {:induction false} NeverSet(ops: seq<HandlerOp>, key: string)
    requires forall op | op in ops :: !About(op, key)
    ensures key !in HeadersAfter(ops)
    decreases |ops|
  {
    if ops != [] {
      assert ops[|ops| - 1] in ops && forall op | op in ops[..|ops| - 1] :: op in ops;
      NeverSet(ops[..|ops| - 1], key);
    }
  }

  /** The body is what the handler wrote, in order. */
  lemma {:induction false} PayloadConcat(a: seq<HandlerOp>, b: seq<HandlerOp>)
    ensures Payload(a + b) == Payload(a) + Payload(b)
    ensures forall op :: Payload([op]) == if op.Write? then op.bytes else []
    decreases |b|
  {
    assert forall op: HandlerOp :: [op][..0] == [] && (op.Write? ==> [] + op.bytes == op.bytes);
    if b == [] {
      assert a + b == a;
    } else {
      var n := |b| - 1;
      assert (a + b)[..|a + b| - 1] == a + b[..n] && (a + b)[|a + b| - 1] == b[n];
      PayloadConcat(a, b[..n]);
    }
  }

  /** The status is that of the call that makes the response start. */
  lemma {:induction false} StatusSent(before: seq<HandlerOp>, op: HandlerOp, after: seq<HandlerOp>)
    requires (forall o | o in before :: !Sends(o)) && Sends(op)
    ensures FirstSend(before + [op] + after) == |before|
    ensures StatusOf(before + [op] + after) == if op.WriteHeader? then op.code else 200
    decreases |before|
  {
    var ops := before + [op] + after;
    if before != [] {
      assert before[0] in before && forall o | o in before[1..] :: o in before;
      assert ops[1..] == before[1..] + [op] + after;
      StatusSent(before[1..], op, after);
    }
  }

  // The handler does not call WriteHeader once the response has started.
  predicate SingleFlush(ops: seq<HandlerOp>) {
    forall i | FirstSend(ops) < i < |ops| :: !ops[i].WriteHeader?
  }

  function StatusOf(ops: seq<HandlerOp>): nat {
    if FirstSend(ops) < |ops| && ops[FirstSend(ops)].WriteHeader? then ops[FirstSend(ops)].code else 200
  }

  /** The bytes a body stands for: in text mode, several padded base64 parts. */
  function BodyBytes(body: seq<byte>, isTextFormat: bool): Option<seq<byte>> {
    if isTextFormat then Base64.DecodeParts(body) else Some(body)
  }

  /** The response to a request whose handler made the calls `ops`, when it wrote anything: the headers as
      they stood at the first write, converted; the handler's bytes; and one trailer block with the headers that had
      not been flushed. */
  ghost predicate FullResponse(ops: seq<HandlerOp>, before: Header, isTextFormat: bool, render: Header -> seq<byte>,
                               status: Option<nat>, head: Header, body: seq<byte>, th: Header)
  {
    && status == Some(StatusOf(ops))
    && Prepared(head, before, HeadersAfter(ops[..FirstSend(ops)]), ContentType(isTextFormat))
    && IsTrailer(th, HeadersAfter(ops), LowerKeys(head))
    && BodyBytes(body, isTextFormat) == Some(Payload(ops) + HeaderBlock(render(th)))
  }

  /** The response when the handler wrote nothing: all its headers, and an empty body. */
  ghost predicate HeadersOnlyResponse(ops: seq<HandlerOp>, before: Header, isTextFormat: bool,
                                      status: Option<nat>, head: Header, body: seq<byte>)
  {
    && status == Some(200)
    && Prepared(head, before, HeadersAfter(ops), ContentType(isTextFormat))
    && body == []
  }

  lemma StepAfter(ops: seq<HandlerOp>, i: nat)
    requires i < |ops|
    ensures HeadersAfter(ops[..i + 1])
         == match ops[i]
            case SetHeader(key, values) => HeadersAfter(ops[..i])[key := values]
            case DeleteHeader(key) => HeadersAfter(ops[..i]) - {key}
            case _ => HeadersAfter(ops[..i])
    ensures Payload(ops[..i + 1]) == Payload(ops[..i]) + if ops[i].Write? then ops[i].bytes else []
  {
    assert ops[..i + 1][..i] == ops[..i];
  }

  // Where a response stands after the first `i` calls of its handler.
  ghost predicate Underway(w: GrpcWebResponse, ops: seq<HandlerOp>, i: nat, before: Header)
    requires i <= |ops|
    reads w, w.headers, w.wrapped, w.wrapped.header, w.text
  {
    var first := FirstSend(ops);
    && w.Valid()
    && w.headers.entries == HeadersAfter(ops[..i])
    && Base64.Written(w.ops) == Payload(ops[..i])
    && (w.wroteHeaders <==> first < i)
    && (w.wroteBody ==> w.wroteHeaders)
    && (!w.wroteHeaders ==> w.wrapped.status == None && w.wrapped.header.entries == before && w.ops == [])
    && (w.wroteHeaders ==> Prepared(w.wrapped.header.entries, before, HeadersAfter(ops[..first]), w.contentType))
    && (w.wroteHeaders && ops[first].WriteHeader? ==> w.wrapped.status.Some?)
    && (w.wrapped.status.Some? ==>
         w.wrapped.status == Some(StatusOf(ops)) && w.wrapped.sentHeader == w.wrapped.header.entries)
  }

  method PerformCall(w: GrpcWebResponse, ops: seq<HandlerOp>, i: nat, ghost before: Header)
    requires i < |ops| && SingleFlush(ops) && Underway(w, ops, i, before)
    modifies w, w.headers, w.wrapped, w.wrapped.header, w.text
    ensures Underway(w, ops, i + 1, before)
  {
    hide Prepared, Base64.AfterOps, Base64.Written, HeadersAfter, Payload, SingleFlush;
    ghost var first := FirstSend(ops);
    StepAfter(ops, i);
    match ops[i]
    case SetHeader(key, values) => w.headers.Set(key, values);
    case DeleteHeader(key) => w.headers.Delete(key);
    case WriteHeader(code) =>
      FirstCall(ops, i);
      w.WriteHeader(code);
    case Write(bytes) =>
      FirstCall(ops, i);
      OpsGrow(w.ops, Base64.Write(bytes));
      w.Write(bytes);
    case Flush =>
      OpsGrow(w.ops, Base64.Flush);
      w.Flush();
  }

  // A sending call either starts the response or follows the one that did.
  lemma FirstCall(ops: seq<HandlerOp>, i: nat)
    requires i < |ops| && SingleFlush(ops) && Sends(ops[i])
    ensures FirstSend(ops) <= i && (ops[i].WriteHeader? ==> FirstSend(ops) == i)
  {
  }

  /** HandleGrpcWebRequest around a handler that makes the given calls. */
  method HandleGrpcWebRequest(resp: ResponseWriter, isTextFormat: bool, render: Header -> seq<byte>,
                              ops: seq<HandlerOp>)
    returns (ghost th: Header)
    requires resp.body == [] && resp.status == None && SingleFlush(ops)
    modifies resp, resp.header
    ensures if FirstSend(ops) < |ops| then
              FullResponse(ops, old(resp.header.entries), isTextFormat, render, resp.status, resp.sentHeader,
                           resp.body, th)
            else
              HeadersOnlyResponse(ops, old(resp.header.entries), isTextFormat, resp.status, resp.sentHeader, resp.body)
  {
    hide Prepared, IsTrailer, Base64.AfterOps, LowerKeys;
    ghost var before := resp.header.entries;
    var w := new GrpcWebResponse(resp, isTextFormat, render);
    assert ops[..0] == [];
    for i := 0 to |ops|
      invariant fresh(w) && fresh(w.headers) && (w.text != null ==> fresh(w.text))
      invariant Underway(w, ops, i, before)
    {
      hide Underway;
      PerformCall(w, ops, i, before);
    }
    assert ops[..|ops|] == ops;
    ghost var soFar := w.ops;
    th := w.FinishRequest();
    if FirstSend(ops) < |ops| {
      BlockWritten(soFar, render(th), w.ops, resp.body, isTextFormat);
    } else {
      BodyOf([], w.ops, resp.body, isTextFormat);
      NoText(w.ops);
    }
  }

  lemma BlockWritten(ops: seq<Base64.Op>, text: seq<byte>, all: seq<Base64.Op>, body: seq<byte>, isTextFormat: bool)
    requires all == ops + BlockOps(text)
    requires !isTextFormat ==> body == Base64.Written(all)
    requires isTextFormat ==> body == Base64.AfterOps(Base64.TextStream([], []), all).out
    ensures BodyBytes(body, isTextFormat) == Some(Base64.Written(ops) + HeaderBlock(text))
  {
    hide Base64.AfterOps, Base64.AfterFlush, Base64.AfterWrite, Base64.Written, HeaderBlock, BodyBytes;
    var a, b := Base64.Write(HeaderBlock(text)[..5]), Base64.Write(text);
    assert all == ops + [a] + [b] + [Base64.Flush];
    BodyOf(ops + [a] + [b], all, body, isTextFormat);
    OpsGrow(ops + [a], b);
    OpsGrow(ops, a);
    BlockPrefix(text);
    assert Base64.Written(ops) + HeaderBlock(text)[..5] + text == Base64.Written(ops) + HeaderBlock(text);
  }

  // What a finished body stands for.
  lemma BodyOf(ops: seq<Base64.Op>, all: seq<Base64.Op>, body: seq<byte>, isTextFormat: bool)
    requires all == ops + [Base64.Flush]
    requires !isTextFormat ==> body == Base64.Written(all)
    requires isTextFormat ==> body == Base64.AfterOps(Base64.TextStream([], []), all).out
    ensures BodyBytes(body, isTextFormat) == Some(Base64.Written(ops))
  {
    hide Base64.AfterOps, Base64.AfterFlush, Base64.DecodeParts;
    OpsGrow(ops, Base64.Flush);
    Base64.TextRoundTrip(ops);
    assert Base64.Written(ops) + [] == Base64.Written(ops);
  }

  lemma NoText(all: seq<Base64.Op>)
    requires all == [Base64.Flush]
    ensures Base64.AfterOps(Base64.TextStream([], []), all).out == [] && Base64.Written(all) == []
  {
    var start := Base64.TextStream([], []);
    assert Base64.AfterOps(start, all) == Base64.AfterOps(Base64.AfterFlush(start), []);
  }

  // ---- what arrives where ----

  /** Whether a lower-case name is among the headers of a response, in terms of what the response had before and of
      the handler's headers when the response starts. */
  ghost predicate SentKey(name: string, before: Header, headers: Header) {
    || name in LowerKeys(before)
    || name == ToLower(EXPOSE_HEADERS)
    || exists k :: k in headers && ToLower(k) != "trailer" && ToLower(Strip(k)) == name
  }

  lemma SentKeys(head: Header, before: Header, headers: Header, contentType: string, name: string)
    requires Prepared(head, before, headers, contentType)
    ensures name in LowerKeys(head) <==> SentKey(name, before, headers)
  {
    hide Overwritten, IsOrder, Join, CanonicalHeaderKey, ToLower, Strip;
    var copied: Header, keys: seq<string> :|
      && Overwritten(copied, before, headers, PrepareOptions(contentType))
      && IsOrder(keys, copied.Keys)
      && head == copied[EXPOSE_HEADERS := [Join(keys + ["grpc-status", "grpc-message"], ", ")]];
    CopiedKeys(copied, before, headers, contentType, name);
    assert name in LowerKeys(head) <==> name in LowerKeys(copied) || name == ToLower(EXPOSE_HEADERS) by {
      assert head.Keys == copied.Keys + {EXPOSE_HEADERS};
      if name in LowerKeys(copied) {
        var k :| k in copied && ToLower(k) == name;
        assert k in head;
      }
    }
  }

  // The lower-case image of a copied key.
  lemma PreparedName(headers: Header, contentType: string, k: string)
    requires k in headers
    ensures ToLower(ImageOf(headers, PrepareOptions(contentType), k).0) == ToLower(Strip(k))
    ensures Copied(headers, PrepareOptions(contentType), k) <==> ToLower(k) != "trailer"
  {
    hide ImageOf, CanonicalHeaderKey, ToLower, Strip;
    PrepareImage(contentType, headers, k);
    CanonicalKeepsLower(Strip(k));
  }

  lemma CopiedKeys(copied: Header, before: Header, headers: Header, contentType: string, name: string)
    requires Overwritten(copied, before, headers, PrepareOptions(contentType))
    ensures name in LowerKeys(copied) <==>
            || name in LowerKeys(before)
            || exists k :: k in headers && ToLower(k) != "trailer" && ToLower(Strip(k)) == name
  {
    hide ImageOf, CanonicalHeaderKey, ToLower, Strip, PrepareOptions, Copied;
    var opts := PrepareOptions(contentType);
    if name in LowerKeys(copied) {
      var x :| x in copied && ToLower(x) == name;
      if x !in before {
        assert x in ImageKeys(headers, opts);
        var k :| k in headers && Copied(headers, opts, k) && ImageOf(headers, opts, k).0 == x;
        PreparedName(headers, contentType, k);
      }
    }
    if k :| k in headers && ToLower(k) != "trailer" && ToLower(Strip(k)) == name {
      PreparedName(headers, contentType, k);
      assert ImageOf(headers, opts, k).0 in ImageKeys(headers, opts);
    }
  }

  /** What stands under a name of the response's headers, in the same terms: the converted values of a header that
      the handler had set, or else what was there before. */
  ghost predicate HeadHolds(x: string, values: seq<string>, before: Header, headers: Header, contentType: string) {
    var opts := PrepareOptions(contentType);
    if x in ImageKeys(headers, opts) then
      exists k :: Copied(headers, opts, k) && ImageOf(headers, opts, k) == (x, values)
    else x in before && before[x] == values
  }

  lemma HeadValue(head: Header, before: Header, headers: Header, contentType: string, x: string, values: seq<string>)
    requires Prepared(head, before, headers, contentType) && NoClash(headers, PrepareOptions(contentType))
    requires x != EXPOSE_HEADERS
    ensures x in head && head[x] == values <==> HeadHolds(x, values, before, headers, contentType)
  {
    hide IsOrder, Join, CanonicalHeaderKey, ImageOf, PrepareOptions;
    var opts := PrepareOptions(contentType);
    var copied: Header, keys: seq<string> :|
      && Overwritten(copied, before, headers, opts)
      && IsOrder(keys, copied.Keys)
      && head == copied[EXPOSE_HEADERS := [Join(keys + ["grpc-status", "grpc-message"], ", ")]];
    if x in ImageKeys(headers, opts) {
      var a :| Copied(headers, opts, a) && ImageOf(headers, opts, a) == (x, copied[x]);
    }
  }

  /** No name is lost between headers and trailers: every key that the handler has set at the end, other than
      "Trailer", is among the headers sent, without regard to case, or in the trailer block under its stripped
      lower-case name. */
  lemma EveryHeaderArrives(ops: seq<HandlerOp>, before: Header, isTextFormat: bool, render: Header -> seq<byte>,
                           status: Option<nat>, head: Header, body: seq<byte>, th: Header, key: string)
    requires FullResponse(ops, before, isTextFormat, render, status, head, body, th)
    requires key in HeadersAfter(ops) && ToLower(key) != "trailer"
    ensures || ToLower(key) in LowerKeys(head)
            || (ToLower(Strip(key)) in th
                && (DistinctTrailers(HeadersAfter(ops), LowerKeys(head)) ==>
                      th[ToLower(Strip(key))] == HeadersAfter(ops)[key]))
  {
    TrailerPartition(th, HeadersAfter(ops), LowerKeys(head));
  }

  /** A list of the names sent, in some order, and of grpc-status and grpc-message behind them. */
  ghost predicate IsExposedList(values: seq<string>, before: Header, headers: Header, contentType: string) {
    exists keys: seq<string> ::
      && IsOrder(keys, before.Keys + ImageKeys(headers, PrepareOptions(contentType)))
      && values == [Join(keys + ["grpc-status", "grpc-message"], ", ")]
  }

  /** No header name has a comma. */
  ghost predicate NoCommas(names: set<string>) { forall n | n in names :: ',' !in n }

  /** Access-Control-Expose-Headers is always replaced, whatever the handler or anyone before it has set. Split at the
      commas it is the names of the headers sent, each once, and then grpc-status and grpc-message. */
  lemma ExposeHeadersReplaced(head: Header, before: Header, headers: Header, contentType: string)
    requires Prepared(head, before, headers, contentType)
    ensures EXPOSE_HEADERS in head && IsExposedList(head[EXPOSE_HEADERS], before, headers, contentType)
    ensures |head[EXPOSE_HEADERS]| == 1
    ensures var names := before.Keys + ImageKeys(headers, PrepareOptions(contentType));
            var listed := Split(head[EXPOSE_HEADERS][0]);
            NoCommas(names) ==>
              && |listed| >= 2 && IsOrder(listed[..|listed| - 2], names)
              && listed[|listed| - 2] == "grpc-status" && listed[|listed| - 1] == "grpc-message"
  {
    hide Split, IsOrder, Join, CanonicalHeaderKey, ImageOf, PrepareOptions;
    var opts := PrepareOptions(contentType);
    var copied: Header, keys: seq<string> :|
      && Overwritten(copied, before, headers, opts)
      && IsOrder(keys, copied.Keys)
      && head == copied[EXPOSE_HEADERS := [Join(keys + ["grpc-status", "grpc-message"], ", ")]];
    assert copied.Keys == before.Keys + ImageKeys(headers, opts);
    if NoCommas(copied.Keys) {
      SplitList(keys, copied.Keys);
    }
  }

  lemma SplitList(keys: seq<string>, names: set<string>)
    requires IsOrder(keys, names) && NoCommas(names)
    ensures Split(Join(keys + ["grpc-status", "grpc-message"], ", ")) == keys + ["grpc-status", "grpc-message"]
    ensures (keys + ["grpc-status", "grpc-message"])[..|keys|] == keys
  {
    hide Split, Join;
    assert ',' !in "grpc-status" && ',' !in "grpc-message";
    SplitJoin(keys + ["grpc-status", "grpc-message"]);
  }

  predicate IsLetter(c: char) { 'A' <= c <= 'Z' || 'a' <= c <= 'z' }

  lemma NamesAreJoined(a: string, b: string)
    requires IsHeaderName(a) && IsHeaderName(b)
    ensures IsHeaderName(a + "-" + b)
  {
    assert IsTokenChar('-');
    hide IsTokenChar;
  }

  // The parts of a header name have their canonical forms by themselves.
  lemma CanonicalParts(a: string, b: string)
    requires IsHeaderName(a) && IsHeaderName(b)
    ensures IsHeaderName(a + "-" + b)
    ensures CanonicalHeaderKey(a + "-" + b) == CanonicalHeaderKey(a) + "-" + CanonicalHeaderKey(b)
  {
    hide IsHeaderName;
    NamesAreJoined(a, b);
  }

  // A word.
  lemma CanonicalWord(first: char, rest: string)
    requires IsLetter(first) && forall c | c in rest :: 'a' <= c <= 'z'
    ensures IsHeaderName([first] + rest) && CanonicalHeaderKey([first] + rest) == [UpperChar(first)] + rest
  {
    var s := [first] + rest;
    assert forall i | 0 < i < |s| :: s[i] == rest[i - 1] && s[i] in rest;
    LettersAreNames(s);
    hide IsHeaderName;
  }

  lemma LettersAreNames(s: string)
    requires forall i | 0 <= i < |s| :: IsLetter(s[i])
    ensures IsHeaderName(s)
  {
  }

  /** The list of exposed headers stands under the name that browsers look at. */
  lemma ExposeHeadersName()
    ensures EXPOSE_HEADERS == "Access-Control-Expose-Headers"
  {
    hide CanonicalHeaderKey, IsHeaderName;
    CanonicalWords();
    CanonicalFour("access", "control", "expose", "headers");
    assert "access" + "-" + ("control" + "-" + ("expose" + "-" + "headers")) == "access-control-expose-headers";
    assert "Access" + "-" + ("Control" + "-" + ("Expose" + "-" + "Headers")) == "Access-Control-Expose-Headers";
  }

  lemma CanonicalFour(a: string, b: string, c: string, d: string)
    requires IsHeaderName(a) && IsHeaderName(b) && IsHeaderName(c) && IsHeaderName(d)
    ensures CanonicalHeaderKey(a + "-" + (b + "-" + (c + "-" + d)))
         == CanonicalHeaderKey(a) + "-"
            + (CanonicalHeaderKey(b) + "-" + (CanonicalHeaderKey(c) + "-" + CanonicalHeaderKey(d)))
  {
    hide CanonicalHeaderKey, IsHeaderName;
    CanonicalParts(c, d);
    CanonicalParts(b, c + "-" + d);
    CanonicalParts(a, b + "-" + (c + "-" + d));
  }

  lemma CanonicalWords()
    ensures IsHeaderName("access") && CanonicalHeaderKey("access") == "Access"
    ensures IsHeaderName("control") && CanonicalHeaderKey("control") == "Control"
    ensures IsHeaderName("expose") && CanonicalHeaderKey("expose") == "Expose"
    ensures IsHeaderName("headers") && CanonicalHeaderKey("headers") == "Headers"
    ensures IsHeaderName("Content") && CanonicalHeaderKey("Content") == "Content"
    ensures IsHeaderName("Type") && CanonicalHeaderKey("Type") == "Type"
  {
    hide CanonicalHeaderKey, IsHeaderName;
    CanonicalWord('a', "ccess");
    CanonicalWord('c', "ontrol");
    CanonicalWord('e', "xpose");
    CanonicalWord('h', "eaders");
    CanonicalWord('C', "ontent");
    CanonicalWord('T', "ype");
    assert ['a'] + "ccess" == "access" && ['A'] + "ccess" == "Access";
    assert ['c'] + "ontrol" == "control" && ['C'] + "ontrol" == "Control";
    assert ['e'] + "xpose" == "expose" && ['E'] + "xpose" == "Expose";
    assert ['h'] + "eaders" == "headers" && ['H'] + "eaders" == "Headers";
    assert ['C'] + "ontent" == "Content" && ['T'] + "ype" == "Type";
  }

  lemma ContentTypeName()
    ensures CanonicalHeaderKey("Content-Type") == "Content-Type" && Strip("Content-Type") == "Content-Type"
    ensures ToLower("Content-Type") == "content-type"
  {
    hide CanonicalHeaderKey, Strip, IsHeaderName;
    CanonicalWords();
    CanonicalParts("Content", "Type");
    assert "Content" + "-" + "Type" == "Content-Type";
    NoRoomForMark("Content-Type");
    ToLowerConcat("Content-", "Type");
    assert "Content-" + "Type" == "Content-Type" && "content-" + "type" == "content-type";
  }

  /** A gRPC content type goes out as that of gRPC-Web, or of gRPC-Web text in text mode, with the same suffix. */
  lemma ContentTypeArrives(head: Header, before: Header, headers: Header, isTextFormat: bool, suffix: string)
    requires Prepared(head, before, headers, ContentType(isTextFormat))
    requires NoClash(headers, PrepareOptions(ContentType(isTextFormat)))
    requires "Content-Type" in headers && headers["Content-Type"] == ["application/grpc" + suffix]
    ensures "Content-Type" in head
    ensures head["Content-Type"]
         == [(if isTextFormat then "application/grpc-web-text" else "application/grpc-web") + suffix]
  {
    hide Overwritten, IsOrder, Join, CanonicalHeaderKey, ImageOf, NoClash, Strip, ToLower, PrepareOptions;
    ContentTypeName();
    var contentType := ContentType(isTextFormat);
    var opts := PrepareOptions(contentType);
    var copied: Header, keys: seq<string> :|
      && Overwritten(copied, before, headers, opts)
      && IsOrder(keys, copied.Keys)
      && head == copied[EXPOSE_HEADERS := [Join(keys + ["grpc-status", "grpc-message"], ", ")]];
    ContentTypeIsCopied(headers, contentType);
    CopiedKeyIsFound(copied, before, headers, opts, "Content-Type");
    PrepareImage(contentType, headers, "Content-Type");
    ReplacedPrefix("application/grpc" + suffix, GRPC_CONTENT_TYPE, contentType);
    assert ("application/grpc" + suffix)[|GRPC_CONTENT_TYPE|..] == suffix;
    ExposeHeadersName();
    assert "Access-Control-Expose-Headers"[0] != "Content-Type"[0];
  }

  lemma ContentTypeIsCopied(headers: Header, contentType: string)
    requires "Content-Type" in headers
    ensures Copied(headers, PrepareOptions(contentType), "Content-Type")
  {
    hide ToLower;
    ContentTypeName();
    assert "content-type"[0] != "trailer"[0];
  }

  /** When its final values arrive, which is not always: exactly if its name was not among the headers sent, so that
      they go into the trailer block, or the headers sent already had them. Those of Access-Control-Expose-Headers are
      replaced by the list of names sent. */
  lemma FinalValueArrives(ops: seq<HandlerOp>, before: Header, isTextFormat: bool, render: Header -> seq<byte>,
                          status: Option<nat>, head: Header, body: seq<byte>, th: Header, key: string)
    requires FullResponse(ops, before, isTextFormat, render, status, head, body, th)
    requires key in HeadersAfter(ops) && ToLower(key) != "trailer"
    requires DistinctTrailers(HeadersAfter(ops), {})
    requires NoClash(HeadersAfter(ops[..FirstSend(ops)]), PrepareOptions(ContentType(isTextFormat)))
    ensures var src, values := HeadersAfter(ops[..FirstSend(ops)]), HeadersAfter(ops)[key];
            var sent, trailed := CanonicalHeaderKey(Strip(key)), ToLower(Strip(key));
            var arrives := (sent in head && head[sent] == values) || (trailed in th && th[trailed] == values);
            if sent == EXPOSE_HEADERS then
              && sent in head && IsExposedList(head[sent], before, src, ContentType(isTextFormat))
              && (arrives <==> !SentKey(ToLower(key), before, src) || values == head[sent])
            else
              arrives <==>
              !SentKey(ToLower(key), before, src) || HeadHolds(sent, values, before, src, ContentType(isTextFormat))
  {
    hide HeadersAfter, Prepared, Overwritten, NoClash, CanonicalHeaderKey, ToLower, Strip, LowerKeys, DistinctTrailers,
         HeadHolds, SentKey, BodyBytes, IsExposedList;
    var src, values := HeadersAfter(ops[..FirstSend(ops)]), HeadersAfter(ops)[key];
    SentKeys(head, before, src, ContentType(isTextFormat), ToLower(key));
    if CanonicalHeaderKey(Strip(key)) == EXPOSE_HEADERS {
      ExposeHeadersReplaced(head, before, src, ContentType(isTextFormat));
    } else {
      HeadValue(head, before, src, ContentType(isTextFormat), CanonicalHeaderKey(Strip(key)), values);
    }
    TrailerOrFlushed(th, HeadersAfter(ops), LowerKeys(head), key);
  }

  /** A change that comes too late: a header that is set before the first write and changed after it reaches the client
      neither as a header nor as a trailer with its final values. */
  lemma LateChangeIsLost(name: string, v: seq<string>, w: seq<string>, bytes: seq<byte>, isTextFormat: bool,
                         render: Header -> seq<byte>, status: Option<nat>, head: Header, body: seq<byte>, th: Header)
    requires 'T' !in name && ToLower(name) != "trailer" && ToLower(name) != "content-type"
    requires CanonicalHeaderKey(name) != EXPOSE_HEADERS && v != w
    requires FullResponse([SetHeader(name, v), Write(bytes), SetHeader(name, w)], map[], isTextFormat, render, status,
                          head, body, th)
    ensures !(CanonicalHeaderKey(name) in head && head[CanonicalHeaderKey(name)] == w)
    ensures ToLower(name) !in th
  {
    hide FullResponse, CanonicalHeaderKey, ToLower, Strip, HeadersAfter, SentKey, HeadHolds,
         NoClash, FirstSend, ContentType;
    var ops := [SetHeader(name, v), Write(bytes), SetHeader(name, w)];
    SetWriteSet(name, v, bytes, w);
    NotMarked(name);
    SingleHeader(name, v, ContentType(isTextFormat));
    NotHeld(name, v, w, ContentType(isTextFormat));
    FinalValueArrives(ops, map[], isTextFormat, render, status, head, body, th, name);
    HeaderSentTwice(ops, map[], isTextFormat, render, status, head, body, th, name);
  }

  // One plain header: it is sent, and clashes with nothing.
  lemma SingleHeader(name: string, v: seq<string>, contentType: string)
    requires 'T' !in name && ToLower(name) != "trailer"
    ensures SentKey(ToLower(name), map[], map[name := v]) && NoClash(map[name := v], PrepareOptions(contentType))
  {
    hide ToLower, Strip, ImageOf;
    NotMarked(name);
  }

  lemma NotHeld(name: string, v: seq<string>, w: seq<string>, contentType: string)
    requires 'T' !in name && ToLower(name) != "trailer" && ToLower(name) != "content-type" && v != w
    ensures !HeadHolds(CanonicalHeaderKey(name), w, map[], map[name := v], contentType)
  {
    hide ToLower, Strip, ImageOf, CanonicalHeaderKey;
    var src: Header, opts := map[name := v], PrepareOptions(contentType);
    NotMarked(name);
    PrepareImage(contentType, src, name);
    assert Copied(src, opts, name);
    assert ImageOf(src, opts, name).0 in ImageKeys(src, opts);
  }

  lemma SetWriteSet(name: string, v: seq<string>, bytes: seq<byte>, w: seq<string>)
    ensures var ops := [SetHeader(name, v), Write(bytes), SetHeader(name, w)];
            && FirstSend(ops) == 1 && HeadersAfter(ops[..1]) == map[name := v] && HeadersAfter(ops) == map[name := w]
  {
    var ops := [SetHeader(name, v), Write(bytes), SetHeader(name, w)];
    assert !Sends(ops[0]) && Sends(ops[1]);
    assert ops[..0] == [] && ops[..3] == ops;
    StepAfter(ops, 0);
    StepAfter(ops, 1);
    StepAfter(ops, 2);
  }

  /** Of the handler's headers in the end, one goes into the trailer block under the given name: without the trailer
      prefix that is its name, and the name it has is not that of a header sent. */
  ghost predicate TrailedKey(name: string, before: Header, headers: Header, final: Header) {
    exists k :: k in final && ToLower(k) != "trailer" && !SentKey(ToLower(k), before, headers)
                && ToLower(Strip(k)) == name
  }

  lemma TrailedFrom(th: Header, final: Header, head: Header, before: Header, headers: Header, contentType: string,
                    name: string)
    requires IsTrailer(th, final, LowerKeys(head)) && Prepared(head, before, headers, contentType)
    ensures name in th <==> TrailedKey(name, before, headers, final)
  {
    hide Prepared, ToLower, Strip, LowerKeys, SentKey;
    TrailerPartition(th, final, LowerKeys(head));
    hide IsTrailer;
    if name in th {
      var k :| k in final && ToLower(k) != "trailer" && ToLower(k) !in LowerKeys(head) && ToLower(Strip(k)) == name;
      SentKeys(head, before, headers, contentType, ToLower(k));
    }
    if TrailedKey(name, before, headers, final) {
      var k :| k in final && ToLower(k) != "trailer" && !SentKey(ToLower(k), before, headers)
               && ToLower(Strip(k)) == name;
      SentKeys(head, before, headers, contentType, ToLower(k));
    }
  }

  /** Which names the trailer block has, for any headers at all. */
  lemma TrailedKeys(ops: seq<HandlerOp>, before: Header, isTextFormat: bool, render: Header -> seq<byte>,
                    status: Option<nat>, head: Header, body: seq<byte>, th: Header, name: string)
    requires FullResponse(ops, before, isTextFormat, render, status, head, body, th)
    ensures name in th <==> TrailedKey(name, before, HeadersAfter(ops[..FirstSend(ops)]), HeadersAfter(ops))
  {
    hide HeadersAfter, Prepared, IsTrailer, LowerKeys, TrailedKey, BodyBytes, FirstSend;
    TrailedFrom(th, HeadersAfter(ops), head, before, HeadersAfter(ops[..FirstSend(ops)]), ContentType(isTextFormat),
                name);
  }

  /** A header that is set when the response starts is sent as a header; and its name goes out once more, as that of a
      trailer, exactly if in the end there is a header of that name, with the trailer prefix or without, whose own
      lower-case name is not that of a header sent. When the keys stay apart, only the header itself can be that. */
  lemma HeaderSentTwice(ops: seq<HandlerOp>, before: Header, isTextFormat: bool, render: Header -> seq<byte>,
                        status: Option<nat>, head: Header, body: seq<byte>, th: Header, key: string)
    requires FullResponse(ops, before, isTextFormat, render, status, head, body, th)
    requires key in HeadersAfter(ops[..FirstSend(ops)]) && ToLower(key) != "trailer"
    ensures CanonicalHeaderKey(Strip(key)) in head
    ensures ToLower(Strip(key)) in th <==>
            TrailedKey(ToLower(Strip(key)), before, HeadersAfter(ops[..FirstSend(ops)]), HeadersAfter(ops))
    ensures key in HeadersAfter(ops) && DistinctTrailers(HeadersAfter(ops), {}) ==>
              (ToLower(Strip(key)) in th <==> !SentKey(ToLower(key), before, HeadersAfter(ops[..FirstSend(ops)])))
  {
    hide HeadersAfter, Overwritten, CanonicalHeaderKey, Strip, NoClash, IsOrder, Join, BodyBytes, LowerKeys, SentKey,
         DistinctTrailers, TrailedKey;
    var src := HeadersAfter(ops[..FirstSend(ops)]);
    var contentType := ContentType(isTextFormat);
    TrailedKeys(ops, before, isTextFormat, render, status, head, body, th, ToLower(Strip(key)));
    SentKeys(head, before, src, contentType, ToLower(key));
    if key in HeadersAfter(ops) && DistinctTrailers(HeadersAfter(ops), {}) {
      TrailerOrFlushed(th, HeadersAfter(ops), LowerKeys(head), key);
    }
    var copied: Header, keys: seq<string> :|
      && Overwritten(copied, before, src, PrepareOptions(contentType))
      && IsOrder(keys, copied.Keys)
      && head == copied[EXPOSE_HEADERS := [Join(keys + ["grpc-status", "grpc-message"], ", ")]];
    PreparedKey(copied, before, src, contentType, key);
  }

  /** It does happen: the header "Trailer:Foo", or any other name with the prefix, set alone before the first write. */
  lemma PrefixedHeaderGoesTwice(name: string, v: seq<string>, bytes: seq<byte>, isTextFormat: bool,
                                render: Header -> seq<byte>, status: Option<nat>, head: Header, body: seq<byte>,
                                th: Header)
    requires FullResponse([SetHeader("Trailer:" + name, v), Write(bytes)], map[], isTextFormat, render, status,
                          head, body, th)
    ensures CanonicalHeaderKey(name) in head && ToLower(name) in th
  {
    hide FullResponse, CanonicalHeaderKey, ToLower, Strip;
    var key := TRAILER_PREFIX + name;
    var ops := [SetHeader(key, v), Write(bytes)];
    var src: Header := map[key := v];
    assert !Sends(ops[0]) && Sends(ops[1]) && FirstSend(ops) == 1;
    assert ops[..0] == [] && ops[..2] == ops;
    StepAfter(ops, 0);
    StepAfter(ops, 1);
    Marked(name);
    MarkedIsNotTrailer(name);
    MarkedIsNotExposed(name);
    HeaderSentTwice(ops, map[], isTextFormat, render, status, head, body, th, key);
  }

  lemma MarkedIsNotExposed(name: string)
    ensures ToLower(TRAILER_PREFIX + name) != ToLower(EXPOSE_HEADERS)
  {
    hide CanonicalHeaderKey;
    CanonicalKeepsLower("access-control-expose-headers");
    assert ToLower(TRAILER_PREFIX + name)[0] == 't' && ToLower("access-control-expose-headers")[0] == 'a';
  }

  /** When the handler wrote nothing, every such key is among the headers sent, in canonical form, with its
      values if it is not the content type and nothing else has that form. */
  lemma EveryHeaderIsSent(ops: seq<HandlerOp>, before: Header, isTextFormat: bool, status: Option<nat>, head: Header,
                          body: seq<byte>, key: string)
    requires HeadersOnlyResponse(ops, before, isTextFormat, status, head, body)
    requires key in HeadersAfter(ops) && ToLower(key) != "trailer"
    ensures CanonicalHeaderKey(Strip(key)) in head
    ensures NoClash(HeadersAfter(ops), PrepareOptions(ContentType(isTextFormat)))
            && ToLower(Strip(key)) != "content-type" && CanonicalHeaderKey(Strip(key)) != EXPOSE_HEADERS ==>
              head[CanonicalHeaderKey(Strip(key))] == HeadersAfter(ops)[key]
  {
    hide HeadersAfter, Overwritten, CanonicalHeaderKey, Strip, NoClash, IsOrder, Join;
    var src := HeadersAfter(ops);
    var contentType := ContentType(isTextFormat);
    var copied: Header, keys: seq<string> :|
      && Overwritten(copied, before, src, PrepareOptions(contentType))
      && IsOrder(keys, copied.Keys)
      && head == copied[EXPOSE_HEADERS := [Join(keys + ["grpc-status", "grpc-message"], ", ")]];
    PreparedKey(copied, before, src, contentType, key);
  }

  lemma PreparedKey(copied: Header, before: Header, src: Header, contentType: string, key: string)
    requires Overwritten(copied, before, src, PrepareOptions(contentType))
    requires key in src && ToLower(key) != "trailer"
    ensures CanonicalHeaderKey(Strip(key)) in copied
    ensures NoClash(src, PrepareOptions(contentType)) && ToLower(Strip(key)) != "content-type" ==>
              copied[CanonicalHeaderKey(Strip(key))] == src[key]
  {
    hide ImageOf, CanonicalHeaderKey, Strip;
    var opts := PrepareOptions(contentType);
    PrepareImage(contentType, src, key);
    assert Copied(src, opts, key);
    assert ImageOf(src, opts, key).0 in ImageKeys(src, opts);
    if NoClash(src, opts) {
      CopiedKeyIsFound(copied, before, src, opts, key);
    }
  }
}
