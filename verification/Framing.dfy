/** The Length-Prefixed-Message framing that every byte path of gRPC-Web shares:
    a flag byte whose most significant bit marks a header or trailer block, a
    big-endian 32-bit length, and that many payload bytes. */
module Framing {
  import opened Bytes

  const HEADER_SIZE := 5

  function U32BE(n: nat): (s: seq<byte>)
    requires n < UINT32_LIMIT
    ensures |s| == 4
  {
    [n / 0x100_0000, n / 0x1_0000 % 0x100, n / 0x100 % 0x100, n % 0x100]
  }

  function ReadU32BE(s: seq<byte>): (n: nat)
    requires |s| == 4
    ensures n < UINT32_LIMIT
  {
    s[0] as int * 0x100_0000 + s[1] as int * 0x1_0000 + s[2] as int * 0x100 + s[3] as int
  }

  /** Writing and reading a length are inverse, both ways. */
  lemma ReadWrittenU32BE(n: nat)
    requires n < UINT32_LIMIT
    ensures ReadU32BE(U32BE(n)) == n
  {
    var high := n / 0x100;
    assert n / 0x1_0000 == high / 0x100 && n / 0x100_0000 == high / 0x100 / 0x100;
  }

  lemma WriteReadU32BE(s: seq<byte>)
    requires |s| == 4
    ensures U32BE(ReadU32BE(s)) == s
  {
    var top := s[0] as int * 0x100 + s[1] as int;
    var high := top * 0x100 + s[2] as int;
    var n := ReadU32BE(s);
    assert n == high * 0x100 + s[3] as int;
    assert n / 0x100 == high && n % 0x100 == s[3];
    assert n / 0x1_0000 == top && n / 0x100_0000 == s[0];
    assert U32BE(n)[0] == s[0] && U32BE(n)[1] == s[1] && U32BE(n)[2] == s[2] && U32BE(n)[3] == s[3];
  }

  /** Big-endian: the first byte is the most significant, so numbers compare as their bytes do from the left. */
  lemma MostSignificantFirst(m: nat, n: nat, k: nat)
    requires m < UINT32_LIMIT && n < UINT32_LIMIT && k < 4
    requires U32BE(m)[..k] == U32BE(n)[..k] && U32BE(m)[k] < U32BE(n)[k]
    ensures m < n
  {
    var a, b := U32BE(m), U32BE(n);
    ReadWrittenU32BE(m);
    ReadWrittenU32BE(n);
    assert forall i | 0 <= i < k :: a[i] == a[..k][i] && b[i] == b[..k][i];
  }

  datatype Frame = Frame(flag: byte, payload: seq<byte>) {
    // flag & 0x80
    predicate IsTrailer() { flag / 0x80 % 2 == 1 }

    predicate Fits() { |payload| < UINT32_LIMIT }
  }

  /** The most significant bit of the flag byte is what marks a block, whatever the other bits are. */
  lemma TrailerBit(f: Frame)
    ensures f.IsTrailer() <==> f.flag >= 0x80
  {
  }

  function EncodeFrame(f: Frame): (s: seq<byte>)
    requires f.Fits()
  {
    [f.flag] + U32BE(|f.payload|) + f.payload
  }

  ghost predicate AllFit(fs: seq<Frame>) { forall f | f in fs :: f.Fits() }

  function EncodeAll(fs: seq<Frame>): seq<byte>
    requires AllFit(fs)
  {
    if fs == [] then [] else EncodeFrame(fs[0]) + EncodeAll(fs[1..])
  }

  predicate HasFrame(s: seq<byte>) {
    |s| >= HEADER_SIZE && |s| >= FrameSize(s)
  }

  function FrameSize(s: seq<byte>): (size: nat)
    requires |s| >= HEADER_SIZE
    ensures size >= HEADER_SIZE
  {
    HEADER_SIZE + ReadU32BE(s[1..HEADER_SIZE])
  }

  function FirstFrame(s: seq<byte>): Frame
    requires HasFrame(s)
  {
    Frame(s[0], s[HEADER_SIZE..FrameSize(s)])
  }

  datatype Decoded = Decoded(frames: seq<Frame>, rest: seq<byte>)

  /** The whole-stream decoder: every complete frame, and what is left. */
  function DecodeAll(s: seq<byte>): Decoded
    decreases |s|
  {
    if HasFrame(s) then
      var d := DecodeAll(s[FrameSize(s)..]);
      Decoded([FirstFrame(s)] + d.frames, d.rest)
    else
      Decoded([], s)
  }

  lemma NothingDecodable(s: seq<byte>)
    requires !HasFrame(s)
    ensures DecodeAll(s) == Decoded([], s)
  {
  }

  // More bytes behind a complete frame do not change it.
  lemma FirstFrameStable(a: seq<byte>, b: seq<byte>)
    requires HasFrame(a)
    ensures HasFrame(a + b) && FirstFrame(a + b) == FirstFrame(a)
    ensures FrameSize(a + b) == FrameSize(a)
    ensures (a + b)[FrameSize(a)..] == a[FrameSize(a)..] + b
  {
    assert (a + b)[1..HEADER_SIZE] == a[1..HEADER_SIZE];
  }

  lemma FirstFrameOfEncoding(f: Frame, rest: seq<byte>)
    requires f.Fits()
    ensures var s := EncodeFrame(f) + rest;
            HasFrame(s) && FirstFrame(s) == f && FrameSize(s) == |EncodeFrame(f)| && s[FrameSize(s)..] == rest
  {
    var s := EncodeFrame(f) + rest;
    ReadWrittenU32BE(|f.payload|);
    assert s[1..HEADER_SIZE] == U32BE(|f.payload|);
    assert s[HEADER_SIZE..FrameSize(s)] == f.payload;
  }

  lemma EncodingOfFirstFrame(s: seq<byte>)
    requires HasFrame(s)
    ensures FirstFrame(s).Fits() && EncodeFrame(FirstFrame(s)) + s[FrameSize(s)..] == s
  {
    WriteReadU32BE(s[1..HEADER_SIZE]);
    assert s[..FrameSize(s)] == [s[0]] + s[1..HEADER_SIZE] + s[HEADER_SIZE..FrameSize(s)];
  }

  lemma DecodeOneMore(f: Frame, rest: seq<byte>)
    requires f.Fits()
    ensures DecodeAll(EncodeFrame(f) + rest) == Decoded([f] + DecodeAll(rest).frames, DecodeAll(rest).rest)
  {
    FirstFrameOfEncoding(f, rest);
  }

  lemma EncodeOneMore(f: Frame, fs: seq<Frame>)
    requires f.Fits() && AllFit(fs)
    ensures AllFit([f] + fs) && EncodeAll([f] + fs) == EncodeFrame(f) + EncodeAll(fs)
  {
    assert ([f] + fs)[1..] == fs;
  }

  lemma {:induction false} EncodeAllConcat(a: seq<Frame>, b: seq<Frame>)
    requires AllFit(a) && AllFit(b)
    ensures EncodeAll(a + b) == EncodeAll(a) + EncodeAll(b)
  {
    if a == [] {
      assert a + b == b;
    } else {
      assert (a + b)[1..] == a[1..] + b;
      EncodeAllConcat(a[1..], b);
    }
  }

  /** Framing round trip: the decoder recovers any list of frames, whatever follows them. */
  lemma {:induction false} DecodeEncode(fs: seq<Frame>, rest: seq<byte>)
    requires AllFit(fs)
    ensures DecodeAll(EncodeAll(fs) + rest) == Decoded(fs + DecodeAll(rest).frames, DecodeAll(rest).rest)
  {
    hide DecodeAll;
    var d := DecodeAll(rest);
    if fs == [] {
      assert EncodeAll(fs) + rest == rest && fs + d.frames == d.frames;
    } else {
      hide EncodeFrame;
      Associate(EncodeFrame(fs[0]), EncodeAll(fs[1..]), rest);
      DecodeOneMore(fs[0], EncodeAll(fs[1..]) + rest);
      DecodeEncode(fs[1..], rest);
      assert [fs[0]] + (fs[1..] + d.frames) == fs + d.frames;
    }
  }

  lemma {:induction false} DecodedFramesFit(s: seq<byte>)
    ensures AllFit(DecodeAll(s).frames) && !HasFrame(DecodeAll(s).rest)
    decreases |s|
  {
    if HasFrame(s) {
      DecodedFramesFit(s[FrameSize(s)..]);
      EncodingOfFirstFrame(s);
    }
  }

  /** The other way round: the decoder loses nothing, since its frames and its rest
      spell the stream again, and the rest holds no further frame. */
  lemma {:induction false} EncodeDecode(s: seq<byte>)
    ensures AllFit(DecodeAll(s).frames) && !HasFrame(DecodeAll(s).rest)
    ensures EncodeAll(DecodeAll(s).frames) + DecodeAll(s).rest == s
    decreases |s|
  {
    DecodedFramesFit(s);
    if HasFrame(s) {
      var tail, f := s[FrameSize(s)..], FirstFrame(s);
      var d := DecodeAll(tail);
      hide FirstFrame, FrameSize, HasFrame, EncodeFrame, EncodeAll;
      EncodingOfFirstFrame(s);
      EncodeDecode(tail);
      EncodeOneMore(f, d.frames);
      Associate(EncodeFrame(f), EncodeAll(d.frames), d.rest);
    }
  }

  /** Decoding is incremental: the rest of a prefix can be resumed with the bytes that follow. */
  lemma {:induction false} DecodeAppend(a: seq<byte>, b: seq<byte>)
    ensures DecodeAll(a + b).frames == DecodeAll(a).frames + DecodeAll(DecodeAll(a).rest + b).frames
    ensures DecodeAll(a + b).rest == DecodeAll(DecodeAll(a).rest + b).rest
    decreases |a|
  {
    if HasFrame(a) {
      FirstFrameStable(a, b);
      DecodeAppend(a[FrameSize(a)..], b);
    }
  }

  /** Only the payloads of the frames that are not header or trailer blocks. */
  function MessagesOf(fs: seq<Frame>): seq<seq<byte>> {
    if fs == [] then []
    else (if fs[0].IsTrailer() then [] else [fs[0].payload]) + MessagesOf(fs[1..])
  }

  lemma {:induction false} MessagesOfConcat(a: seq<Frame>, b: seq<Frame>)
    ensures MessagesOf(a + b) == MessagesOf(a) + MessagesOf(b)
  {
    if a == [] {
      assert a + b == b;
    } else {
      assert (a + b)[1..] == a[1..] + b;
      MessagesOfConcat(a[1..], b);
    }
  }

  /** The data frames that carry the given message payloads. */
  function DataFrames(messages: seq<seq<byte>>): (fs: seq<Frame>)
    ensures |fs| == |messages|
    ensures forall i | 0 <= i < |fs| :: fs[i] == Frame(0, messages[i])
  {
    seq(|messages|, i requires 0 <= i < |messages| => Frame(0, messages[i]))
  }

  lemma {:induction false} MessagesOfDataFrames(messages: seq<seq<byte>>)
    ensures MessagesOf(DataFrames(messages)) == messages
  {
    if messages != [] {
      assert DataFrames(messages)[1..] == DataFrames(messages[1..]);
      MessagesOfDataFrames(messages[1..]);
    }
  }

  /** The bytes `frameRequest` builds for a serialized message. DataView.setUint32 keeps the
      length modulo 2^32. */
  function RequestFrame(message: seq<byte>): seq<byte> {
    [0] + U32BE(|message| % UINT32_LIMIT) + message
  }

  /** The first bytes on the wire for messages of one, of 258 and of 66051 bytes. */
  lemma FrameBytes(m: seq<byte>)
    ensures |m| == 1 ==> RequestFrame(m) == [0, 0, 0, 0, 1] + m
    ensures |m| == 0x102 ==> RequestFrame(m) == [0, 0, 0, 1, 2] + m
    ensures |m| == 0x1_0203 ==> RequestFrame(m) == [0, 0, 1, 2, 3] + m
  {
  }

  method FrameRequest(bytes: array<byte>) returns (frame: array<byte>)
    ensures fresh(frame)
    ensures frame[..] == RequestFrame(bytes[..])
    ensures bytes.Length < UINT32_LIMIT ==> frame[..] == EncodeFrame(Frame(0, bytes[..]))
  {
    hide U32BE;
    frame := new byte[bytes.Length + 5](_ => 0);
    var length := U32BE(bytes.Length % UINT32_LIMIT);
    frame[1], frame[2], frame[3], frame[4] := length[0], length[1], length[2], length[3];
    forall i | 0 <= i < bytes.Length {
      frame[5 + i] := bytes[i];
    }
    assert frame[..5] == [0] + length;
    assert frame[5..] == bytes[..];
    assert frame[..] == frame[..5] + frame[5..];
  }
}
