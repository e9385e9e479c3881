/** Whole runs of the frame parser: any cutting of a byte stream against the whole-stream decoder. */
module ParserRuns {
  import opened Bytes
  import opened Framing
  import opened ChunkParsing

  /** A sequence of `parse` calls, ended early by one that throws. */
  function ParseRun(pending: seq<byte>, cuts: seq<seq<byte>>): Scan
    decreases cuts
  {
    if cuts == [] then Scan([], pending, false)
    else
      var s := ScanFrames(pending + cuts[0]);
      if s.threw then s
      else
        var r := ParseRun(s.rest, cuts[1..]);
        Scan(s.frames + r.frames, r.rest, r.threw)
  }

  ghost predicate OnlyLastIsTrailer(fs: seq<Frame>) {
    forall i | 0 <= i < |fs| - 1 :: !fs[i].IsTrailer()
  }

  ghost predicate AsciiTrailers(fs: seq<Frame>) {
    forall f | f in fs && f.IsTrailer() :: ValidAscii(f.payload)
  }

  predicate EndsWithTrailer(fs: seq<Frame>) {
    fs != [] && fs[|fs| - 1].IsTrailer()
  }

  lemma {:induction false} ScanSpells(s: seq<byte>)
    ensures AllFit(ScanFrames(s).frames)
    ensures EncodeAll(ScanFrames(s).frames) + ScanFrames(s).rest == s
    decreases |s|
  {
    hide EncodeFrame, FirstFrame;
    if HasFrame(s) {
      var f, tail := FirstFrame(s), s[FrameSize(s)..];
      EncodingOfFirstFrame(s);
      if f.IsTrailer() {
        EncodeOne(f);
      } else {
        ScanSpells(tail);
        var t := ScanFrames(tail);
        EncodeOneMore(f, t.frames);
        Associate(EncodeFrame(f), EncodeAll(t.frames), t.rest);
      }
    }
  }

  lemma EncodeOne(f: Frame)
    requires f.Fits()
    ensures AllFit([f]) && EncodeAll([f]) == EncodeFrame(f)
  {
    hide EncodeFrame;
    assert [f][1..] == [] && EncodeFrame(f) + [] == EncodeFrame(f);
  }

  lemma {:induction false} ScanShape(s: seq<byte>)
    ensures var r := ScanFrames(s);
            && OnlyLastIsTrailer(r.frames)
            && (HasFrame(r.rest) ==> EndsWithTrailer(r.frames))
            && (r.threw <==> !AsciiTrailers(r.frames))
    decreases |s|
  {
    if HasFrame(s) && !FirstFrame(s).IsTrailer() {
      var tail := s[FrameSize(s)..];
      ScanShape(tail);
      var f, t := FirstFrame(s), ScanFrames(tail);
      assert forall g :: g in [f] + t.frames <==> g == f || g in t.frames;
    }
  }

  /** One call conserves the stream: the frames it used up and those still to be decoded
      from the pending bytes are all frames of the stream, in order. */
  lemma ScanConserves(s: seq<byte>)
    ensures DecodeAll(s).frames == ScanFrames(s).frames + DecodeAll(ScanFrames(s).rest).frames
    ensures DecodeAll(s).rest == DecodeAll(ScanFrames(s).rest).rest
  {
    hide DecodeAll, ScanFrames;
    ScanSpells(s);
    DecodeEncode(ScanFrames(s).frames, ScanFrames(s).rest);
  }

  lemma EncodingStartsWithFrame(fs: seq<Frame>, rest: seq<byte>)
    requires AllFit(fs) && fs != []
    ensures var s := EncodeAll(fs) + rest;
            HasFrame(s) && FirstFrame(s) == fs[0] && s[FrameSize(s)..] == EncodeAll(fs[1..]) + rest
  {
    hide EncodeFrame, FirstFrame, FrameSize, HasFrame;
    Associate(EncodeFrame(fs[0]), EncodeAll(fs[1..]), rest);
    FirstFrameOfEncoding(fs[0], EncodeAll(fs[1..]) + rest);
  }

  lemma {:induction false} OnlyOneScan(s: seq<byte>, frames: seq<Frame>, rest: seq<byte>)
    requires AllFit(frames) && EncodeAll(frames) + rest == s
    requires OnlyLastIsTrailer(frames) && (HasFrame(rest) ==> EndsWithTrailer(frames))
    ensures ScanFrames(s).frames == frames && ScanFrames(s).rest == rest
    decreases |frames|
  {
    if frames == [] {
      assert EncodeAll(frames) + rest == rest;
    } else {
      hide FirstFrame, FrameSize, HasFrame, EncodeFrame, EncodeAll;
      EncodingStartsWithFrame(frames, rest);
      if frames[0].IsTrailer() {
        assert frames == [frames[0]] && frames[1..] == [];
        assert EncodeAll([]) + rest == rest by { NoBytesNoFrames(); }
      } else {
        if |frames| == 1 {
          assert !EndsWithTrailer(frames);
        }
        OnlyOneScan(EncodeAll(frames[1..]) + rest, frames[1..], rest);
      }
    }
  }

  /** Exactly what a call takes: the one way to split the pending bytes into frames and a rest
      such that at most the last frame is a trailer block, and the rest holds no complete frame
      unless the call stopped at that block. */
  lemma ScanCharacterised(s: seq<byte>, frames: seq<Frame>, rest: seq<byte>)
    requires AllFit(frames)
    ensures ScanFrames(s).frames == frames && ScanFrames(s).rest == rest <==>
            && EncodeAll(frames) + rest == s
            && OnlyLastIsTrailer(frames)
            && (HasFrame(rest) ==> EndsWithTrailer(frames))
  {
    hide ScanFrames, DecodeAll, EncodeAll, HasFrame;
    ScanSpells(s);
    ScanShape(s);
    if EncodeAll(frames) + rest == s && OnlyLastIsTrailer(frames) && (HasFrame(rest) ==> EndsWithTrailer(frames)) {
      OnlyOneScan(s, frames, rest);
    }
  }

  /** Parser refinement: whatever the cutting, the frames of the calls so far followed by the
      frames decodable from the pending bytes are the frames of the whole stream. When the last
      call threw, this counts the frames that call used up and did not return. */
  lemma {:induction false} ParseRunRefinesDecoder(pending: seq<byte>, cuts: seq<seq<byte>>)
    ensures var r := ParseRun(pending, cuts);
            && r.frames <= DecodeAll(pending + Flatten(cuts)).frames
            && (!r.threw ==>
                 && DecodeAll(pending + Flatten(cuts)).frames == r.frames + DecodeAll(r.rest).frames
                 && DecodeAll(pending + Flatten(cuts)).rest == DecodeAll(r.rest).rest)
    decreases cuts
  {
    hide DecodeAll, ScanFrames;
    if cuts == [] {
      assert pending + Flatten(cuts) == pending;
      assert [] + DecodeAll(pending).frames == DecodeAll(pending).frames;
    } else {
      var head, tail := pending + cuts[0], Flatten(cuts[1..]);
      var s := ScanFrames(head);
      assert pending + Flatten(cuts) == head + tail;
      ScanConserves(head);
      DecodeAppend(head, tail);
      DecodeAppend(s.rest, tail);
      assert s.frames + DecodeAll(s.rest).frames + DecodeAll(DecodeAll(s.rest).rest + tail).frames
          == s.frames + (DecodeAll(s.rest).frames + DecodeAll(DecodeAll(s.rest).rest + tail).frames);
      if !s.threw {
        ParseRunRefinesDecoder(s.rest, cuts[1..]);
        var r := ParseRun(s.rest, cuts[1..]);
        assert s.frames + (r.frames + DecodeAll(r.rest).frames) == s.frames + r.frames + DecodeAll(r.rest).frames;
      }
    }
  }

  /** Two cuttings of one stream can only differ in how far they got. */
  lemma CuttingsAreComparable(a: seq<seq<byte>>, b: seq<seq<byte>>)
    requires Flatten(a) == Flatten(b)
    ensures ParseRun([], a).frames <= ParseRun([], b).frames || ParseRun([], b).frames <= ParseRun([], a).frames
  {
    hide DecodeAll, ParseRun;
    ParseRunRefinesDecoder([], a);
    ParseRunRefinesDecoder([], b);
    var all := DecodeAll([] + Flatten(a)).frames;
    var fa, fb := ParseRun([], a).frames, ParseRun([], b).frames;
    assert all[..|fa|] == fa && all[..|fb|] == fb;
    if |fa| <= |fb| { assert fa == fb[..|fa|]; } else { assert fb == fa[..|fb|]; }
  }

  lemma {:induction false} ParseRunConcat(pending: seq<byte>, a: seq<seq<byte>>, b: seq<seq<byte>>)
    requires !ParseRun(pending, a).threw
    ensures var r, t := ParseRun(pending, a), ParseRun(ParseRun(pending, a).rest, b);
            ParseRun(pending, a + b) == Scan(r.frames + t.frames, t.rest, t.threw)
    decreases a
  {
    hide ScanFrames;
    var t := ParseRun(ParseRun(pending, a).rest, b);
    if a == [] {
      assert a + b == b && [] + t.frames == t.frames;
    } else {
      var s := ScanFrames(pending + a[0]);
      assert (a + b)[1..] == a[1..] + b;
      ParseRunConcat(s.rest, a[1..], b);
      var r := ParseRun(s.rest, a[1..]);
      assert s.frames + (r.frames + t.frames) == s.frames + r.frames + t.frames;
    }
  }

  /** Nothing is held back: after every call, the bytes left pending hold no complete frame. */
  predicate NeverHolds(pending: seq<byte>, cuts: seq<seq<byte>>)
    decreases cuts
  {
    cuts == [] ||
    (var s := ScanFrames(pending + cuts[0]); !HasFrame(s.rest) && NeverHolds(s.rest, cuts[1..]))
  }

  /** Every trailer block ends where a chunk ends, in terms of the bytes alone: of the frames that a
      chunk completes, only the last may be one. */
  ghost predicate Aligned(pending: seq<byte>, cuts: seq<seq<byte>>)
    decreases cuts
  {
    cuts == [] ||
    (var d := DecodeAll(pending + cuts[0]); OnlyLastIsTrailer(d.frames) && Aligned(d.rest, cuts[1..]))
  }

  // One call takes all that can be decoded exactly if no trailer block stands in the way.
  lemma ScanTakesAll(s: seq<byte>)
    ensures !HasFrame(ScanFrames(s).rest) <==> OnlyLastIsTrailer(DecodeAll(s).frames)
    ensures !HasFrame(ScanFrames(s).rest) ==>
              ScanFrames(s).frames == DecodeAll(s).frames && ScanFrames(s).rest == DecodeAll(s).rest
  {
    hide DecodeAll, ScanFrames, HasFrame, EncodeAll;
    var r, d := ScanFrames(s), DecodeAll(s);
    ScanConserves(s);
    ScanShape(s);
    if !HasFrame(r.rest) {
      NothingDecodable(r.rest);
      assert r.frames + [] == r.frames;
    }
    if OnlyLastIsTrailer(d.frames) {
      EncodeDecode(s);
      OnlyOneScan(s, d.frames, d.rest);
    }
  }

  /** The parser never holds a complete frame back exactly if the stream is cut so that every trailer block
      ends a chunk, for any bytes at all. */
  lemma {:induction false} HoldsBackUnlessAligned(pending: seq<byte>, cuts: seq<seq<byte>>)
    ensures NeverHolds(pending, cuts) <==> Aligned(pending, cuts)
    decreases cuts
  {
    hide DecodeAll, ScanFrames, HasFrame, OnlyLastIsTrailer;
    if cuts != [] {
      ScanTakesAll(pending + cuts[0]);
      HoldsBackUnlessAligned(ScanFrames(pending + cuts[0]).rest, cuts[1..]);
    }
  }

  /** And then the run emits everything that can be decoded, if the trailer blocks are ASCII. */
  lemma {:induction false} AlignedEmitsAll(pending: seq<byte>, cuts: seq<seq<byte>>)
    requires !HasFrame(pending) && Aligned(pending, cuts)
    requires AsciiTrailers(DecodeAll(pending + Flatten(cuts)).frames)
    ensures var d := DecodeAll(pending + Flatten(cuts)); ParseRun(pending, cuts) == Scan(d.frames, d.rest, false)
    decreases cuts
  {
    hide DecodeAll, ScanFrames, HasFrame, OnlyLastIsTrailer;
    if cuts == [] {
      assert pending + Flatten(cuts) == pending;
      NothingDecodable(pending);
    } else {
      var head, tail := pending + cuts[0], Flatten(cuts[1..]);
      var d := DecodeAll(head);
      assert pending + Flatten(cuts) == head + tail;
      DecodeAppend(head, tail);
      ScanTakesAll(head);
      ScanShape(head);
      var all, later := DecodeAll(head + tail).frames, DecodeAll(d.rest + tail).frames;
      assert forall f | f in d.frames :: f in all;
      assert forall f | f in later :: f in all;
      AlignedEmitsAll(d.rest, cuts[1..]);
    }
  }

  // A stream of whole frames is exactly its frames; only the empty list has no first frame.
  lemma EncodesAll(fs: seq<Frame>)
    requires AllFit(fs)
    ensures DecodeAll(EncodeAll(fs)) == Decoded(fs, [])
    ensures !HasFrame(EncodeAll(fs)) ==> fs == [] && EncodeAll(fs) == []
  {
    DecodeEncode(fs, []);
    assert EncodeAll(fs) + [] == EncodeAll(fs);
    assert fs + [] == fs;
  }

  lemma PrefixIsDecoded(head: seq<byte>, tail: seq<byte>, fs: seq<Frame>)
    requires AllFit(fs) && head + tail == EncodeAll(fs)
    ensures var d := DecodeAll(head); d.frames <= fs && d.rest + tail == EncodeAll(fs[|d.frames|..])
  {
    hide DecodeAll, EncodeAll;
    var d := DecodeAll(head);
    EncodesAll(fs);
    DecodeAppend(head, tail);
    EncodeDecode(head);
    assert d.frames <= fs;
    var left := fs[|d.frames|..];
    assert fs == d.frames + left;
    EncodeAllConcat(d.frames, left);
    assert EncodeAll(d.frames) + (d.rest + tail) == EncodeAll(d.frames) + EncodeAll(left);
    CancelPrefix(EncodeAll(d.frames), d.rest + tail, EncodeAll(left));
  }

  // Whole frames with a trailer block at most at the end are aligned however they are cut.
  lemma {:induction false} WholeFramesAligned(pending: seq<byte>, cuts: seq<seq<byte>>, fs: seq<Frame>)
    requires AllFit(fs) && OnlyLastIsTrailer(fs) && pending + Flatten(cuts) == EncodeAll(fs)
    ensures Aligned(pending, cuts)
    decreases cuts
  {
    hide DecodeAll, EncodeAll;
    if cuts != [] {
      var head, tail := pending + cuts[0], Flatten(cuts[1..]);
      assert head + tail == EncodeAll(fs);
      PrefixIsDecoded(head, tail, fs);
      var d := DecodeAll(head);
      assert fs == d.frames + fs[|d.frames|..];
      assert OnlyLastIsTrailer(d.frames);
      WholeFramesAligned(d.rest, cuts[1..], fs[|d.frames|..]);
    }
  }

  lemma NoBytesNoFrames()
    ensures EncodeAll([]) == [] && !HasFrame([])
  {
  }

  lemma CancelPrefix<T>(p: seq<T>, a: seq<T>, b: seq<T>)
    requires p + a == p + b
    ensures a == b
  {
    assert (p + a)[|p|..] == a && (p + b)[|p|..] == b;
  }

  /** Whole frames of which only the last may be a trailer block are all emitted, under any
      cutting, and nothing stays pending. */
  lemma AnyCuttingEmitsAll(cuts: seq<seq<byte>>, fs: seq<Frame>)
    requires AllFit(fs) && OnlyLastIsTrailer(fs) && AsciiTrailers(fs)
    requires Flatten(cuts) == EncodeAll(fs)
    ensures ParseRun([], cuts) == Scan(fs, [], false)
  {
    assert [] + Flatten(cuts) == Flatten(cuts);
    WholeFramesAligned([], cuts, fs);
    EncodesAll(fs);
    AlignedEmitsAll([], cuts);
  }

  /** The case that servers produce: when the chunks fall into segments of whole frames with at most one trailer
      block each, the last, nothing is ever held back. */
  lemma {:induction false} BoundariesAvoidHoldback(segments: seq<seq<seq<byte>>>, frames: seq<seq<Frame>>)
    requires |segments| == |frames|
    requires forall i | 0 <= i < |frames| ::
               AllFit(frames[i]) && OnlyLastIsTrailer(frames[i]) && AsciiTrailers(frames[i])
    requires forall i | 0 <= i < |frames| :: Flatten(segments[i]) == EncodeAll(frames[i])
    ensures ParseRun([], Flatten(segments)) == Scan(Flatten(frames), [], false)
  {
    hide OnlyLastIsTrailer, AsciiTrailers;
    if segments != [] {
      AnyCuttingEmitsAll(segments[0], frames[0]);
      BoundariesAvoidHoldback(segments[1..], frames[1..]);
      ParseRunConcat([], segments[0], Flatten(segments[1..]));
    }
  }

  /** Without such a boundary a complete message can stay pending: a trailer block and an empty
      message arriving together. */
  lemma HoldbackHappens()
    ensures var bytes := [0x80, 0, 0, 0, 0, 0, 0, 0, 0, 0];
            && DecodeAll(bytes) == Decoded([Frame(0x80, []), Frame(0, [])], [])
            && ParseRun([], [bytes]) == Scan([Frame(0x80, [])], [0, 0, 0, 0, 0], false)
            && !NeverHolds([], [bytes])
  {
    var trailer, message := Frame(0x80, []), Frame(0, []);
    var bytes := [0x80, 0, 0, 0, 0, 0, 0, 0, 0, 0];
    assert EncodeFrame(message) == [0, 0, 0, 0, 0];
    assert EncodeFrame(trailer) == [0x80, 0, 0, 0, 0];
    assert bytes == EncodeFrame(trailer) + (EncodeFrame(message) + []);
    FirstFrameOfEncoding(trailer, EncodeFrame(message) + []);
    FirstFrameOfEncoding(message, []);
    DecodeOneMore(trailer, EncodeFrame(message) + []);
    DecodeOneMore(message, []);
    assert [] + bytes == bytes;
    assert ScanFrames(bytes) == Scan([trailer], [0, 0, 0, 0, 0], false);
    assert ParseRun([0, 0, 0, 0, 0], []) == Scan([], [0, 0, 0, 0, 0], false);
    assert EncodeFrame(message) + [] == [0, 0, 0, 0, 0];
  }

  /** Framing round trip under any cutting: the messages that were framed for sending come out,
      in order, as the messages of the parser, with nothing pending. */
  lemma FramingRoundTrip(messages: seq<seq<byte>>, cuts: seq<seq<byte>>)
    requires forall m | m in messages :: |m| < UINT32_LIMIT
    requires Flatten(cuts) == EncodeAll(DataFrames(messages))
    ensures var r := ParseRun([], cuts);
            && !r.threw && r.rest == []
            && ChunksOf(r.frames) == seq(|messages|, i requires 0 <= i < |messages| => Message(messages[i]))
  {
    hide EncodeAll, ParseRun;
    var fs := DataFrames(messages);
    assert AllFit(fs) by {
      forall f | f in fs ensures f.Fits() {
        var i :| 0 <= i < |fs| && fs[i] == f;
        assert messages[i] in messages;
      }
    }
    AnyCuttingEmitsAll(cuts, fs);
  }
}
