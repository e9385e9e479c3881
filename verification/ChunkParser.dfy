/** The incremental frame parser of the client. Its buffer and cursor refine `ScanFrames`,
    which is what one call consumes of the pending bytes; runs of calls refine the
    whole-stream decoder. */
module ChunkParsing {
  import opened Bytes
  import opened Framing

  predicate IsAllowedControlChar(c: int) { c == 0x9 || c == 0xa || c == 0xd }

  predicate IsValidHeaderAscii(val: int) { IsAllowedControlChar(val) || 0x20 <= val <= 0x7e }

  predicate ValidAscii(input: seq<byte>) {
    forall i | 0 <= i < |input| :: IsValidHeaderAscii(input[i])
  }

  predicate EncodableAscii(input: string) {
    forall i | 0 <= i < |input| :: IsValidHeaderAscii(input[i] as int)
  }

  /** The characters with the given codes. */
  function AsciiText(input: seq<byte>): (text: string)
    ensures |text| == |input|
    ensures forall i | 0 <= i < |input| :: text[i] as int == input[i]
  {
    seq(|input|, i requires 0 <= i < |input| => input[i] as char)
  }

  /** A byte that is none of tab, line feed, carriage return and the printable characters makes a text invalid, and
      nothing else does. */
  lemma AsciiExactly(input: seq<byte>)
    ensures ValidAscii(input) <==>
            forall i | 0 <= i < |input| ::
              input[i] == 9 || input[i] == 10 || input[i] == 13 || ' ' as int <= input[i] <= '~' as int
  {
  }

  /** `None` stands for the error that decodeASCII throws. */
  method DecodeASCII(input: array<byte>) returns (text: Option<string>)
    ensures text == if ValidAscii(input[..]) then Some(AsciiText(input[..])) else None
  {
    for i := 0 to input.Length
      invariant ValidAscii(input[..i])
    {
      if !IsValidHeaderAscii(input[i]) {
        assert !IsValidHeaderAscii(input[..][i]);
        return None;
      }
    }
    assert input[..] == input[..input.Length];
    return Some(AsciiText(input[..]));
  }

  /** `None` stands for the error that encodeASCII throws. */
  method EncodeASCII(input: string) returns (encoded: Option<array<byte>>)
    ensures encoded.Some? <==> EncodableAscii(input)
    ensures encoded.Some? ==> fresh(encoded.value)
    ensures encoded.Some? ==> ValidAscii(encoded.value[..]) && AsciiText(encoded.value[..]) == input
  {
    var bytes := new byte[|input|](_ => 0);
    for i := 0 to |input|
      invariant forall k | 0 <= k < i :: IsValidHeaderAscii(input[k] as int) && bytes[k] == input[k] as int
    {
      var charCode := input[i] as int;
      if !IsValidHeaderAscii(charCode) {
        return None;
      }
      bytes[i] := charCode;
    }
    return Some(bytes);
  }

  /** Uint8Array.slice, for indices that are not negative: both are cut to the length. */
  function Sliced(bytes: seq<byte>, from: nat, to: nat): seq<byte> {
    var end := if to <= |bytes| then to else |bytes|;
    if from <= end then bytes[from..end] else []
  }

  // `hasSlice` says whether the platform has Uint8Array.slice. Where it has not, a start behind the end is refused with
  // a RangeError for the negative length, and what lies behind the buffer reads as zero.
  method SliceUint8Array(hasSlice: bool, buffer: array<byte>, from: nat, to: Option<nat> := None)
    returns (r: array<byte>)
    requires hasSlice || from <= (if to.Some? then to.value else buffer.Length)
    ensures fresh(r)
    ensures var end := if to.Some? then to.value else buffer.Length;
            && (hasSlice || end <= buffer.Length ==> r[..] == Sliced(buffer[..], from, end))
            && (!hasSlice ==>
                  && r.Length == end - from
                  && forall i | 0 <= i < r.Length :: r[i] == if from + i < buffer.Length then buffer[from + i] else 0)
  {
    if hasSlice {
      var copy := Sliced(buffer[..], from, if to.Some? then to.value else buffer.Length);
      r := new byte[|copy|](i requires 0 <= i < |copy| => copy[i]);
      return;
    }
    var end := buffer.Length;
    if to.Some? {
      end := to.value;
    }
    var num := end - from;
    r := new byte[num](_ => 0);
    var arrayIndex := 0;
    for i := from to end
      invariant arrayIndex == i - from
      invariant forall k | 0 <= k < arrayIndex ::
                  r[k] == if from + k < buffer.Length then buffer[from + k] else 0
    {
      r[arrayIndex] := if i < buffer.Length then buffer[i] else 0;
      arrayIndex := arrayIndex + 1;
    }
  }

  datatype Chunk = Message(data: seq<byte>) | Trailers(text: string)

  function ChunkOf(f: Frame): Chunk {
    if f.IsTrailer() then Trailers(AsciiText(f.payload)) else Message(f.payload)
  }

  function ChunksOf(fs: seq<Frame>): seq<Chunk> {
    seq(|fs|, i requires 0 <= i < |fs| => ChunkOf(fs[i]))
  }

  /** What one `parse` call takes from the pending bytes: the frames it moves the cursor past,
      the bytes still pending, and whether it ended by throwing, in which case the caller
      gets none of those frames. */
  datatype Scan = Scan(frames: seq<Frame>, rest: seq<byte>, threw: bool)

  function ScanFrames(pending: seq<byte>): Scan
    decreases |pending|
  {
    if !HasFrame(pending) then
      Scan([], pending, false)
    else
      var f, tail := FirstFrame(pending), pending[FrameSize(pending)..];
      if f.IsTrailer() then
        Scan([f], tail, !ValidAscii(f.payload))
      else
        var t := ScanFrames(tail);
        Scan([f] + t.frames, t.rest, t.threw)
  }

  // How far the loop of `parse` has come: it started on `start`, has moved past the message
  // frames `done`, and stands before `pending`.
  ghost predicate ScannedTo(start: seq<byte>, done: seq<Frame>, pending: seq<byte>) {
    var s := ScanFrames(pending);
    ScanFrames(start) == Scan(done + s.frames, s.rest, s.threw)
  }

  lemma ScanStarts(start: seq<byte>)
    ensures ScannedTo(start, [], start)
  {
    assert [] + ScanFrames(start).frames == ScanFrames(start).frames;
  }

  lemma ScanStops(start: seq<byte>, done: seq<Frame>, pending: seq<byte>)
    requires ScannedTo(start, done, pending) && !HasFrame(pending)
    ensures ScanFrames(start) == Scan(done, pending, false)
  {
    assert done + [] == done;
  }

  lemma ScanTakesFrame(start: seq<byte>, done: seq<Frame>, pending: seq<byte>)
    requires ScannedTo(start, done, pending) && HasFrame(pending)
    ensures var f, tail := FirstFrame(pending), pending[FrameSize(pending)..];
            if f.IsTrailer() then ScanFrames(start) == Scan(done + [f], tail, !ValidAscii(f.payload))
            else ScannedTo(start, done + [f], tail)
  {
    var f, tail := FirstFrame(pending), pending[FrameSize(pending)..];
    assert done + ([f] + ScanFrames(tail).frames) == done + [f] + ScanFrames(tail).frames;
  }

  lemma FrameAt(pending: seq<byte>, header: seq<byte>, payload: seq<byte>, length: nat)
    requires |pending| >= HEADER_SIZE && header == pending[..HEADER_SIZE]
    requires length == ReadU32BE(header[1..HEADER_SIZE]) && |pending| >= HEADER_SIZE + length
    requires payload == pending[HEADER_SIZE..HEADER_SIZE + length]
    ensures HasFrame(pending) && FrameSize(pending) == HEADER_SIZE + length
    ensures FirstFrame(pending) == Frame(header[0], payload)
  {
    assert header[1..HEADER_SIZE] == pending[1..HEADER_SIZE];
  }

  // A slice behind the cursor is a slice of the pending bytes.
  lemma SlicedPending(bytes: seq<byte>, position: nat, from: nat, to: nat)
    requires from <= to && position + to <= |bytes|
    ensures Sliced(bytes, position + from, position + to) == bytes[position..][from..to]
  {
  }

  lemma ChunksSnoc(fs: seq<Frame>, f: Frame)
    ensures ChunksOf(fs + [f]) == ChunksOf(fs) + [ChunkOf(f)]
  {
  }

  class ChunkParser {
    const hasSlice: bool
    var buffer: array?<byte>
    var position: nat

    ghost predicate Valid()
      reads this
    {
      if buffer == null then position == 0 else position <= buffer.Length
    }

    /** The bytes fed so far that no frame has used up yet. */
    ghost function Pending(): seq<byte>
      requires Valid()
      reads this, buffer
    {
      if buffer == null then [] else buffer[position..]
    }

    constructor (hasSlice: bool := true)
      ensures Valid() && Pending() == [] && this.hasSlice == hasSlice
    {
      this.hasSlice := hasSlice;
      buffer := null;
      position := 0;
    }

    // Makes buffer[position..] the old pending bytes followed by `bytes`.
    method Feed(bytes: array<byte>)
      requires Valid()
      modifies this
      ensures Valid() && buffer != null && position == 0
      ensures Pending() == old(Pending()) + bytes[..]
      ensures buffer == bytes || fresh(buffer)
    {
      if buffer == null {
        buffer := bytes;
        position := 0;
      } else if position == buffer.Length {
        buffer := bytes;
        position := 0;
      } else {
        var remaining := buffer.Length - position;
        var newBuf := new byte[remaining + bytes.Length](_ => 0);
        var fromExisting := SliceUint8Array(hasSlice, buffer, position);
        forall i | 0 <= i < remaining {
          newBuf[i] := fromExisting[i];
        }
        forall i | 0 <= i < bytes.Length {
          newBuf[remaining + i] := bytes[i];
        }
        assert newBuf[..remaining] == old(Pending());
        assert newBuf[remaining..] == bytes[..];
        buffer := newBuf;
        position := 0;
      }
    }

    // The part of the loop body that looks for a complete frame and moves the cursor past it.
    method TakeFrame() returns (frame: Option<(byte, array<byte>)>)
      requires Valid() && buffer != null
      modifies this`position
      ensures Valid()
      ensures frame.Some? <==> HasFrame(old(Pending()))
      ensures frame.None? ==> position == old(position)
      ensures frame.Some? ==>
                && position == old(position) + FrameSize(old(Pending()))
                && FirstFrame(old(Pending())) == Frame(frame.value.0, frame.value.1[..])
    {
      hide ReadU32BE, FirstFrame, Sliced;
      ghost var pending := Pending();
      ghost var all := buffer[..];
      assert pending == all[position..];
      if !(buffer.Length - position >= HEADER_SIZE) {
        return None;
      }
      var headerBuffer := SliceUint8Array(hasSlice, buffer, position, Some(position + HEADER_SIZE));
      SlicedPending(all, position, 0, HEADER_SIZE);
      ghost var header := headerBuffer[..];
      assert header == pending[..HEADER_SIZE];
      assert header[1..HEADER_SIZE] == pending[1..HEADER_SIZE];
      var msgLength := ReadU32BE(headerBuffer[1..HEADER_SIZE]);
      assert headerBuffer[1..HEADER_SIZE] == header[1..HEADER_SIZE];
      if !(buffer.Length - position >= HEADER_SIZE + msgLength) {
        return None;
      }
      var messageData := SliceUint8Array(hasSlice, buffer, position + HEADER_SIZE,
                                         Some(position + HEADER_SIZE + msgLength));
      SlicedPending(all, position, HEADER_SIZE, HEADER_SIZE + msgLength);
      FrameAt(pending, header, messageData[..], msgLength);
      position := position + HEADER_SIZE + msgLength;
      return Some((headerBuffer[0], messageData));
    }

    /** `None` stands for the error that parse throws on a trailer block that is not ASCII.
        The cursor then already stands behind that block. */
    method Parse(bytes: array<byte>, flush: bool := false) returns (chunks: Option<seq<Chunk>>)
      requires Valid()
      modifies this
      ensures Valid() && (buffer == old(buffer) || buffer == bytes || fresh(buffer))
      ensures bytes.Length == 0 && flush ==> chunks == Some([]) && Pending() == old(Pending())
      ensures !(bytes.Length == 0 && flush) ==>
                var scan := ScanFrames(old(Pending()) + bytes[..]);
                && Pending() == scan.rest
                && chunks == if scan.threw then None else Some(ChunksOf(scan.frames))
    {
      if bytes.Length == 0 && flush {
        return Some([]);
      }
      var chunkData: seq<Chunk> := [];
      Feed(bytes);
      hide ScanFrames, FirstFrame, FrameSize;
      ghost var start := Pending();
      ghost var done: seq<Frame> := [];
      ScanStarts(start);
      assert ChunksOf([]) == [];
      hide ScannedTo, ChunksOf;
      while true
        invariant Valid() && buffer != null && (buffer == bytes || fresh(buffer))
        invariant chunkData == ChunksOf(done) && ScannedTo(start, done, Pending())
        decreases buffer.Length - position
      {
        ghost var pending := Pending();
        var next := TakeFrame();
        if next == None {
          ScanStops(start, done, pending);
          return Some(chunkData);
        }
        var (flag, messageData) := next.value;
        ghost var frame := Frame(flag, messageData[..]);
        assert Pending() == pending[FrameSize(pending)..];
        ScanTakesFrame(start, done, pending);
        ChunksSnoc(done, frame);
        done := done + [frame];
        if flag / 0x80 % 2 == 1 {
          var trailers := DecodeASCII(messageData);
          if trailers == None {
            return None;
          }
          chunkData := chunkData + [Trailers(trailers.value)];
          return Some(chunkData);
        } else {
          chunkData := chunkData + [Message(messageData[..])];
        }
      }
    }
  }
}
