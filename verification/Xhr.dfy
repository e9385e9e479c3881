/** Incremental decoding in the XHR transport: the response text grows, and every progress event
    emits the bytes of the text that was not seen before. */
module XhrTransport {
  import opened Bytes

  // A UTF-16 code unit, what charCodeAt returns.
  type unit = x: int | 0 <= x < 0x1_0000

  predicate IsHigh(c: unit) { 0xd800 <= c <= 0xdbff }

  predicate IsLow(c: unit) { 0xdc00 <= c <= 0xdfff }

  // codePointAt, with a surrogate pair only where both halves are there.
  function CodePointAt(str: seq<unit>, index: nat): nat
    requires index < |str|
  {
    var code := str[index];
    if IsHigh(code) && index + 1 < |str| && IsLow(str[index + 1]) then
      0x1_0000 + (code as int - 0xd800) * 0x400 + (str[index + 1] as int - 0xdc00)
    else code
  }

  /** codePointAt inverts UTF-16, in the one-unit and in the two-unit form. */
  lemma CodePointOfUtf16(c: nat)
    requires c < 0x11_0000
    ensures c < 0x1_0000 ==> CodePointAt([c], 0) == c
    ensures c >= 0x1_0000 ==> CodePointAt([0xd800 + (c - 0x1_0000) / 0x400, 0xdc00 + (c - 0x1_0000) % 0x400], 0) == c
  {
  }

  function TextBytes(str: seq<unit>): (bytes: seq<byte>)
    ensures |bytes| == |str|
    ensures forall i | 0 <= i < |str| :: bytes[i] == CodePointAt(str, i) % 0x100
  {
    seq(|str|, i requires 0 <= i < |str| => CodePointAt(str, i) % 0x100)
  }

  method StringToArrayBuffer(str: seq<unit>) returns (asArray: array<byte>)
    ensures fresh(asArray) && asArray[..] == TextBytes(str)
  {
    asArray := new byte[|str|](_ => 0);
    var arrayIndex := 0;
    for i := 0 to |str|
      invariant arrayIndex == i
      invariant asArray[..i] == TextBytes(str)[..i]
    {
      asArray[arrayIndex] := CodePointAt(str, i) % 0x100;
      arrayIndex := arrayIndex + 1;
    }
  }

  // String.prototype.substr with one argument; an undefined start is 0.
  function Substr(str: seq<unit>, start: Option<nat>): seq<unit> {
    match start
    case None => str
    case Some(n) => if n <= |str| then str[n..] else []
  }

  class XHR {
    // Declared without a value, so undefined until the first progress event.
    var index: Option<nat>
    // xhr.response, which the browser lets grow.
    var response: seq<unit>
    // The arguments of options.onChunk so far.
    var chunks: seq<seq<byte>>

    constructor ()
      ensures index == None && response == [] && chunks == []
    {
      index, response, chunks := None, [], [];
    }

    method OnProgressEvent()
      modifies this`index, this`chunks
      ensures index == Some(|response|)
      ensures chunks == old(chunks) + [TextBytes(Substr(response, old(index)))]
    {
      var rawText := Substr(response, index);
      index := Some(|response|);
      var asArrayBuffer := StringToArrayBuffer(rawText);
      chunks := chunks + [asArrayBuffer[..]];
    }
  }

  /** The chunks that progress events emit when the text reads texts[0], texts[1], ... at them. */
  function ProgressRun(index: Option<nat>, texts: seq<seq<unit>>): seq<seq<byte>>
    decreases |texts|
  {
    if texts == [] then []
    else [TextBytes(Substr(texts[0], index))] + ProgressRun(Some(|texts[0]|), texts[1..])
  }

  // The x-user-defined decoder, section 14.5 of the WHATWG Encoding Standard.
  function XUserDefined(bytes: seq<byte>): (text: seq<unit>)
    ensures |text| == |bytes|
  {
    seq(|bytes|, i requires 0 <= i < |bytes| => if bytes[i] < 0x80 then bytes[i] else 0xf700 + bytes[i] as int)
  }

  /** stringToArrayBuffer inverts the x-user-defined decoding. */
  lemma TextBytesInvertsXUserDefined(bytes: seq<byte>)
    ensures TextBytes(XUserDefined(bytes)) == bytes
  {
    var text := XUserDefined(bytes);
    forall i | 0 <= i < |bytes| ensures CodePointAt(text, i) % 0x100 == bytes[i] {
      assert !IsHigh(text[i]);
    }
  }

  // How far the text had come at each progress event.
  ghost predicate Growing(from: nat, seen: seq<nat>, total: nat) {
    && (forall i | 0 <= i < |seen| :: from <= seen[i] <= total)
    && (forall i, j | 0 <= i < j < |seen| :: seen[i] <= seen[j])
  }

  function TextsAt(text: seq<unit>, seen: seq<nat>): seq<seq<unit>>
    requires forall i | 0 <= i < |seen| :: seen[i] <= |text|
  {
    seq(|seen|, i requires 0 <= i < |seen| => text[..seen[i]])
  }

  lemma {:induction false} ProgressFrom(bytes: seq<byte>, from: nat, index: Option<nat>, seen: seq<nat>)
    requires from <= |bytes| && Growing(from, seen, |bytes|)
    requires index == Some(from) || (index == None && from == 0)
    ensures Flatten(ProgressRun(index, TextsAt(XUserDefined(bytes), seen)))
         == bytes[from..if seen == [] then from else seen[|seen| - 1]]
    decreases |seen|
  {
    hide TextBytes, XUserDefined, Substr;
    if seen != [] {
      var text := XUserDefined(bytes);
      var to, end := seen[0], seen[|seen| - 1];
      var later := seen[1..];
      assert TextsAt(text, seen)[1..] == TextsAt(text, later);
      NewBytes(bytes, from, to, index);
      assert Growing(to, later, |bytes|) by {
        assert forall i | 0 <= i < |later| :: later[i] == seen[i + 1];
      }
      ProgressFrom(bytes, to, Some(to), later);
      assert later != [] ==> later[|later| - 1] == end && to <= end;
      assert bytes[from..to] + bytes[to..end] == bytes[from..end];
    }
  }

  // One progress event.
  lemma NewBytes(bytes: seq<byte>, from: nat, to: nat, index: Option<nat>)
    requires from <= to <= |bytes|
    requires index == Some(from) || (index == None && from == 0)
    ensures TextBytes(Substr(XUserDefined(bytes)[..to], index)) == bytes[from..to]
  {
    assert Substr(XUserDefined(bytes)[..to], index) == XUserDefined(bytes[from..to]);
    TextBytesInvertsXUserDefined(bytes[from..to]);
  }

  /** Incremental XHR decoding: for any byte stream and any placement of the progress events, the
      concatenated chunks are the bytes of the text seen so far. */
  lemma ProgressEmitsEachByteOnce(bytes: seq<byte>, seen: seq<nat>)
    requires Growing(0, seen, |bytes|)
    ensures Flatten(ProgressRun(None, TextsAt(XUserDefined(bytes), seen)))
         == bytes[..if seen == [] then 0 else seen[|seen| - 1]]
  {
    ProgressFrom(bytes, 0, None, seen);
  }

  /** The chunks emitted while a body of these bytes was shown: the progress events fell anywhere, the last
      when the whole text was there. */
  ghost predicate Showed(bytes: seq<byte>, chunks: seq<seq<byte>>) {
    exists seen: seq<nat> ::
      && Growing(0, seen, |bytes|) && seen != [] && seen[|seen| - 1] == |bytes|
      && chunks == ProgressRun(None, TextsAt(XUserDefined(bytes), seen))
  }

  lemma ShowedChunks(bytes: seq<byte>, chunks: seq<seq<byte>>)
    requires Showed(bytes, chunks)
    ensures Flatten(chunks) == bytes
  {
    var seen: seq<nat> :|
      && Growing(0, seen, |bytes|) && seen != [] && seen[|seen| - 1] == |bytes|
      && chunks == ProgressRun(None, TextsAt(XUserDefined(bytes), seen));
    ProgressEmitsEachByteOnce(bytes, seen);
    assert bytes[..|bytes|] == bytes;
  }

  // The low byte of a pair is the low byte of its second half.
  lemma PairByte(str: seq<unit>, i: nat)
    requires i + 1 < |str| && IsHigh(str[i]) && IsLow(str[i + 1])
    ensures CodePointAt(str, i) % 0x100 == str[i + 1] % 0x100
  {
    var high, low := str[i] as int - 0xd800, str[i + 1] as int - 0xdc00;
    assert CodePointAt(str, i) == (0x100 + high * 4) * 0x100 + low;
    assert str[i + 1] as int == 0xdc * 0x100 + low;
  }

  /** For text that does not come from bytes, a progress event between two parts changes the bytes
      exactly if it splits a surrogate pair whose halves have different low bytes. */
  lemma SplittingText(a: seq<unit>, b: seq<unit>)
    ensures TextBytes(a + b) == TextBytes(a) + TextBytes(b) <==>
            !(a != [] && b != [] && 0xd800 <= a[|a| - 1] < 0xdc00 && 0xdc00 <= b[0] < 0xe000
              && a[|a| - 1] % 0x100 != b[0] % 0x100)
  {
    var whole, parts := TextBytes(a + b), TextBytes(a) + TextBytes(b);
    forall i | 0 <= i < |a + b| && i != |a| - 1 ensures whole[i] == parts[i] {
      if i < |a| {
        assert CodePointAt(a + b, i) == CodePointAt(a, i);
      } else {
        assert CodePointAt(a + b, i) == CodePointAt(b, i - |a|);
      }
    }
    if a != [] && b != [] {
      var i := |a| - 1;
      assert parts[i] == a[i] % 0x100;
      if IsHigh(a[i]) && IsLow(b[0]) {
        PairByte(a + b, i);
        assert whole[i] == b[0] % 0x100;
      } else {
        assert whole[i] == a[i] % 0x100;
      }
    } else if b == [] {
      assert a + b == a;
    }
  }
}
