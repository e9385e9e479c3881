/** Base64 as RFC 4648 section 4 defines it, a body made of several padded parts, and the text
    stream that the base64 response writer produces. Characters are their ASCII codes. */
module Base64 {
  import opened Bytes

  const PAD := 61 // '='

  // The character for a value, table 1 of RFC 4648.
  function Digit(v: nat): (c: byte)
    requires v < 64
    ensures c != PAD
  {
    if v < 26 then 65 + v
    else if v < 52 then 97 + v - 26
    else if v < 62 then 48 + v - 52
    else if v == 62 then 43
    else 47
  }

  /** Table 1 of RFC 4648 in its order: the upper-case letters, the lower-case letters, the digits, plus and slash. */
  lemma Alphabet(c: char)
    ensures 'A' <= c <= 'Z' ==> Digit((c - 'A') as int) == c as int
    ensures 'a' <= c <= 'z' ==> Digit(26 + (c - 'a') as int) == c as int
    ensures '0' <= c <= '9' ==> Digit(52 + (c - '0') as int) == c as int
    ensures Digit(62) == '+' as int && Digit(63) == '/' as int && PAD == '=' as int
  {
  }

  function Value(c: byte): (v: Option<nat>)
    ensures v.Some? ==> v.value < 64
  {
    if 65 <= c <= 90 then Some(c - 65)
    else if 97 <= c <= 122 then Some(c - 97 + 26)
    else if 48 <= c <= 57 then Some(c - 48 + 52)
    else if c == 43 then Some(62)
    else if c == 47 then Some(63)
    else None
  }

  lemma ValueOfDigit(v: nat)
    requires v < 64
    ensures Value(Digit(v)) == Some(v)
  {
  }

  /** One to three bytes as four characters, padded. */
  function EncodeGroup(g: seq<byte>): (text: seq<byte>)
    requires 1 <= |g| <= 3
    ensures |text| == 4 && text[0] != PAD && text[1] != PAD
    ensures text[2] == PAD <==> |g| == 1
    ensures text[3] == PAD <==> |g| < 3
  {
    var a := g[0] as int;
    var b := if |g| > 1 then g[1] as int else 0;
    var c := if |g| > 2 then g[2] as int else 0;
    [Digit(a / 4), Digit(a % 4 * 16 + b / 16),
     if |g| > 1 then Digit(b % 16 * 4 + c / 64) else PAD,
     if |g| > 2 then Digit(c % 64) else PAD]
  }

  /** The four characters are the 24 bits of the three bytes, six at a time, the most significant first. */
  lemma GroupBits(a: byte, b: byte, c: byte, d: seq<nat>)
    requires |d| == 4 && (forall i | 0 <= i < 4 :: d[i] < 64)
    requires d[0] * 0x4_0000 + d[1] * 0x1000 + d[2] * 0x40 + d[3] == a as int * 0x1_0000 + b as int * 0x100 + c as int
    ensures EncodeGroup([a, b, c]) == [Digit(d[0]), Digit(d[1]), Digit(d[2]), Digit(d[3])]
    ensures b == c == 0 ==> EncodeGroup([a]) == [Digit(d[0]), Digit(d[1]), PAD, PAD]
    ensures c == 0 ==> EncodeGroup([a, b]) == [Digit(d[0]), Digit(d[1]), Digit(d[2]), PAD]
  {
    hide Digit;
    assert d[0] == a / 4 && d[1] == a % 4 * 16 + b / 16 && d[2] == b % 16 * 4 + c / 64 && d[3] == c % 64;
  }

  /** The encoding of a byte string: one padded part. */
  function Encode(s: seq<byte>): seq<byte> {
    if s == [] then []
    else if |s| <= 3 then EncodeGroup(s)
    else EncodeGroup(s[..3]) + Encode(s[3..])
  }

  // Four characters as the bytes they stand for. Bits that padding leaves over are not checked.
  function DecodeGroup(q: seq<byte>): Option<seq<byte>>
    requires |q| == 4
  {
    match (Value(q[0]), Value(q[1]), Value(q[2]), Value(q[3]))
    case (Some(v0), Some(v1), Some(v2), Some(v3)) =>
      Some([v0 * 4 + v1 / 16, v1 % 16 * 16 + v2 / 4, v2 % 4 * 64 + v3])
    case (Some(v0), Some(v1), Some(v2), None) =>
      if q[3] == PAD then Some([v0 * 4 + v1 / 16, v1 % 16 * 16 + v2 / 4]) else None
    case (Some(v0), Some(v1), None, None) =>
      if q[2] == PAD && q[3] == PAD then Some([v0 * 4 + v1 / 16]) else None
    case _ => None
  }

  /** base64.StdEncoding.Decode: groups of four, of which only the last may be padded. */
  function Decode(text: seq<byte>): Option<seq<byte>>
    decreases |text|
  {
    if text == [] then Some([])
    else if |text| < 4 then None
    else
      match DecodeGroup(text[..4])
      case None => None
      case Some(g) =>
        if |g| < 3 && |text| > 4 then None
        else
          match Decode(text[4..])
          case None => None
          case Some(rest) => Some(g + rest)
  }

  // Three bytes as four sextets and back, also where the last ones are missing.
  lemma Sextets(a: byte, b: byte, c: byte)
    ensures var (d0, d1, d2, d3) := (a / 4, a % 4 * 16 + b / 16, b % 16 * 4 + c / 64, c % 64);
            && d0 < 64 && d1 < 64 && d2 < 64 && d3 < 64
            && d0 * 4 + d1 / 16 == a && d1 % 16 * 16 + d2 / 4 == b && d2 % 4 * 64 + d3 == c
  {
  }

  // Four, three or two characters and the padding.
  lemma DecodeDigits(v0: nat, v1: nat, v2: nat, v3: nat)
    requires v0 < 64 && v1 < 64 && v2 < 64 && v3 < 64
    ensures var (a, b, c) := (v0 * 4 + v1 / 16, v1 % 16 * 16 + v2 / 4, v2 % 4 * 64 + v3);
            && DecodeGroup([Digit(v0), Digit(v1), Digit(v2), Digit(v3)]) == Some([a, b, c])
            && DecodeGroup([Digit(v0), Digit(v1), Digit(v2), PAD]) == Some([a, b])
            && DecodeGroup([Digit(v0), Digit(v1), PAD, PAD]) == Some([a])
  {
    assert Value(PAD) == None;
    hide Digit, Value;
    ValueOfDigit(v0);
    ValueOfDigit(v1);
    ValueOfDigit(v2);
    ValueOfDigit(v3);
  }

  lemma DecodeEncodedGroup(g: seq<byte>)
    requires 1 <= |g| <= 3
    ensures DecodeGroup(EncodeGroup(g)) == Some(g)
  {
    hide DecodeGroup, Digit;
    var a := g[0] as int;
    var b := if |g| > 1 then g[1] as int else 0;
    var c := if |g| > 2 then g[2] as int else 0;
    Sextets(a, b, c);
    DecodeDigits(a / 4, a % 4 * 16 + b / 16, b % 16 * 4 + c / 64, c % 64);
    if |g| == 1 {
      assert g == [a];
    } else if |g| == 2 {
      assert g == [a, b];
    } else {
      assert g == [a, b, c];
    }
  }

  lemma {:induction false} EncodeConcat(a: seq<byte>, b: seq<byte>)
    requires |a| % 3 == 0
    ensures Encode(a + b) == Encode(a) + Encode(b)
    decreases |a|
  {
    hide EncodeGroup;
    if a == [] {
      assert a + b == b;
    } else {
      var g, rest := a[..3], a[3..];
      assert (a + b)[..3] == g && (a + b)[3..] == rest + b;
      EncodeConcat(rest, b);
      assert |a| == 3 ==> a == g && rest == [] && Encode(rest) == [];
      if b == [] && |a| == 3 {
        assert a + b == a && EncodeGroup(a) + [] == EncodeGroup(a);
      } else if |a| == 3 {
        assert Encode(a + b) == EncodeGroup(g) + Encode(rest + b);
      }
    }
  }

  // Whole groups in front of any text.
  lemma {:induction false} DecodeWholeGroups(a: seq<byte>, text: seq<byte>)
    requires |a| % 3 == 0
    ensures Decode(Encode(a) + text) ==
            match Decode(text) case None => None case Some(rest) => Some(a + rest)
    decreases |a|
  {
    hide EncodeGroup, DecodeGroup;
    if a == [] {
      assert Encode(a) + text == text;
      assert Decode(text).Some? ==> a + Decode(text).value == Decode(text).value;
    } else {
      var g, rest := a[..3], a[3..];
      assert |a| == 3 ==> a == g && rest == [] && Encode(rest) == [] && EncodeGroup(g) + [] == EncodeGroup(g);
      assert Encode(a) == EncodeGroup(g) + Encode(rest);
      var t := Encode(a) + text;
      assert t[..4] == EncodeGroup(g) && t[4..] == Encode(rest) + text;
      DecodeEncodedGroup(g);
      DecodeWholeGroups(rest, text);
      assert Decode(text).Some? ==> g + (rest + Decode(text).value) == a + Decode(text).value;
    }
  }

  // The length of the longest prefix of whole groups.
  function Whole(s: seq<byte>): (n: nat)
    ensures n <= |s| && n % 3 == 0 && |s| - n == |s| % 3
  {
    |s| / 3 * 3
  }

  lemma SplitEncode(s: seq<byte>)
    ensures Encode(s) == Encode(s[..Whole(s)]) + Encode(s[Whole(s)..])
  {
    hide Encode, Whole;
    EncodeConcat(s[..Whole(s)], s[Whole(s)..]);
    assert s[..Whole(s)] + s[Whole(s)..] == s;
  }

  /** Decoding inverts encoding. */
  lemma DecodeEncode(s: seq<byte>)
    ensures Decode(Encode(s)) == Some(s)
  {
    hide Encode, Decode, Whole;
    var a, tail := s[..Whole(s)], s[Whole(s)..];
    SplitEncode(s);
    DecodeWholeGroups(a, Encode(tail));
    assert a + tail == s;
    DecodeTail(tail);
  }

  // Less than a whole group.
  lemma DecodeTail(tail: seq<byte>)
    requires |tail| < 3
    ensures Decode(Encode(tail)) == Some(tail)
  {
    hide EncodeGroup, DecodeGroup;
    if tail != [] {
      var text := EncodeGroup(tail);
      DecodeEncodedGroup(tail);
      assert text[..4] == text && text[4..] == [] && tail + [] == tail;
    }
  }

  // ---- several parts ----

  // The position of the first '=', or the length.
  function FirstPad(text: seq<byte>): (n: nat)
    ensures n <= |text|
    ensures forall i | 0 <= i < n :: text[i] != PAD
    ensures n < |text| ==> text[n] == PAD
  {
    if text == [] || text[0] == PAD then 0 else 1 + FirstPad(text[1..])
  }

  // The number of '=' at the start.
  function Pads(text: seq<byte>): (n: nat)
    ensures n <= |text|
  {
    if text == [] || text[0] != PAD then 0 else 1 + Pads(text[1..])
  }

  function PartLength(text: seq<byte>): (n: nat)
    ensures n <= |text| && (text != [] ==> n > 0)
  {
    FirstPad(text) + Pads(text[FirstPad(text)..])
  }

  /** decodeMultipleBase64Chunks: each part reaches to the end of the next run of '='. */
  function DecodeParts(text: seq<byte>): Option<seq<byte>>
    decreases |text|
  {
    if text == [] then Some([])
    else
      match Decode(text[..PartLength(text)])
      case None => None
      case Some(part) =>
        match DecodeParts(text[PartLength(text)..])
        case None => None
        case Some(rest) => Some(part + rest)
  }

  function EncodeParts(parts: seq<seq<byte>>): seq<byte> {
    if parts == [] then [] else Encode(parts[0]) + EncodeParts(parts[1..])
  }

  lemma {:induction false} EncodePartsSnoc(parts: seq<seq<byte>>, p: seq<byte>)
    ensures EncodeParts(parts + [p]) == EncodeParts(parts) + Encode(p)
  {
    if parts == [] {
      assert parts + [p] == [p] && EncodeParts([]) == [];
      assert [p][1..] == [];
      assert EncodeParts([p]) == Encode(p) + EncodeParts([]) == Encode(p);
    } else {
      assert (parts + [p])[1..] == parts[1..] + [p];
      EncodePartsSnoc(parts[1..], p);
    }
  }

  // Whole groups have no padding.
  lemma {:induction false} NoPadInWholeGroups(a: seq<byte>)
    requires |a| % 3 == 0
    ensures forall c | c in Encode(a) :: c != PAD
    decreases |a|
  {
    if a != [] {
      NoPadInWholeGroups(a[3..]);
      var g := EncodeGroup(a[..3]);
      assert forall c | c in g :: c == g[0] || c == g[1] || c == g[2] || c == g[3];
      assert |a| == 3 ==> a[..3] == a;
    }
  }

  lemma {:induction false} PartsStartWithDigit(parts: seq<seq<byte>>)
    ensures EncodeParts(parts) == [] || EncodeParts(parts)[0] != PAD
  {
    if parts != [] {
      PartsStartWithDigit(parts[1..]);
      if parts[0] == [] {
        assert Encode(parts[0]) + EncodeParts(parts[1..]) == EncodeParts(parts[1..]);
      } else {
        var s := parts[0];
        assert Encode(s)[0] == EncodeGroup(if |s| <= 3 then s else s[..3])[0];
      }
    }
  }

  // Unpadded text in front only moves where the part ends.
  lemma {:induction false} FirstPadBehind(a: seq<byte>, b: seq<byte>)
    requires forall c | c in a :: c != PAD
    ensures FirstPad(a + b) == |a| + FirstPad(b)
  {
    if a == [] {
      assert a + b == b;
    } else {
      assert a[0] in a && (a + b)[0] == a[0] && (a + b)[1..] == a[1..] + b;
      assert forall c | c in a[1..] :: c in a;
      FirstPadBehind(a[1..], b);
    }
  }

  // A padded group ends its part whatever follows.
  lemma PaddedGroup(g: seq<byte>, rest: seq<byte>)
    requires |g| == 4 && g[0] != PAD && g[1] != PAD && g[3] == PAD
    requires rest == [] || rest[0] != PAD
    ensures PartLength(g + rest) == 4
  {
    var t := g + rest;
    var n := if g[2] == PAD then 2 else 3;
    FirstPadBehind(g[..n], g[n..] + rest);
    assert g[..n] + (g[n..] + rest) == t;
    assert FirstPad(g[n..] + rest) == 0 && FirstPad(t) == n && t[n..] == g[n..] + rest;
    assert Pads(rest) == 0;
    assert (g[3..] + rest)[1..] == rest && Pads(g[3..] + rest) == 1;
    if n == 2 {
      assert (g[2..] + rest)[1..] == g[3..] + rest;
    }
  }

  lemma PaddedPart(e: seq<byte>, g: seq<byte>, rest: seq<byte>)
    requires forall c | c in e :: c != PAD
    requires |g| == 4 && g[0] != PAD && g[1] != PAD && g[3] == PAD
    requires rest == [] || rest[0] != PAD
    ensures PartLength(e + g + rest) == |e| + 4
  {
    hide FirstPad, Pads;
    assert e + g + rest == e + (g + rest);
    FirstPadBehind(e, g + rest);
    PaddedGroup(g, rest);
    var n := FirstPad(g + rest);
    assert (e + (g + rest))[|e| + n..] == (g + rest)[n..];
  }

  /** Several parts: whatever the part boundaries, the decoder gives back the concatenated bytes. The
      whole groups `done` are unpadded text that a part boundary left no mark behind. */
  lemma {:induction false} DecodeEncodedParts(done: seq<byte>, parts: seq<seq<byte>>)
    requires |done| % 3 == 0
    ensures DecodeParts(Encode(done) + EncodeParts(parts)) == Some(done + Flatten(parts))
    decreases |parts|
  {
    hide DecodeParts, Encode;
    if parts == [] {
      assert Encode(done) + [] == Encode(done) && done + [] == done;
      UnpaddedPart(done);
    } else {
      var p, rest := parts[0], EncodeParts(parts[1..]);
      EncodeConcat(done, p);
      assert Encode(done) + EncodeParts(parts) == Encode(done + p) + rest;
      assert done + p + Flatten(parts[1..]) == done + Flatten(parts);
      if |p| % 3 == 0 {
        DecodeEncodedParts(done + p, parts[1..]);
      } else {
        PartsStartWithDigit(parts[1..]);
        PaddedEncoding(done + p, rest);
        DecodeEncodedParts([], parts[1..]);
        EncodeNothing();
        assert [] + rest == rest && [] + Flatten(parts[1..]) == Flatten(parts[1..]);
      }
    }
  }

  lemma EncodeNothing()
    ensures Encode([]) == []
  {
  }

  lemma EncodeSomething(s: seq<byte>)
    requires s != []
    ensures Encode(s) != []
  {
  }

  lemma UnpaddedPart(a: seq<byte>)
    requires |a| % 3 == 0
    ensures DecodeParts(Encode(a)) == Some(a)
  {
    hide Encode, Decode;
    NoPadInWholeGroups(a);
    var text := Encode(a);
    FirstPadBehind(text, []);
    assert text + [] == text;
    assert PartLength(text) == |text| && text[..|text|] == text && text[|text|..] == [];
    DecodeEncode(a);
    assert a + [] == a;
    EncodeNothing();
    if a != [] { EncodeSomething(a); }
  }

  // The encoding of a byte string that needs padding is a part of its own.
  lemma PaddedEncoding(s: seq<byte>, rest: seq<byte>)
    requires |s| % 3 != 0 && (rest == [] || rest[0] != PAD)
    ensures DecodeParts(Encode(s) + rest) ==
            match DecodeParts(rest) case None => None case Some(more) => Some(s + more)
  {
    hide EncodeGroup, PartLength, Decode, Encode, Whole;
    PaddedLength(s, rest);
    var text := Encode(s) + rest;
    assert text[..|Encode(s)|] == Encode(s) && text[|Encode(s)|..] == rest;
    DecodeEncode(s);
  }

  lemma PaddedLength(s: seq<byte>, rest: seq<byte>)
    requires |s| % 3 != 0 && (rest == [] || rest[0] != PAD)
    ensures PartLength(Encode(s) + rest) == |Encode(s)| > 0
  {
    hide EncodeGroup, PartLength, Whole;
    SplitEncode(s);
    var a, tail := s[..Whole(s)], s[Whole(s)..];
    EncodeTail(tail);
    NoPadInWholeGroups(a);
    PaddedPart(Encode(a), EncodeGroup(tail), rest);
  }

  lemma EncodeTail(tail: seq<byte>)
    requires 1 <= |tail| <= 2
    ensures Encode(tail) == EncodeGroup(tail)
  {
  }

  // ---- the text stream ----

  /** What an encoder has written to the response, and the bytes it still holds. */
  datatype TextStream = TextStream(out: seq<byte>, held: seq<byte>)

  datatype Op = Write(bytes: seq<byte>) | Flush

  // The encoder writes whole groups as soon as it has them.
  function AfterWrite(t: TextStream, bytes: seq<byte>): TextStream {
    var all := t.held + bytes;
    TextStream(t.out + Encode(all[..Whole(all)]), all[Whole(all)..])
  }

  // Closing the encoder pads what it holds; a new one starts with nothing.
  function AfterFlush(t: TextStream): TextStream {
    TextStream(t.out + Encode(t.held), [])
  }

  function AfterOps(t: TextStream, ops: seq<Op>): TextStream
    decreases |ops|
  {
    if ops == [] then t
    else AfterOps(if ops[0].Write? then AfterWrite(t, ops[0].bytes) else AfterFlush(t), ops[1..])
  }

  /** Writing never takes back what went out, never holds three bytes or more, and after a flush nothing is held. */
  lemma {:induction false} LittleIsHeld(t: TextStream, ops: seq<Op>)
    requires |t.held| < 3
    ensures var r := AfterOps(t, ops);
            && t.out <= r.out && |r.held| < 3
            && (ops != [] && ops[|ops| - 1].Flush? ==> r.held == [])
    decreases |ops|
  {
    hide Encode;
    if ops != [] {
      LittleIsHeld(if ops[0].Write? then AfterWrite(t, ops[0].bytes) else AfterFlush(t), ops[1..]);
    }
  }

  function Written(ops: seq<Op>): seq<byte> {
    if ops == [] then [] else (if ops[0].Write? then ops[0].bytes else []) + Written(ops[1..])
  }

  // The stream is a number of finished parts, whole groups of the current part, and the held bytes.
  ghost predicate Streams(t: TextStream, parts: seq<seq<byte>>, whole: seq<byte>, written: seq<byte>) {
    && |whole| % 3 == 0
    && t.out == EncodeParts(parts) + Encode(whole)
    && Flatten(parts) + whole + t.held == written
  }

  lemma WriteStreams(t: TextStream, bytes: seq<byte>, parts: seq<seq<byte>>, whole: seq<byte>, written: seq<byte>)
    returns (whole': seq<byte>)
    requires Streams(t, parts, whole, written)
    ensures Streams(AfterWrite(t, bytes), parts, whole', written + bytes)
  {
    hide Encode, EncodeParts, Flatten, Whole;
    var all := t.held + bytes;
    var now, held := all[..Whole(all)], all[Whole(all)..];
    whole' := whole + now;
    EncodeConcat(whole, now);
    assert now + held == all;
    assert EncodeParts(parts) + Encode(whole) + Encode(now) == EncodeParts(parts) + (Encode(whole) + Encode(now));
    assert Flatten(parts) + (whole + now) + held == Flatten(parts) + whole + t.held + bytes;
  }

  lemma FlushStreams(t: TextStream, parts: seq<seq<byte>>, whole: seq<byte>, written: seq<byte>)
    requires Streams(t, parts, whole, written)
    ensures Streams(AfterFlush(t), parts + [whole + t.held], [], written)
  {
    hide Encode, EncodeParts, Flatten;
    var part := whole + t.held;
    EncodeConcat(whole, t.held);
    EncodePartsSnoc(parts, part);
    EncodeNothing();
    FlattenSnoc(parts, part);
    assert EncodeParts(parts + [part]) + [] == EncodeParts(parts) + Encode(whole) + Encode(t.held);
    assert Flatten(parts + [part]) + [] + [] == written;
  }

  lemma {:induction false} OpsStream(t: TextStream, ops: seq<Op>, parts: seq<seq<byte>>, whole: seq<byte>,
                          written: seq<byte>)
    returns (parts': seq<seq<byte>>, whole': seq<byte>)
    requires Streams(t, parts, whole, written)
    ensures Streams(AfterOps(t, ops), parts', whole', written + Written(ops))
    decreases |ops|
  {
    hide Streams, AfterWrite, AfterFlush;
    if ops == [] {
      parts', whole' := parts, whole;
      assert written + [] == written;
    } else if ops[0].Write? {
      var whole1 := WriteStreams(t, ops[0].bytes, parts, whole, written);
      parts', whole' := OpsStream(AfterWrite(t, ops[0].bytes), ops[1..], parts, whole1, written + ops[0].bytes);
      assert written + ops[0].bytes + Written(ops[1..]) == written + Written(ops);
    } else {
      FlushStreams(t, parts, whole, written);
      parts', whole' := OpsStream(AfterFlush(t), ops[1..], parts + [whole + t.held], [], written);
      assert [] + Written(ops[1..]) == Written(ops[1..]);
    }
  }

  /** Text-mode round trip: for any sequence of writes and flushes that ends in a flush, wherever the
      flushes fall, decoding the body as several padded parts gives back the bytes written. */
  lemma TextRoundTrip(ops: seq<Op>)
    ensures DecodeParts(AfterOps(TextStream([], []), ops + [Flush]).out) == Some(Written(ops))
  {
    hide Encode, AfterOps, DecodeParts;
    var start := TextStream([], []);
    EncodeNothing();
    assert EncodeParts([]) + Encode([]) == [] && Flatten<byte>([]) + [] + [] == [];
    var parts, whole := OpsStream(start, ops, [], [], []);
    assert [] + Written(ops) == Written(ops);
    OpsSnoc(start, ops, Flush);
    var t := AfterOps(start, ops);
    FlushStreams(t, parts, whole, Written(ops));
    var all := parts + [whole + t.held];
    DecodeEncodedParts([], all);
    assert Encode([]) + EncodeParts(all) == EncodeParts(all) + Encode([]);
    assert [] + Flatten(all) == Flatten(all) + [] + [];
  }

  lemma {:induction false} OpsSnoc(t: TextStream, ops: seq<Op>, op: Op)
    ensures AfterOps(t, ops + [op])
         == if op.Write? then AfterWrite(AfterOps(t, ops), op.bytes) else AfterFlush(AfterOps(t, ops))
    decreases |ops|
  {
    hide AfterWrite, AfterFlush;
    if ops == [] {
      assert ops + [op] == [op] && [op][1..] == [];
    } else {
      assert (ops + [op])[1..] == ops[1..] + [op];
      OpsSnoc(if ops[0].Write? then AfterWrite(t, ops[0].bytes) else AfterFlush(t), ops[1..], op);
    }
  }

  lemma {:induction false} WrittenConcat(a: seq<Op>, b: seq<Op>)
    ensures Written(a + b) == Written(a) + Written(b)
  {
    if a == [] {
      assert a + b == b;
    } else {
      assert (a + b)[1..] == a[1..] + b;
      WrittenConcat(a[1..], b);
    }
  }
}
