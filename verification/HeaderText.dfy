/** Header and trailer blocks as text: one line a value, in the form of HTTP/1.1 headers. */
module HeaderText {
  import opened Bytes
  import opened Framing
  import opened ChunkParsing
  import opened ParserRuns

  type Field = (string, string)

  /** A header line, section 5 of RFC 9112. */
  function Line(field: Field): string { field.0 + ": " + field.1 + "\r\n" }

  function Lines(fields: seq<Field>): string {
    if fields == [] then "" else Line(fields[0]) + Lines(fields[1..])
  }

  /** Printable characters and tabs. */
  predicate IsPlain(s: string) { forall c | c in s :: ' ' <= c <= '~' || c == '\t' }

  ghost predicate ArePlain(fields: seq<Field>) { forall f | f in fields :: IsPlain(f.0) && IsPlain(f.1) }

  predicate OneByteEach(text: string) { forall i | 0 <= i < |text| :: text[i] as int < 0x100 }

  // The bytes of a text in ISO 8859-1, of which ASCII is the lower half.
  function CharBytes(text: string): (bytes: seq<byte>)
    requires OneByteEach(text)
    ensures |bytes| == |text|
  {
    seq(|text|, i requires 0 <= i < |text| => text[i] as int)
  }

  // What a block of lines consists of.
  predicate IsBlockChar(c: char) { ' ' <= c <= '~' || c == '\t' || c == '\r' || c == '\n' }

  lemma {:induction false} LinesChars(fields: seq<Field>)
    requires ArePlain(fields)
    ensures forall c | c in Lines(fields) :: IsBlockChar(c)
  {
    if fields != [] {
      assert fields[0] in fields && forall f | f in fields[1..] :: f in fields;
      LinesChars(fields[1..]);
      LineChars(fields[0]);
    }
  }

  lemma LineChars(field: Field)
    requires IsPlain(field.0) && IsPlain(field.1)
    ensures forall c | c in Line(field) :: IsBlockChar(c)
  {
    assert forall c | c in ": " + field.1 + "\r\n" :: c in ": " || c in field.1 || c in "\r\n";
  }

  /** Every block of header lines is a text that the client reads, carriage returns and line feeds included, and it
      reads that very text. */
  lemma LinesAreRead(fields: seq<Field>)
    requires ArePlain(fields)
    ensures OneByteEach(Lines(fields))
    ensures var bytes := CharBytes(Lines(fields)); ValidAscii(bytes) && AsciiText(bytes) == Lines(fields)
  {
    LinesChars(fields);
    var text := Lines(fields);
    assert forall i | 0 <= i < |text| :: text[i] in text;
  }

  /** Such a block passes the parser as what it says, in one chunk or cut anywhere. */
  lemma LinesPassTheParser(fields: seq<Field>, cuts: seq<seq<byte>>)
    requires ArePlain(fields) && |Lines(fields)| < UINT32_LIMIT
    requires OneByteEach(Lines(fields))
    requires Flatten(cuts) == EncodeFrame(Frame(0x80, CharBytes(Lines(fields))))
    ensures var r := ParseRun([], cuts);
            !r.threw && r.rest == [] && ChunksOf(r.frames) == [Trailers(Lines(fields))]
  {
    hide EncodeFrame, ParseRun, Lines, ArePlain;
    var block := Frame(0x80, CharBytes(Lines(fields)));
    LinesAreRead(fields);
    EncodeOne(block);
    AnyCuttingEmitsAll(cuts, [block]);
  }
}
