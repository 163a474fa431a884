/** Seeing the written text as lines: every piece the multipart writer emits is a list of CRLF-terminated lines. */
module MimeText {
  import opened Bytes
  import opened LineBreaks
  import opened Folding
  import opened MimeParser
  import opened HeaderEncoding
  import opened Mime
  import Base64

  /** `text` is exactly the lines, each followed by CRLF. */
  ghost predicate IsText(text: bytes, lines: seq<bytes>) {
    text == Terminated(lines, CRLF) && AllOneLine(lines)
  }

  lemma {:induction false} TextConcat(x: bytes, a: seq<bytes>, y: bytes, b: seq<bytes>)
    requires IsText(x, a) && IsText(y, b)
    ensures IsText(x + y, a + b)
  {
    TerminatedConcat(a, b, CRLF);
  }

  lemma {:induction false} TextLineIsText(line: bytes)
    requires OneLine(line)
    ensures IsText(line + CRLF, [line])
  {
    assert Terminated([line][1..], CRLF) == [];
    assert line + CRLF + [] == line + CRLF;
  }

  lemma {:induction false} BlankIsText()
    ensures IsText(CRLF, [[]])
  {
    TextLineIsText([]);
    assert [] + CRLF == CRLF;
  }

  /** Splitting a text gives its lines and an empty rest. */
  lemma {:induction false} LinesOfText(text: bytes, lines: seq<bytes>)
    requires IsText(text, lines)
    ensures CrlfLines(text) == lines + [[]]
    decreases |lines|
  {
    if lines == [] {
      assert [] + [[]] == CrlfLines([]);
    } else {
      var rest := Terminated(lines[1..], CRLF);
      LinesOfText(rest, lines[1..]);
      CrlfLinesStep(lines[0], rest);
      Assoc(lines[0], CRLF, rest);
      assert [lines[0]] + (lines[1..] + [[]]) == lines + [[]];
    }
  }

  // ----- header fields, possibly folded -----

  function FieldLines(fields: seq<bytes>): seq<bytes> {
    if fields == [] then [] else CrlfLines(fields[0]) + FieldLines(fields[1..])
  }

  lemma {:induction false} FieldIsText(field: bytes)
    requires FoldSafe(field)
    ensures IsText(field + CRLF, CrlfLines(field))
  {
    JoinOfLines(field);
    TerminatedIsJoin(CrlfLines(field), CRLF);
  }

  lemma {:induction false} FieldsAreText(fields: seq<bytes>)
    requires forall i :: 0 <= i < |fields| ==> FoldSafe(fields[i])
    ensures IsText(Terminated(fields, CRLF), FieldLines(fields))
  {
    if fields != [] {
      FieldIsText(fields[0]);
      FieldsAreText(fields[1..]);
      TextConcat(fields[0] + CRLF, CrlfLines(fields[0]), Terminated(fields[1..], CRLF), FieldLines(fields[1..]));
    }
  }

  /** A header field whose lines can be mistaken neither for a blank line nor for a delimiter. */
  ghost predicate GoodField(f: bytes) {
    FoldSafe(f) && CrlfLines(f)[0] != [] && CrlfLines(f)[0][0] != DASH
  }

  /** Lines that are neither blank nor start with a dash. */
  ghost predicate HeaderLike(lines: seq<bytes>) {
    forall i :: 0 <= i < |lines| ==> OneLine(lines[i]) && lines[i] != [] && lines[i][0] != DASH
  }

  lemma {:induction false} FieldLinesGood(fields: seq<bytes>)
    requires forall i :: 0 <= i < |fields| ==> GoodField(fields[i])
    ensures HeaderLike(FieldLines(fields))
  {
    if fields != [] {
      FieldLinesGood(fields[1..]);
      var l := CrlfLines(fields[0]);
      forall i | 0 <= i < |l| ensures OneLine(l[i]) && l[i] != [] && l[i][0] != DASH {
        assert GoodField(fields[0]);
      }
    }
  }

  lemma {:induction false} MakeGoodField(name: bytes, value: bytes)
    requires OneLine(name) && name != [] && name[0] != DASH && FoldSafe(value)
    ensures GoodField(Field(name, value))
    ensures CrlfLines(Field(name, value))[0] == Field(name, CrlfLines(value)[0])
  {
    FoldSafePrefix([58, SP], value);
    FoldSafePrefix(name, [58, SP] + value);
  }

  // ----- bodies -----

  function Chunked(content: bytes): seq<bytes> { Base64.Chunks(Base64.Encode(content), STD_LINE_LENGTH) }

  lemma {:induction false} PayloadIsText(content: bytes)
    ensures IsText(Payload(content), Chunked(content))
    ensures forall i :: 0 <= i < |Chunked(content)| ==> Chunked(content)[i] == [] || Chunked(content)[i][0] != DASH
  {
    Base64.EncodeAlphabet(content);
    Base64.ChunksAlphabet(Base64.Encode(content), STD_LINE_LENGTH);
  }

  /** No line of the payload has more than 76 bytes, the limit of section 6.8 of RFC 2045. */
  lemma {:induction false} PayloadWithin(content: bytes)
    ensures forall i :: 0 <= i < |CrlfLines(Payload(content))| ==> |CrlfLines(Payload(content))[i]| <= 76
  {
    PayloadIsText(content);
    LinesOfText(Payload(content), Chunked(content));
    Base64.ChunksFlatten(Base64.Encode(content), STD_LINE_LENGTH);
  }

  /** Blank lines after the payload do not change what it decodes to. */
  ghost predicate Blanks(lines: seq<bytes>) { forall i :: 0 <= i < |lines| ==> lines[i] == [] }

  lemma {:induction false} FlattenBlanks(lines: seq<bytes>)
    requires Blanks(lines)
    ensures Flatten(lines) == []
  {
    if lines != [] {
      FlattenBlanks(lines[1..]);
    }
  }

  lemma {:induction false} BodyDecodes(header: seq<bytes>, content: bytes, blanks: seq<bytes>)
    requires BASE64_LINE in header && Blanks(blanks)
    ensures DecodeBody(header, Chunked(content) + blanks) == Some(content)
  {
    FlattenConcat(Chunked(content), blanks);
    FlattenBlanks(blanks);
    Base64.ChunksFlatten(Base64.Encode(content), STD_LINE_LENGTH);
    Base64.DecodeEncode(content);
    assert Base64.Encode(content) + [] == Base64.Encode(content);
  }

  /** A leaf as lines: header, blank line, payload, trailing blank lines. */
  function LeafLines(header: seq<bytes>, content: bytes, blanks: seq<bytes>): seq<bytes> {
    header + ([[]] + (Chunked(content) + blanks))
  }

  /** A leaf parses back to its header and content, whatever boundary surrounds it. */
  lemma {:induction false} LeafParses(header: seq<bytes>, content: bytes, blanks: seq<bytes>, b: bytes)
    requires HeaderLike(header) && BASE64_LINE in header && BoundaryParameter(header) == None && Blanks(blanks)
    ensures ParseEntity(LeafLines(header, content, blanks)) == Some(Data(header, content))
    ensures NoDelimiter(LeafLines(header, content, blanks), b)
    ensures Dashed(LeafLines(header, content, blanks)) == []
  {
    BodyDecodes(header, content, blanks);
    PayloadIsText(content);
    DashedNone(LeafLines(header, content, blanks));
    ParseLeaf(header, Chunked(content) + blanks, content);
  }

  /** The text of a leaf after its delimiter. */
  lemma {:induction false} LeafIsText(fields: seq<bytes>, header: seq<bytes>, content: bytes)
    requires IsText(Terminated(fields, CRLF), header)
    ensures IsText(Terminated(fields, CRLF) + CRLF + Payload(content) + CRLF, LeafLines(header, content, [[]]))
    ensures IsText(Terminated(fields, CRLF) + CRLF + Payload(content), LeafLines(header, content, []))
  {
    var t := Terminated(fields, CRLF);
    BlankIsText();
    PayloadIsText(content);
    TextConcat(t, header, CRLF, [[]]);
    TextConcat(t + CRLF, header + [[]], Payload(content), Chunked(content));
    TextConcat(t + CRLF + Payload(content), header + [[]] + Chunked(content), CRLF, [[]]);
    assert header + [[]] + Chunked(content) + [[]] == LeafLines(header, content, [[]]);
    assert header + [[]] + Chunked(content) == LeafLines(header, content, []);
  }
}
