/** The multipart round trip: reading what `createBody` wrote gives back the message. */
module MimeRoundTrip {
  import opened Bytes
  import opened LineBreaks
  import opened Folding
  import opened MimeParser
  import opened HeaderEncoding
  import opened Mime
  import opened MimeText
  import opened MimeBody

  // ----- leaves -----

  /** Everything needed of the header of a leaf. */
  ghost predicate LeafHeader(header: seq<bytes>) {
    HeaderLike(header) && BASE64_LINE in header && BoundaryParameter(header) == None
  }

  lemma {:induction false} TransferEncodingName()
    ensures var n := Ascii("Content-Transfer-Encoding"); OneLine(n) && n != [] && n[0] != DASH
  {
    PlainOneLine("Content-Transfer-Encoding");
  }

  lemma {:induction false} FixedLines()
    ensures OneLine(CONTENT_TYPE) && CONTENT_TYPE != [] && CONTENT_TYPE[0] != DASH
    ensures OneLine(BASE64_LINE) && BASE64_LINE != [] && BASE64_LINE[0] != DASH
  {
    TransferEncodingName();
  }

  lemma {:induction false} DispositionNames(d: Disposition)
    ensures OneLine(DispositionName(d))
    ensures var n := Ascii("; filename="); OneLine(n) && n != [] && n[0] == 59
  {
    PlainOneLine("; filename=");
    PlainOneLine("inline");
    PlainOneLine("attachment");
  }

  lemma {:induction false} DispositionFieldName()
    ensures var n := Ascii("Content-Disposition"); OneLine(n) && n != [] && n[0] != DASH
  {
    PlainOneLine("Content-Disposition");
  }

  lemma {:induction false} CharsetSuffix(charSet: bytes)
    requires OneLine(charSet)
    ensures var suffix := Ascii("; charset=") + charSet; OneLine(suffix) && suffix != [] && suffix[0] == 59
  {
    PlainOneLine("; charset=");
  }

  lemma {:induction false} TypeLine(t: bytes)
    requires OneLine(t)
    ensures var f := Field(CONTENT_TYPE, t); OneLine(f) && f != [] && f[0] != DASH
  {
    FixedLines();
  }

  lemma {:induction false} TextHeaderIsLeaf(contentType: bytes, charSet: bytes)
    requires LeafType(contentType) && OneLine(charSet)
    ensures var h := TextHeader(contentType, charSet); LeafHeader(h) && IsText(Terminated(h, CRLF), h)
  {
    var suffix := Ascii("; charset=") + charSet;
    CharsetSuffix(charSet);
    FixedLines();
    TypeLine(contentType + suffix);
    LeafTypeField(contentType, suffix);
    hide Ascii, Field, Terminated;
    var h := TextHeader(contentType, charSet);
    assert h[1] == BASE64_LINE;
  }

  lemma {:induction false} ParameterFoldSafe(value: bytes, name: bytes, p: Option<bytes>)
    requires OneLine(value) && OneLine(name) && name != [] && name[0] == 59 && GoodParameter(p)
    ensures FoldSafe(WithParameter(value, name, p))
    ensures exists suffix: bytes ::
      (suffix == [] || suffix[0] == 59) && CrlfLines(WithParameter(value, name, p))[0] == value + suffix
  {
    match p {
      case None =>
        OneLineIsFoldSafe(value);
        assert CrlfLines(value)[0] == value + [];
      case Some(v) =>
        FoldSafePrefix(name, v);
        FoldSafePrefix(value, name + v);
        var first := CrlfLines(v)[0];
        assert (name + first)[0] == 59;
        assert CrlfLines(value + (name + v))[0] == value + (name + first);
    }
  }

  lemma {:induction false} ContentIdName()
    ensures var n := Ascii("Content-ID"); OneLine(n) && n != [] && n[0] != DASH
  {
    PlainOneLine("Content-ID");
  }

  lemma {:induction false} CidFieldGood(a: Attachment)
    requires FoldSafe(a.cidValue)
    ensures GoodField(Field(Ascii("Content-ID"), [60] + (a.cidValue + [62])))
  {
    ContentIdName();
    assert OneLine([60]) && OneLine([62]);
    hide Ascii, OneLine, FoldSafe, GoodField, CrlfLines, Field;
    FoldSafeSuffix(a.cidValue, [62]);
    FoldSafePrefix([60], a.cidValue + [62]);
    MakeGoodField(Ascii("Content-ID"), [60] + (a.cidValue + [62]));
  }

  lemma {:induction false} DispositionFieldGood(a: Attachment)
    requires GoodParameter(a.fileParameter)
    ensures GoodField(Field(Ascii("Content-Disposition"),
                            WithParameter(DispositionName(a.entry.disposition), Ascii("; filename="), a.fileParameter)))
  {
    var value := WithParameter(DispositionName(a.entry.disposition), Ascii("; filename="), a.fileParameter);
    DispositionNames(a.entry.disposition);
    DispositionFieldName();
    hide Ascii, OneLine, FoldSafe, GoodField, CrlfLines, Field, DispositionName;
    ParameterFoldSafe(DispositionName(a.entry.disposition), Ascii("; filename="), a.fileParameter);
    MakeGoodField(Ascii("Content-Disposition"), value);
  }

  lemma {:induction false} TypeFieldGood(a: Attachment)
    requires LeafType(a.entry.mimeType) && GoodParameter(a.nameParameter)
    ensures var f := Field(CONTENT_TYPE, WithParameter(a.entry.mimeType, Ascii("; name="), a.nameParameter));
      GoodField(f) && !StartsLike(CrlfLines(f)[0], Field(CONTENT_TYPE, MULTIPART))
  {
    var value := WithParameter(a.entry.mimeType, Ascii("; name="), a.nameParameter);
    ParameterFoldSafe(a.entry.mimeType, Ascii("; name="), a.nameParameter);
    FixedLines();
    MakeGoodField(CONTENT_TYPE, value);
    var suffix: bytes :| (suffix == [] || suffix[0] == 59) && CrlfLines(value)[0] == a.entry.mimeType + suffix;
    LeafTypeField(a.entry.mimeType, suffix);
  }

  lemma {:induction false} Base64LineGood()
    ensures GoodField(BASE64_LINE) && CrlfLines(BASE64_LINE) == [BASE64_LINE]
  {
    FixedLines();
    OneLineIsFoldSafe(BASE64_LINE);
  }

  lemma {:induction false} AttachmentFieldsGood(a: Attachment)
    requires ValidAttachment(a)
    ensures var fields := AttachmentFields(a);
      && |fields| >= 2 && fields[1] == BASE64_LINE
      && (forall i :: 0 <= i < |fields| ==> GoodField(fields[i]))
      && !StartsLike(CrlfLines(fields[0])[0], Field(CONTENT_TYPE, MULTIPART))
  {
    hide Ascii, OneLine, FoldSafe, DispositionName, WithParameter, Field, GoodField, CrlfLines, LeafType, GoodParameter;
    TypeFieldGood(a);
    if HasContentId(a.entry) {
      CidFieldGood(a);
    }
    DispositionFieldGood(a);
    Base64LineGood();
  }

  /** The header of an attachment: never blank, never a delimiter, base64, not multipart. */
  lemma {:induction false} AttachmentHeaderIsLeaf(a: Attachment)
    requires ValidAttachment(a)
    ensures var h := FieldLines(AttachmentFields(a)); LeafHeader(h) && IsText(Terminated(AttachmentFields(a), CRLF), h)
  {
    var fields := AttachmentFields(a);
    AttachmentFieldsGood(a);
    Base64LineGood();
    hide AttachmentFields, Ascii, Field;
    FieldLinesGood(fields);
    FieldsAreText(fields);
    LeafLinesOfFields(fields);
  }

  /** The lines start with the first line of the first field, and a second field of one line is among them. */
  lemma {:induction false} LeafLinesOfFields(fields: seq<bytes>)
    requires |fields| >= 2 && CrlfLines(fields[1]) == [fields[1]]
    ensures FieldLines(fields) != [] && FieldLines(fields)[0] == CrlfLines(fields[0])[0]
    ensures fields[1] in FieldLines(fields)
  {
    assert fields[1..][0] == fields[1];
    assert FieldLines(fields[1..])[0] == fields[1];
    assert FieldLines(fields)[|CrlfLines(fields[0])|] == fields[1];
  }

  // ----- layouts -----

  /** The entity parses to `p`, holds no delimiter of the first `n` boundaries, and no line of it begins with a dash
      but the delimiters of its own nested groups. */
  ghost predicate Placed(id: bytes, n: nat, e: seq<bytes>, p: Part)
    requires n <= 3
  {
    && ParseEntity(e) == Some(p)
    && Dashed(e) == PartFrame(p)
    && forall k: byte :: 49 <= k < 49 + n ==> NoDelimiter(e, Boundary(k, id))
  }

  ghost predicate Layout(id: bytes, n: nat, entities: seq<seq<bytes>>, parts: seq<Part>)
    requires n <= 3
  {
    |entities| == |parts| && forall i :: 0 <= i < |entities| ==> Placed(id, n, entities[i], parts[i])
  }

  lemma {:induction false} LayoutConcat(id: bytes, n: nat, e: seq<seq<bytes>>, p: seq<Part>, f: seq<seq<bytes>>, q: seq<Part>)
    requires n <= 3 && Layout(id, n, e, p) && Layout(id, n, f, q)
    ensures Layout(id, n, e + f, p + q)
  {
    hide Placed;
  }

  lemma {:induction false} LayoutLeaf(id: bytes, n: nat, header: seq<bytes>, content: bytes, blanks: seq<bytes>)
    requires n <= 3 && LeafHeader(header) && Blanks(blanks)
    ensures Layout(id, n, [LeafLines(header, content, blanks)], [Data(header, content)])
  {
    LeafParses(header, content, blanks, []);
    forall k: byte | 49 <= k < 49 + n ensures NoDelimiter(LeafLines(header, content, blanks), Boundary(k, id)) {
      LeafParses(header, content, blanks, Boundary(k, id));
    }
  }

  lemma {:induction false} BoundariesDiffer(id: bytes, k: byte, l: byte)
    requires k != l
    ensures !IsDelimiter(Delimiter(Boundary(l, id)), Boundary(k, id))
    ensures !IsDelimiter(CloseDelimiter(Boundary(l, id)), Boundary(k, id))
  {
    assert Delimiter(Boundary(k, id))[3] == k;
    assert Delimiter(Boundary(l, id))[3] == l && CloseDelimiter(Boundary(l, id))[3] == l;
  }

  /** Sections of one boundary hold no delimiter of another. */
  lemma {:induction false} SectionsQuiet(id: bytes, k: byte, l: byte, entities: seq<seq<bytes>>, tail: seq<bytes>)
    requires k != l && Blanks(tail)
    requires forall i :: 0 <= i < |entities| ==> NoDelimiter(entities[i], Boundary(k, id))
    ensures NoDelimiter(Sections(Boundary(l, id), entities, tail), Boundary(k, id))
  {
    BoundariesDiffer(id, k, l);
    if entities != [] {
      SectionsQuiet(id, k, l, entities[1..], tail);
    }
  }

  lemma {:induction false} GroupQuiet(header: seq<bytes>, body: seq<bytes>, b: bytes)
    requires HeaderLike(header) && NoDelimiter(body, b)
    ensures NoDelimiter(header + ([[]] + body), b)
  {
    var e := header + ([[]] + body);
    forall i | 0 <= i < |e| ensures !IsDelimiter(e[i], b) {
      if i < |header| {
        assert e[i] == header[i];
      } else if i > |header| {
        assert e[i] == body[i - |header| - 1];
      }
    }
  }

  lemma {:induction false} GroupDashes(header: seq<bytes>, b: bytes, entities: seq<seq<bytes>>, parts: seq<Part>,
                                       tail: seq<bytes>)
    requires HeaderLike(header) && BoundaryParameter(header) == Some(b) && Blanks(tail) && |entities| == |parts|
    requires forall i :: 0 <= i < |entities| ==> Dashed(entities[i]) == PartFrame(parts[i])
    ensures Dashed(header + ([[]] + Sections(b, entities, tail))) == PartFrame(Group(header, parts))
  {
    var s := Sections(b, entities, tail);
    DashedNone(tail);
    DashedSections(b, entities, tail, parts);
    DashedNone(header);
    DashedConcat(header, [[]] + s);
    assert ([[]] + s)[1..] == s;
  }

  lemma {:induction false} PlacedFacts(id: bytes, n: nat, entities: seq<seq<bytes>>, parts: seq<Part>, k: byte)
    requires n <= 3 && Layout(id, n, entities, parts) && 49 <= k < 49 + n
    ensures forall i :: 0 <= i < |entities| ==>
      NoDelimiter(entities[i], Boundary(k, id)) && ParseEntity(entities[i]) == Some(parts[i])
    ensures forall i :: 0 <= i < |entities| ==> Dashed(entities[i]) == PartFrame(parts[i])
  {
    hide ParseEntity, NoDelimiter, Dashed, PartFrame, Boundary;
    forall i | 0 <= i < |entities|
      ensures NoDelimiter(entities[i], Boundary(k, id)) && ParseEntity(entities[i]) == Some(parts[i])
      ensures Dashed(entities[i]) == PartFrame(parts[i])
    {
      assert Placed(id, n, entities[i], parts[i]);
    }
  }

  lemma {:induction false} OneEntity(id: bytes, n: nat, e: seq<bytes>, p: Part)
    requires n <= 3 && Placed(id, n, e, p)
    ensures Layout(id, n, [e], [p])
  {
  }

  /** A group nested at level `n` is one entity of the level above. */
  lemma {:induction false} LayoutGroup(id: bytes, n: nat, header: seq<bytes>, entities: seq<seq<bytes>>,
                                       parts: seq<Part>, tail: seq<bytes>)
    requires 1 <= n <= 2 && Layout(id, n + 1, entities, parts) && Blanks(tail)
    requires HeaderLike(header) && BoundaryParameter(header) == Some(Boundary(49 + n, id))
    ensures Layout(id, n, [header + ([[]] + Sections(Boundary(49 + n, id), entities, tail))], [Group(header, parts)])
  {
    var b := Boundary(49 + n, id);
    var e := header + ([[]] + Sections(b, entities, tail));
    assert |entities| == |parts| && [] !in header;
    PlacedFacts(id, n + 1, entities, parts, 49 + n);
    hide Layout, ParseEntity, ParseParts, Sections, Dashed, PartFrame, Frame, HeaderLike, Blanks, NoDelimiter, BoundaryParameter,
         Boundary;
    ParseSections(b, entities, tail, parts);
    ParseGroup(header, Sections(b, entities, tail), b, parts);
    GroupDashes(header, b, entities, parts, tail);
    forall k: byte | 49 <= k < 49 + n ensures NoDelimiter(e, Boundary(k, id)) {
      PlacedFacts(id, n + 1, entities, parts, k);
      SectionsQuiet(id, k, 49 + n, entities, tail);
      GroupQuiet(header, Sections(b, entities, tail), Boundary(k, id));
    }
    OneEntity(id, n, e, Group(header, parts));
  }

  lemma {:induction false} LayoutParses(id: bytes, entities: seq<seq<bytes>>, parts: seq<Part>, tail: seq<bytes>)
    requires Layout(id, 1, entities, parts) && Dashed(tail) == []
    ensures ParseParts(Sections(Boundary(49, id), entities, tail), Boundary(49, id)) == Some(parts)
    ensures Dashed(Sections(Boundary(49, id), entities, tail)) == Frame(Boundary(49, id), parts)
  {
    DashedSections(Boundary(49, id), entities, tail, parts);
    ParseSections(Boundary(49, id), entities, tail, parts);
  }

  // ----- multipart headers -----

  lemma {:induction false} BoundaryLine(id: bytes, k: byte, end: bytes)
    requires OneLine(id) && QUOTE !in id && !IsBreak(k) && k != QUOTE && OneLine(end) && QUOTE !in end
    ensures var line := BOUNDARY_PARAMETER + (Boundary(k, id) + ([QUOTE] + end));
      && OneLine(line) && line[0] == SP
      && FindBoundary([line]) == Some(Boundary(k, id))
  {
    var b := Boundary(k, id);
    var v := b + ([QUOTE] + end);
    var line := BOUNDARY_PARAMETER + v;
    assert line[|BOUNDARY_PARAMETER|..] == v;
    assert QUOTE !in b;
    assert v[|b|] == QUOTE;
    assert IndexOf(v, QUOTE) == |b|;
    assert v[..|b|] == b;
    assert OneLine(BOUNDARY_PARAMETER);
  }

  lemma {:induction false} TypeParameter()
    ensures var line := Ascii(" type=\"text/html\""); OneLine(line) && line != [] && line[0] == SP
  {
    PlainOneLine(" type=\"text/html\"");
  }

  lemma {:induction false} RelatedHeaderGood(id: bytes, k: byte)
    requires OneLine(id) && QUOTE !in id && 49 <= k <= 51
    ensures var h := RelatedHeader(Boundary(k, id));
      HeaderLike(h) && BoundaryParameter(h) == Some(Boundary(k, id)) && IsText(Terminated(h, CRLF), h)
  {
    var b := Boundary(k, id);
    var h := RelatedHeader(b);
    BoundaryLine(id, k, [59]);
    assert [QUOTE] + [59] == [QUOTE, 59];
    MultipartField(Ascii("related;"));
    TypeParameter();
    assert h[1..][0] == h[1];
    assert FindBoundary(h[1..]) == FindBoundary([h[1]]);
  }

  lemma {:induction false} AlternativeHeaderGood(id: bytes, k: byte)
    requires OneLine(id) && QUOTE !in id && 49 <= k <= 51
    ensures var h := AlternativeHeader(Boundary(k, id));
      HeaderLike(h) && BoundaryParameter(h) == Some(Boundary(k, id)) && IsText(Terminated(h, CRLF), h)
  {
    var b := Boundary(k, id);
    var h := AlternativeHeader(b);
    BoundaryLine(id, k, []);
    assert [QUOTE] + [] == [QUOTE];
    MultipartField(Ascii("alternative;"));
    assert h[1..] == [h[1]];
  }

  lemma {:induction false} MultipartField(sub: bytes)
    requires OneLine(sub)
    ensures var f := Field(CONTENT_TYPE, MULTIPART + sub);
      OneLine(f) && f != [] && f[0] != DASH && StartsLike(f, Field(CONTENT_TYPE, MULTIPART))
  {
    FixedLines();
    assert OneLine(MULTIPART);
    assert Field(CONTENT_TYPE, MULTIPART + sub) == Field(CONTENT_TYPE, MULTIPART) + sub;
    LowerConcat(Field(CONTENT_TYPE, MULTIPART), sub);
  }

  // ----- putting texts together -----

  /** `text` writes `parts` under the n-th boundary: sections that parse to them, then the close delimiter. */
  ghost predicate Written(text: bytes, id: bytes, n: nat, parts: seq<Part>)
    requires 1 <= n <= 3
  {
    exists entities :: Layout(id, n, entities, parts) && IsText(text, Sections(Boundary(48 + n, id), entities, []))
  }

  lemma {:induction false} ReadWritten(text: bytes, id: bytes, parts: seq<Part>)
    requires Written(text, id, 1, parts)
    ensures ParseParts(CrlfLines(text), Boundary(49, id)) == Some(parts)
    ensures Dashed(CrlfLines(text)) == Frame(Boundary(49, id), parts)
  {
    var entities :| Layout(id, 1, entities, parts) && IsText(text, Sections(Boundary(49, id), entities, []));
    LinesOfText(text, Sections(Boundary(49, id), entities, []));
    SectionsTail(Boundary(49, id), entities, [], [[]]);
    DashedNone([] + [[]]);
    LayoutParses(id, entities, parts, [] + [[]]);
  }

  lemma {:induction false} DelimitersOneLine(id: bytes, k: byte)
    requires OneLine(id) && 49 <= k <= 51
    ensures OneLine(Delimiter(Boundary(k, id))) && OneLine(CloseDelimiter(Boundary(k, id)))
  {
  }

  /** A delimiter line and an entity in front of sections make one section more. */
  lemma {:induction false} ConsText(x: bytes, e: seq<bytes>, y: bytes, b: bytes, entities: seq<seq<bytes>>, tail: seq<bytes>)
    requires IsText(x, [Delimiter(b)] + e) && IsText(y, Sections(b, entities, tail))
    ensures IsText(x + y, Sections(b, [e] + entities, tail))
  {
    TextConcat(x, [Delimiter(b)] + e, y, Sections(b, entities, tail));
    assert ([e] + entities)[1..] == entities;
    Assoc([Delimiter(b)], e, Sections(b, entities, tail));
  }

  lemma {:induction false} CloseIsText(id: bytes, k: byte)
    requires OneLine(id) && 49 <= k <= 51
    ensures IsText(TextLine(CloseDelimiter(Boundary(k, id))), Sections(Boundary(k, id), [], []))
  {
    DelimitersOneLine(id, k);
    TextLineIsText(CloseDelimiter(Boundary(k, id)));
  }

  lemma {:induction false} EndIsText(id: bytes, k: byte)
    requires OneLine(id) && 49 <= k <= 51
    ensures IsText(EndBoundary(Boundary(k, id)), [[]] + Sections(Boundary(k, id), [], []))
    ensures IsText(CRLF + EndBoundary(Boundary(k, id)), [[], []] + Sections(Boundary(k, id), [], []))
  {
    var b := Boundary(k, id);
    CloseIsText(id, k);
    BlankIsText();
    TextConcat(CRLF, [[]], TextLine(CloseDelimiter(b)), Sections(b, [], []));
    TextConcat(CRLF, [[]], EndBoundary(b), [[]] + Sections(b, [], []));
    assert [[]] + ([[]] + Sections(b, [], [])) == [[], []] + Sections(b, [], []);
  }

  /** A leaf with its delimiter line in front. */
  lemma {:induction false} LeafSection(id: bytes, k: byte, fields: seq<bytes>, header: seq<bytes>, content: bytes)
    requires OneLine(id) && 49 <= k <= 51 && IsText(Terminated(fields, CRLF), header)
    ensures var d := TextLine(Delimiter(Boundary(k, id))); var t := Terminated(fields, CRLF);
      && IsText(d + t + CRLF + Payload(content) + CRLF, [Delimiter(Boundary(k, id))] + LeafLines(header, content, [[]]))
      && IsText(d + t + CRLF + Payload(content), [Delimiter(Boundary(k, id))] + LeafLines(header, content, []))
  {
    var b := Boundary(k, id);
    var d, t := TextLine(Delimiter(b)), Terminated(fields, CRLF);
    DelimitersOneLine(id, k);
    TextLineIsText(Delimiter(b));
    LeafIsText(fields, header, content);
    TextConcat(d, [Delimiter(b)], t + CRLF + Payload(content) + CRLF, LeafLines(header, content, [[]]));
    TextConcat(d, [Delimiter(b)], t + CRLF + Payload(content), LeafLines(header, content, []));
    assert d + (t + CRLF + Payload(content) + CRLF) == d + t + CRLF + Payload(content) + CRLF;
    assert d + (t + CRLF + Payload(content)) == d + t + CRLF + Payload(content);
  }

  /** A leaf in front of written parts. */
  lemma {:induction false} ConsLeaf(x: bytes, header: seq<bytes>, content: bytes, y: bytes, id: bytes, n: nat, parts: seq<Part>)
    requires 1 <= n <= 3 && LeafHeader(header)
    requires IsText(x, [Delimiter(Boundary(48 + n, id))] + LeafLines(header, content, [[]]))
    requires Written(y, id, n, parts)
    ensures Written(x + y, id, n, [Data(header, content)] + parts)
  {
    var b := Boundary(48 + n, id);
    var entities :| Layout(id, n, entities, parts) && IsText(y, Sections(b, entities, []));
    var e := LeafLines(header, content, [[]]);
    LayoutLeaf(id, n, header, content, [[]]);
    LayoutConcat(id, n, [e], [Data(header, content)], entities, parts);
    ConsText(x, e, y, b, entities, []);
  }

  /** A leaf followed by the end boundary; the break in front of the boundary becomes one blank line more. */
  lemma {:induction false} LastLeaf(x: bytes, header: seq<bytes>, content: bytes, blanks: seq<bytes>, id: bytes, n: nat)
    requires 1 <= n <= 3 && LeafHeader(header) && OneLine(id) && Blanks(blanks)
    requires IsText(x, [Delimiter(Boundary(48 + n, id))] + LeafLines(header, content, blanks))
    ensures Written(x + EndBoundary(Boundary(48 + n, id)), id, n, [Data(header, content)])
  {
    var b := Boundary(48 + n, id);
    var e := LeafLines(header, content, blanks + [[]]);
    LayoutLeaf(id, n, header, content, blanks + [[]]);
    EndIsText(id, 48 + n);
    TextConcat(x, [Delimiter(b)] + LeafLines(header, content, blanks), EndBoundary(b), [[]] + Sections(b, [], []));
    LeafBlank(header, content, blanks, [Delimiter(b)], Sections(b, [], []));
    var es: seq<seq<bytes>> := [e];
    assert es[1..] == [];
  }

  lemma {:induction false} LeafBlank(header: seq<bytes>, content: bytes, blanks: seq<bytes>, d: seq<bytes>, s: seq<bytes>)
    ensures d + LeafLines(header, content, blanks) + ([[]] + s) == d + (LeafLines(header, content, blanks + [[]]) + s)
  {
  }

  lemma {:induction false} OpenGroupIsText(id: bytes, k: byte, header: seq<bytes>)
    requires OneLine(id) && 49 <= k <= 51 && IsText(Terminated(header, CRLF), header)
    ensures IsText(OpenGroup(Boundary(k, id), header), [Delimiter(Boundary(k, id))] + (header + [[]]))
  {
    var b := Boundary(k, id);
    DelimitersOneLine(id, k);
    TextLineIsText(Delimiter(b));
    BlankIsText();
    TextConcat(TextLine(Delimiter(b)), [Delimiter(b)], Terminated(header, CRLF), header);
    TextConcat(TextLine(Delimiter(b)) + Terminated(header, CRLF), [Delimiter(b)] + header, CRLF, [[]]);
    Assoc([Delimiter(b)], header, [[]]);
  }

  ghost predicate GroupHeader(header: seq<bytes>, b: bytes) {
    HeaderLike(header) && BoundaryParameter(header) == Some(b) && IsText(Terminated(header, CRLF), header)
  }

  /** A nested group, some blank lines, and written parts after it. */
  lemma {:induction false} ConsGroup(header: seq<bytes>, y: bytes, inner: seq<Part>, zw: bytes, blanks: seq<bytes>,
                                     entities: seq<seq<bytes>>, parts: seq<Part>, id: bytes, n: nat)
    requires 1 <= n <= 2 && OneLine(id) && GroupHeader(header, Boundary(49 + n, id)) && Blanks(blanks)
    requires Written(y, id, n + 1, inner)
    requires Layout(id, n, entities, parts) && IsText(zw, blanks + Sections(Boundary(48 + n, id), entities, []))
    ensures Written(OpenGroup(Boundary(48 + n, id), header) + (y + zw), id, n, [Group(header, inner)] + parts)
  {
    hide IsText, Layout, OpenGroup, Sections, HeaderLike, BoundaryParameter;
    var b, bi := Boundary(48 + n, id), Boundary(49 + n, id);
    var es :| Layout(id, n + 1, es, inner) && IsText(y, Sections(bi, es, []));
    var e := header + ([[]] + Sections(bi, es, blanks));
    LayoutGroup(id, n, header, es, inner, blanks);
    LayoutConcat(id, n, [e], [Group(header, inner)], entities, parts);
    GroupText(id, 48 + n, header, y, bi, es, zw, blanks, entities);
  }

  lemma {:induction false} GroupText(id: bytes, k: byte, header: seq<bytes>, y: bytes, bi: bytes, es: seq<seq<bytes>>,
                                     zw: bytes, blanks: seq<bytes>, entities: seq<seq<bytes>>)
    requires OneLine(id) && 49 <= k <= 51 && IsText(Terminated(header, CRLF), header)
    requires IsText(y, Sections(bi, es, [])) && IsText(zw, blanks + Sections(Boundary(k, id), entities, []))
    ensures IsText(OpenGroup(Boundary(k, id), header) + (y + zw),
                   Sections(Boundary(k, id), [header + ([[]] + Sections(bi, es, blanks))] + entities, []))
  {
    var b := Boundary(k, id);
    var e := header + ([[]] + Sections(bi, es, blanks));
    OpenGroupIsText(id, k, header);
    SectionsTail(bi, es, [], blanks);
    assert [] + blanks == blanks;
    TextConcat(y, Sections(bi, es, []), zw, blanks + Sections(b, entities, []));
    TextConcat(OpenGroup(b, header), [Delimiter(b)] + (header + [[]]), y + zw,
               Sections(bi, es, []) + (blanks + Sections(b, entities, [])));
    GroupLines([Delimiter(b)], header, Sections(bi, es, []), blanks, Sections(b, entities, []));
    assert ([e] + entities)[1..] == entities;
  }

  lemma {:induction false} GroupLines(d: seq<bytes>, header: seq<bytes>, s: seq<bytes>, blanks: seq<bytes>, t: seq<bytes>)
    ensures d + (header + [[]]) + (s + (blanks + t)) == d + ((header + ([[]] + (s + blanks))) + t)
  {
  }

  // ----- attachments -----

  lemma {:induction false} AttachmentsWritten(atts: seq<Attachment>, id: bytes, n: nat)
    requires 1 <= n <= 3 && OneLine(id) && AllValid(atts)
    ensures var b := Boundary(48 + n, id);
      Written(AttachmentTexts(b, atts) + TextLine(CloseDelimiter(b)), id, n, AttachmentParts(atts))
  {
    hide Written, AttachmentText, AttachmentData, ValidAttachment, Boundary, OneLine;
    var b := Boundary(48 + n, id);
    var close := TextLine(CloseDelimiter(b));
    if atts == [] {
      NothingWritten(id, n);
      assert [] + close == close;
      assert AttachmentParts(atts) == [];
    } else {
      var a, more := atts[0], AttachmentTexts(b, atts[1..]);
      AttachmentsWritten(atts[1..], id, n);
      ConsAttachment(a, id, n, more + close, AttachmentParts(atts[1..]));
      Assoc(AttachmentText(b, a), more, close);
      assert [AttachmentData(a)] + AttachmentParts(atts[1..]) == AttachmentParts(atts);
    }
  }

  lemma {:induction false} NothingWritten(id: bytes, n: nat)
    requires 1 <= n <= 3 && OneLine(id)
    ensures Written(TextLine(CloseDelimiter(Boundary(48 + n, id))), id, n, [])
  {
    CloseIsText(id, 48 + n);
    assert Layout(id, n, [], []);
  }

  lemma {:induction false} AttachmentSection(a: Attachment, id: bytes, k: byte, header: seq<bytes>)
    requires OneLine(id) && 49 <= k <= 51 && header == FieldLines(AttachmentFields(a))
    requires IsText(Terminated(AttachmentFields(a), CRLF), header)
    ensures IsText(AttachmentText(Boundary(k, id), a),
                   [Delimiter(Boundary(k, id))] + LeafLines(header, a.content, [[]]))
  {
    hide LeafLines, AttachmentFields, FieldLines, IsText, Payload, OneLine, Boundary, Terminated;
    LeafSection(id, k, AttachmentFields(a), header, a.content);
  }

  lemma {:induction false} ConsAttachment(a: Attachment, id: bytes, n: nat, y: bytes, parts: seq<Part>)
    requires 1 <= n <= 3 && OneLine(id) && ValidAttachment(a) && Written(y, id, n, parts)
    ensures Written(AttachmentText(Boundary(48 + n, id), a) + y, id, n, [AttachmentData(a)] + parts)
  {
    hide *;
    var header := FieldLines(AttachmentFields(a));
    AttachmentHeaderIsLeaf(a);
    AttachmentSection(a, id, 48 + n, header);
    ConsLeaf(AttachmentText(Boundary(48 + n, id), a), header, a.content, y, id, n, parts);
    AttachmentDataIs(a, header);
  }

  lemma {:induction false} AttachmentDataIs(a: Attachment, header: seq<bytes>)
    requires header == FieldLines(AttachmentFields(a))
    ensures AttachmentData(a) == Data(header, a.content)
  {
  }

  lemma {:induction false} AttachAllWritten(m: Message, d: Disposition, n: nat)
    requires 1 <= n <= 3 && ValidMessage(m)
    ensures Written(AttachAllText(m.attachments, d, Boundary(48 + n, m.id)), m.id, n,
                    AttachmentParts(Selected(m.attachments, d)))
  {
    AttachmentsWritten(Selected(m.attachments, d), m.id, n);
  }

  // ----- text parts -----

  lemma {:induction false} TextPartSection(m: Message, n: nat, contentType: bytes, content: bytes)
    requires 1 <= n <= 3 && ValidMessage(m) && LeafType(contentType)
    ensures var b := Boundary(48 + n, m.id); var h := TextHeader(contentType, m.charSet);
      && LeafHeader(h)
      && IsText(TextPart(b, m.charSet, contentType, content), [Delimiter(b)] + LeafLines(h, content, [[]]))
      && IsText(GetBoundary(b, m.charSet, contentType) + Payload(content), [Delimiter(b)] + LeafLines(h, content, []))
  {
    TextHeaderIsLeaf(contentType, m.charSet);
    var h := TextHeader(contentType, m.charSet);
    LeafSection(m.id, 48 + n, h, h, content);
  }

  lemma {:induction false} ConsTextPart(m: Message, n: nat, contentType: bytes, content: bytes, y: bytes, parts: seq<Part>)
    requires 1 <= n <= 3 && ValidMessage(m) && LeafType(contentType) && Written(y, m.id, n, parts)
    ensures Written(TextPart(Boundary(48 + n, m.id), m.charSet, contentType, content) + y, m.id, n,
                    [TextData(m, contentType, content)] + parts)
  {
    TextPartSection(m, n, contentType, content);
    ConsLeaf(TextPart(Boundary(48 + n, m.id), m.charSet, contentType, content),
             TextHeader(contentType, m.charSet), content, y, m.id, n, parts);
  }

  lemma {:induction false} LastTextPart(m: Message, n: nat, contentType: bytes, content: bytes)
    requires 1 <= n <= 3 && ValidMessage(m) && LeafType(contentType)
    ensures var b := Boundary(48 + n, m.id); var p := [TextData(m, contentType, content)];
      && Written(TextPart(b, m.charSet, contentType, content) + EndBoundary(b), m.id, n, p)
      && Written(GetBoundary(b, m.charSet, contentType) + Payload(content) + EndBoundary(b), m.id, n, p)
  {
    var b, h := Boundary(48 + n, m.id), TextHeader(contentType, m.charSet);
    TextPartSection(m, n, contentType, content);
    LastLeaf(TextPart(b, m.charSet, contentType, content), h, content, [[]], m.id, n);
    LastLeaf(GetBoundary(b, m.charSet, contentType) + Payload(content), h, content, [], m.id, n);
  }

  lemma {:induction false} FirstByteLeaf(t: bytes)
    requires OneLine(t) && t != [] && t[0] == 116
    ensures LeafType(t)
  {
    assert Lower(MULTIPART)[0] == LowerByte(MULTIPART[0]) == 109;
    assert Lower(t)[0] == 116;
  }

  lemma {:induction false} FixedTypes(m: Message)
    ensures LeafType(PLAIN) && LeafType(HTML) && LeafType(IcalType(m))
  {
    FirstByteLeaf(PLAIN);
    FirstByteLeaf(HTML);
    IcalMethodsOneLine();
    IcalMethodOneLine(m.ical, ICAL_METHODS);
    CalendarPrefix();
    FirstByteLeaf(IcalType(m));
  }

  lemma {:induction false} CalendarPrefix()
    ensures var t := Ascii("text/calendar; method="); OneLine(t) && t != [] && t[0] == 116
  {
    PlainOneLine("text/calendar; method=");
  }

  lemma {:induction false} RequestWords()
    ensures OneLine(Ascii("REQUEST")) && OneLine(Ascii("PUBLISH")) && OneLine(Ascii("REPLY")) && OneLine(Ascii("ADD"))
  {
    PlainOneLine("REQUEST");
    PlainOneLine("PUBLISH");
    PlainOneLine("REPLY");
    PlainOneLine("ADD");
  }

  lemma {:induction false} CancelWords()
    ensures OneLine(Ascii("CANCEL")) && OneLine(Ascii("REFRESH"))
    ensures OneLine(Ascii("COUNTER")) && OneLine(Ascii("DECLINECOUNTER"))
  {
    PlainOneLine("CANCEL");
    PlainOneLine("REFRESH");
    PlainOneLine("COUNTER");
    PlainOneLine("DECLINECOUNTER");
  }

  lemma {:induction false} IcalMethodsOneLine()
    ensures AllOneLine(ICAL_METHODS)
  {
    RequestWords();
    CancelWords();
    hide Ascii, OneLine;
  }

  lemma {:induction false} IcalMethodOneLine(ical: bytes, methods: seq<bytes>)
    requires AllOneLine(methods)
    ensures OneLine(IcalMethod(ical, methods))
  {
    if methods == [] {
      assert OneLine(Ascii("REQUEST"));
    } else {
      IcalMethodOneLine(ical, methods[1..]);
    }
  }

  // ----- the eight message types -----

  /** A group followed by a break and the attachments of the outer level. */
  lemma {:induction false} GroupThenAttachments(m: Message, header: seq<bytes>, y: bytes, inner: seq<Part>)
    requires ValidMessage(m) && GroupHeader(header, B2(m)) && Written(y, m.id, 2, inner)
    ensures Written(OpenGroup(B1(m), header) + (y + (CRLF + AttachAllText(m.attachments, Attached, B1(m)))), m.id, 1,
                    [Group(header, inner)] + AttachedParts(m))
  {
    var w := AttachAllText(m.attachments, Attached, B1(m));
    AttachAllWritten(m, Attached, 1);
    var es :| Layout(m.id, 1, es, AttachedParts(m)) && IsText(w, Sections(B1(m), es, []));
    BlankIsText();
    TextConcat(CRLF, [[]], w, Sections(B1(m), es, []));
    ConsGroup(header, y, inner, CRLF + w, [[]], es, AttachedParts(m), m.id, 1);
  }

  /** A group followed by a break and the end boundary of its level. */
  lemma {:induction false} GroupThenEnd(m: Message, n: nat, header: seq<bytes>, y: bytes, inner: seq<Part>)
    requires 1 <= n <= 2 && ValidMessage(m)
    requires GroupHeader(header, Boundary(49 + n, m.id)) && Written(y, m.id, n + 1, inner)
    ensures var b := Boundary(48 + n, m.id);
      Written(OpenGroup(b, header) + (y + (CRLF + EndBoundary(b))), m.id, n, [Group(header, inner)])
  {
    var b := Boundary(48 + n, m.id);
    EndIsText(m.id, 48 + n);
    assert Layout(m.id, n, [], []);
    ConsGroup(header, y, inner, CRLF + EndBoundary(b), [[], []], [], [], m.id, n);
    assert [Group(header, inner)] + [] == [Group(header, inner)];
  }

  /** The HTML part with the inline attachments. */
  lemma {:induction false} RelatedWritten(m: Message, n: nat, contentType: bytes)
    requires 1 <= n <= 3 && ValidMessage(m) && LeafType(contentType)
    ensures var b := Boundary(48 + n, m.id);
      Written(TextPart(b, m.charSet, contentType, m.body) + AttachAllText(m.attachments, Inline, b), m.id, n,
              [TextData(m, contentType, m.body)] + InlineParts(m))
  {
    AttachAllWritten(m, Inline, n);
    ConsTextPart(m, n, contentType, m.body, AttachAllText(m.attachments, Inline, Boundary(48 + n, m.id)), InlineParts(m));
  }

  /** The alternatives with the optional calendar. */
  lemma {:induction false} AlternativeWritten(m: Message, n: nat, breakAfterIcal: bool)
    requires 1 <= n <= 3 && ValidMessage(m)
    ensures var b := Boundary(48 + n, m.id);
      Written(AltPart(m, b) + HtmlToEnd(m, b, breakAfterIcal), m.id, n, [AltData(m), HtmlData(m)] + IcalParts(m))
  {
    hide Written, TextPart, GetBoundary, Payload, EndBoundary, TextHeader;
    var b := Boundary(48 + n, m.id);
    FixedTypes(m);
    if HasIcal(m) {
      LastTextPart(m, n, IcalType(m), m.ical);
      var end := if breakAfterIcal then TextPart(b, m.charSet, IcalType(m), m.ical) + EndBoundary(b)
                 else GetBoundary(b, m.charSet, IcalType(m)) + Payload(m.ical) + EndBoundary(b);
      ConsTextPart(m, n, HTML, m.body, end, IcalParts(m));
    } else {
      LastTextPart(m, n, HTML, m.body);
    }
    var rest := [HtmlData(m)] + IcalParts(m);
    assert !HasIcal(m) ==> rest == [HtmlData(m)];
    ConsTextPart(m, n, PLAIN, m.altBody, HtmlToEnd(m, b, breakAfterIcal), rest);
    assert [AltData(m)] + rest == [AltData(m), HtmlData(m)] + IcalParts(m);
  }

  predicate IsMultipart(m: Message) {
    HasAlt(m) || HasDisposition(m, Inline) || HasDisposition(m, Attached)
  }

  lemma {:induction false} WrittenWithoutAlt(m: Message)
    requires ValidMessage(m) && IsMultipart(m) && !HasAlt(m)
    ensures Written(BodyText(m), m.id, 1, ExpectedParts(m))
  {
    hide Written, TextPart, OpenGroup, AttachAllText, RelatedHeader, AttachmentParts;
    if HasDisposition(m, Inline) && HasDisposition(m, Attached) {
      RelatedHeaderGood(m.id, 50);
      RelatedWritten(m, 2, m.contentType);
      GroupThenAttachments(m, RelatedHeader(B2(m)), BodyPart(m, B2(m)) + AttachAllText(m.attachments, Inline, B2(m)),
                           [TextData(m, m.contentType, m.body)] + InlineParts(m));
    } else if HasDisposition(m, Inline) {
      RelatedWritten(m, 1, m.contentType);
    } else {
      AttachAllWritten(m, Attached, 1);
      ConsTextPart(m, 1, m.contentType, m.body, AttachAllText(m.attachments, Attached, B1(m)), AttachedParts(m));
    }
  }

  lemma {:induction false} WrittenAltInline(m: Message)
    requires ValidMessage(m) && HasAlt(m) && HasDisposition(m, Inline) && !HasDisposition(m, Attached)
    ensures Written(BodyText(m), m.id, 1, ExpectedParts(m))
  {
    hide Written, TextPart, OpenGroup, AttachAllText, EndBoundary, RelatedHeader, AttachmentParts, TextHeader, Boundary,
         HeaderLike, BoundaryParameter, IsText, LeafType, OneLine, AllValid, Selected, Terminated, IcalType;
    FixedTypes(m);
    RelatedHeaderGood(m.id, 50);
    RelatedWritten(m, 2, HTML);
    var y := HtmlPart(m, B2(m)) + AttachAllText(m.attachments, Inline, B2(m));
    var inner := [HtmlData(m)] + InlineParts(m);
    GroupThenEnd(m, 1, RelatedHeader(B2(m)), y, inner);
    var text := OpenGroup(B1(m), RelatedHeader(B2(m))) + (y + (CRLF + EndBoundary(B1(m))));
    ConsTextPart(m, 1, PLAIN, m.altBody, text, [Group(RelatedHeader(B2(m)), inner)]);
    assert [AltData(m)] + [Group(RelatedHeader(B2(m)), inner)] == ExpectedParts(m);
  }

  lemma {:induction false} WrittenAltAttach(m: Message)
    requires ValidMessage(m) && HasAlt(m) && !HasDisposition(m, Inline) && HasDisposition(m, Attached)
    ensures Written(BodyText(m), m.id, 1, ExpectedParts(m))
  {
    hide Written, TextPart, GetBoundary, Payload, OpenGroup, EndBoundary, AttachAllText, AlternativeHeader,
         AttachmentParts, TextHeader, Boundary, IcalType, OneLine, LeafType;
    AlternativeHeaderGood(m.id, 50);
    AlternativeWritten(m, 2, false);
    GroupThenAttachments(m, AlternativeHeader(B2(m)), AltPart(m, B2(m)) + HtmlToEnd(m, B2(m), false),
                         [AltData(m), HtmlData(m)] + IcalParts(m));
  }

  lemma {:induction false} WrittenAltInlineAttach(m: Message)
    requires ValidMessage(m) && HasAlt(m) && HasDisposition(m, Inline) && HasDisposition(m, Attached)
    ensures Written(BodyText(m), m.id, 1, ExpectedParts(m))
  {
    hide Written, TextPart, OpenGroup, AttachAllText, EndBoundary, RelatedHeader, AlternativeHeader, AttachmentParts,
         TextHeader, Boundary, HeaderLike, BoundaryParameter, IsText, LeafType, OneLine, AllValid, Selected, Terminated,
         IcalType;
    FixedTypes(m);
    RelatedHeaderGood(m.id, 51);
    AlternativeHeaderGood(m.id, 50);
    RelatedWritten(m, 3, HTML);
    var y := HtmlPart(m, B3(m)) + AttachAllText(m.attachments, Inline, B3(m));
    var inner := [HtmlData(m)] + InlineParts(m);
    GroupThenEnd(m, 2, RelatedHeader(B3(m)), y, inner);
    var text := OpenGroup(B2(m), RelatedHeader(B3(m))) + (y + (CRLF + EndBoundary(B2(m))));
    ConsTextPart(m, 2, PLAIN, m.altBody, text, [Group(RelatedHeader(B3(m)), inner)]);
    var parts := [AltData(m), Group(RelatedHeader(B3(m)), inner)];
    assert [AltData(m)] + [Group(RelatedHeader(B3(m)), inner)] == parts;
    GroupThenAttachments(m, AlternativeHeader(B2(m)), AltPart(m, B2(m)) + text, parts);
  }

  /** The round trip: for every multipart message type, the reader recovers the alternative body, the body, the
      calendar and the attachments that are kept, in order, in the nesting the type stands for. */
  lemma {:induction false} MultipartRoundTrip(m: Message)
    requires ValidMessage(m) && IsMultipart(m)
    ensures ParseParts(CrlfLines(BodyText(m)), B1(m)) == Some(ExpectedParts(m))
    ensures Dashed(CrlfLines(BodyText(m))) == Frame(B1(m), ExpectedParts(m))
  {
    if !HasAlt(m) {
      WrittenWithoutAlt(m);
    } else if HasDisposition(m, Inline) {
      if HasDisposition(m, Attached) {
        WrittenAltInlineAttach(m);
      } else {
        WrittenAltInline(m);
      }
    } else if HasDisposition(m, Attached) {
      WrittenAltAttach(m);
    } else {
      AlternativeWritten(m, 1, true);
    }
    ReadWritten(BodyText(m), m.id, ExpectedParts(m));
  }

  /** The eighth type: a message of a single body. */
  lemma {:induction false} SinglePartRoundTrip(m: Message)
    requires !IsMultipart(m)
    ensures DecodeBody([BASE64_LINE], CrlfLines(BodyText(m))) == Some(m.body)
  {
    PayloadIsText(m.body);
    LinesOfText(Payload(m.body), Chunked(m.body));
    BodyDecodes([BASE64_LINE], m.body, [[]]);
  }
}
