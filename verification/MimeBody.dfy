/** The text of the eight message types, and what a reader should find in it. */
module MimeBody {
  import opened Bytes
  import opened LineBreaks
  import opened Folding
  import opened MimeParser
  import opened HeaderEncoding
  import opened Mime
  import opened MimeText
  import Base64

  const PLAIN: bytes := Ascii("text/plain")
  const HTML: bytes := Ascii("text/html")

  // ----- calendar part -----

  function Contains(s: bytes, pat: bytes): bool
    decreases |s|
  {
    pat <= s || (s != [] && Contains(s[1..], pat))
  }

  const ICAL_METHODS: seq<bytes> := [
    Ascii("REQUEST"), Ascii("PUBLISH"), Ascii("REPLY"), Ascii("ADD"),
    Ascii("CANCEL"), Ascii("REFRESH"), Ascii("COUNTER"), Ascii("DECLINECOUNTER")]

  /** The first known method the calendar text mentions (in any letter case), or REQUEST. */
  function IcalMethod(ical: bytes, methods: seq<bytes>): bytes {
    if methods == [] then Ascii("REQUEST")
    else if Contains(Lower(ical), Lower(Ascii("METHOD:") + methods[0])) then methods[0]
    else IcalMethod(ical, methods[1..])
  }

  function IcalType(m: Message): bytes { Ascii("text/calendar; method=") + IcalMethod(m.ical, ICAL_METHODS) }

  predicate HasIcal(m: Message) { !Empty(m.ical) }

  // ----- the writer -----

  /** A text part up to the line break after its payload. */
  function TextPart(b: bytes, charSet: bytes, contentType: bytes, content: bytes): bytes {
    GetBoundary(b, charSet, contentType) + Payload(content) + CRLF
  }

  /** Delimiter, multipart header and blank line that open a nested group. */
  function OpenGroup(b: bytes, header: seq<bytes>): bytes {
    TextLine(Delimiter(b)) + Terminated(header, CRLF) + CRLF
  }

  function AltPart(m: Message, b: bytes): bytes { TextPart(b, m.charSet, PLAIN, m.altBody) }

  function HtmlPart(m: Message, b: bytes): bytes { TextPart(b, m.charSet, HTML, m.body) }

  function BodyPart(m: Message, b: bytes): bytes { TextPart(b, m.charSet, m.contentType, m.body) }

  /** The HTML part, the calendar part if any, and the close delimiter of an alternative group. The calendar part
      is followed by a line break of its own only where `createBody` appends one (`breakAfterIcal`). */
  function HtmlToEnd(m: Message, b: bytes, breakAfterIcal: bool): bytes {
    HtmlPart(m, b)
    + (if !HasIcal(m) then EndBoundary(b)
       else if breakAfterIcal then TextPart(b, m.charSet, IcalType(m), m.ical) + EndBoundary(b)
       else GetBoundary(b, m.charSet, IcalType(m)) + Payload(m.ical) + EndBoundary(b))
  }

  /** The text `createBody` builds for each message type. */
  function BodyText(m: Message): bytes {
    match (HasAlt(m), HasDisposition(m, Inline), HasDisposition(m, Attached))
    case (false, false, false) =>
      Payload(m.body)
    case (false, true, false) =>
      BodyPart(m, B1(m)) + AttachAllText(m.attachments, Inline, B1(m))
    case (false, false, true) =>
      BodyPart(m, B1(m)) + AttachAllText(m.attachments, Attached, B1(m))
    case (false, true, true) =>
      OpenGroup(B1(m), RelatedHeader(B2(m)))
      + ((BodyPart(m, B2(m)) + AttachAllText(m.attachments, Inline, B2(m)))
         + (CRLF + AttachAllText(m.attachments, Attached, B1(m))))
    case (true, false, false) =>
      AltPart(m, B1(m)) + HtmlToEnd(m, B1(m), true)
    case (true, true, false) =>
      AltPart(m, B1(m))
      + (OpenGroup(B1(m), RelatedHeader(B2(m)))
         + ((HtmlPart(m, B2(m)) + AttachAllText(m.attachments, Inline, B2(m)))
            + (CRLF + EndBoundary(B1(m)))))
    case (true, false, true) =>
      OpenGroup(B1(m), AlternativeHeader(B2(m)))
      + ((AltPart(m, B2(m)) + HtmlToEnd(m, B2(m), false))
         + (CRLF + AttachAllText(m.attachments, Attached, B1(m))))
    case (true, true, true) =>
      OpenGroup(B1(m), AlternativeHeader(B2(m)))
      + ((AltPart(m, B2(m))
          + (OpenGroup(B2(m), RelatedHeader(B3(m)))
             + ((HtmlPart(m, B3(m)) + AttachAllText(m.attachments, Inline, B3(m)))
                + (CRLF + EndBoundary(B2(m))))))
         + (CRLF + AttachAllText(m.attachments, Attached, B1(m))))
  }

  // ----- what a reader should find -----

  function TextData(m: Message, contentType: bytes, content: bytes): Part {
    Data(TextHeader(contentType, m.charSet), content)
  }

  function AttachmentData(a: Attachment): Part { Data(FieldLines(AttachmentFields(a)), a.content) }

  function AttachmentParts(atts: seq<Attachment>): (r: seq<Part>)
    ensures |r| == |atts|
    ensures forall i :: 0 <= i < |r| ==> r[i] == AttachmentData(atts[i])
  {
    seq(|atts|, i requires 0 <= i < |atts| => AttachmentData(atts[i]))
  }

  function InlineParts(m: Message): seq<Part> { AttachmentParts(Selected(m.attachments, Inline)) }

  function AttachedParts(m: Message): seq<Part> { AttachmentParts(Selected(m.attachments, Attached)) }

  function AltData(m: Message): Part { TextData(m, PLAIN, m.altBody) }

  function HtmlData(m: Message): Part { TextData(m, HTML, m.body) }

  function IcalParts(m: Message): seq<Part> {
    if HasIcal(m) then [TextData(m, IcalType(m), m.ical)] else []
  }

  /** The part tree of a multipart message, from its fields alone. */
  function ExpectedParts(m: Message): seq<Part> {
    match (HasAlt(m), HasDisposition(m, Inline), HasDisposition(m, Attached))
    case (false, true, true) =>
      [Group(RelatedHeader(B2(m)), [TextData(m, m.contentType, m.body)] + InlineParts(m))] + AttachedParts(m)
    case (false, _, _) =>
      [TextData(m, m.contentType, m.body)]
      + (if HasDisposition(m, Inline) then InlineParts(m) else AttachedParts(m))
    case (true, false, false) =>
      [AltData(m), HtmlData(m)] + IcalParts(m)
    case (true, true, false) =>
      [AltData(m), Group(RelatedHeader(B2(m)), [HtmlData(m)] + InlineParts(m))]
    case (true, false, true) =>
      [Group(AlternativeHeader(B2(m)), [AltData(m), HtmlData(m)] + IcalParts(m))] + AttachedParts(m)
    case (true, true, true) =>
      [Group(AlternativeHeader(B2(m)), [AltData(m), Group(RelatedHeader(B3(m)), [HtmlData(m)] + InlineParts(m))])]
      + AttachedParts(m)
  }

  // ----- what the writer needs of its inputs -----

  predicate LeafType(t: bytes) { OneLine(t) && !StartsLike(t, MULTIPART) }

  ghost predicate GoodParameter(p: Option<bytes>) { p.Some? ==> FoldSafe(p.value) }

  ghost predicate ValidAttachment(a: Attachment) {
    && LeafType(a.entry.mimeType) && GoodParameter(a.nameParameter) && GoodParameter(a.fileParameter)
    && (HasContentId(a.entry) ==> FoldSafe(a.cidValue))
  }

  /** Header values without bare breaks, leaf types that are not themselves multipart, an id without quotes or breaks. */
  ghost predicate ValidMessage(m: Message) {
    && OneLine(m.id) && QUOTE !in m.id
    && OneLine(m.charSet) && LeafType(m.contentType)
    && AllValid(Selected(m.attachments, Inline)) && AllValid(Selected(m.attachments, Attached))
  }

  ghost predicate AllValid(atts: seq<Attachment>) { forall i :: 0 <= i < |atts| ==> ValidAttachment(atts[i]) }

  // ----- leaves -----

  lemma {:induction false} LeafTypeField(t: bytes, suffix: bytes)
    requires !StartsLike(t, MULTIPART) && (suffix == [] || suffix[0] == 59)
    ensures !StartsLike(Field(CONTENT_TYPE, t + suffix), Field(CONTENT_TYPE, MULTIPART))
  {
    var p := CONTENT_TYPE + [58, SP];
    assert Field(CONTENT_TYPE, MULTIPART) == p + MULTIPART;
    assert Field(CONTENT_TYPE, t + suffix) == p + (t + suffix);
    LowerConcat(p, MULTIPART);
    LowerConcat(p, t + suffix);
    if Lower(p) + Lower(MULTIPART) <= Lower(p) + Lower(t + suffix) {
      PrefixBehind(Lower(p), Lower(MULTIPART), Lower(t + suffix));
      MultipartPrefix(t, suffix);
    }
  }

  lemma {:induction false} PrefixBehind(p: bytes, a: bytes, b: bytes)
    requires p + a <= p + b
    ensures a <= b
  {
    assert (p + a)[|p|..] == a && (p + b)[|p|..] == b;
  }

  lemma {:induction false} MultipartPrefix(t: bytes, suffix: bytes)
    requires suffix == [] || suffix[0] == 59
    requires StartsLike(t + suffix, MULTIPART)
    ensures StartsLike(t, MULTIPART)
  {
    LowerConcat(t, suffix);
    var m := Lower(MULTIPART);
    if |t| < |m| {
      assert Lower(t + suffix)[|t|] == LowerByte(suffix[0]);
      assert m[|t|] == 59;
      MultipartHasNoSemicolon(|t|);
    }
  }

  lemma {:induction false} MultipartHasNoSemicolon(i: nat)
    requires i < |MULTIPART|
    ensures LowerByte(MULTIPART[i]) != 59
  {
  }
}
