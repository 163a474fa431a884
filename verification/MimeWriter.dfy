/** `createBody` as the program runs it: encode the attachments, append the parts one after the other. */
module MimeWriter {
  import opened Bytes
  import opened LineBreaks
  import opened Folding
  import opened MimeParser
  import opened HeaderEncoding
  import opened HeaderWriter
  import opened HeaderParameter
  import opened Mime
  import opened MimeBody
  import opened MimeRoundTrip

  /** A message as its sender composed it; the charset is that of the mailer. */
  datatype Draft = Draft(
    body: bytes, altBody: bytes, ical: bytes, stored: seq<Stored>, contentType: bytes, id: bytes)

  predicate AllNameable(cfg: Settings, draft: Draft) {
    forall i :: 0 <= i < |draft.stored| ==> Nameable(cfg, draft.stored[i].entry)
  }

  function MessageOf(cfg: Settings, draft: Draft, atts: seq<Attachment>): Message {
    Message(draft.body, draft.altBody, draft.ical, atts, cfg.charSet, draft.contentType, draft.id)
  }

  /** The message holds the entries of the draft, in order, and every attachment that is written has the header values
      that the encoder gives for its name and content id. */
  ghost predicate BuiltFrom(cfg: Settings, draft: Draft, m: Message) {
    && m == MessageOf(cfg, draft, m.attachments)
    && Prepared(cfg, draft.stored, Inline, m.attachments) && Prepared(cfg, draft.stored, Attached, m.attachments)
  }

  /** What is asked of the sender: types that are single lines and not themselves multipart, and an id that can stand
      in a boundary. */
  predicate ValidDraft(cfg: Settings, draft: Draft) {
    && Encodable(cfg) && OneLine(draft.id) && QUOTE !in draft.id && LeafType(draft.contentType)
    && forall i :: 0 <= i < |draft.stored| ==> LeafType(draft.stored[i].entry.mimeType)
  }

  // ----- prepared attachments are valid -----

  lemma {:induction false} EncodedValid(cfg: Settings, a: Attachment)
    requires Encoded(cfg, a) && LeafType(a.entry.mimeType)
    ensures ValidAttachment(a)
  {
    if !Empty(a.entry.name) {
      var v :| IsSecured(cfg, a.entry.name, v) && a.nameParameter == Some(QuotedString(v));
      SecuredValue(cfg, a.entry.name, v);
      QuotedStringFoldSafe(v);
    }
    var v :| IsSecured(cfg, a.entry.name, v)
      && a.fileParameter == if Empty(v) then None else Some(QuotedString(v));
    SecuredValue(cfg, a.entry.name, v);
    QuotedStringFoldSafe(v);
    if HasContentId(a.entry) {
      SecuredValue(cfg, a.entry.cid, a.cidValue);
    }
  }

  lemma {:induction false} PreparedFront(cfg: Settings, stored: seq<Stored>, d: Disposition, atts: seq<Attachment>)
    requires Prepared(cfg, stored, d, atts) && atts != []
    ensures var n := |atts| - 1;
      && Prepared(cfg, stored[..n], d, atts[..n])
      && PreparedAt(cfg, stored[n], Entries(atts[..n]), d, atts[n])
  {
    hide PreparedAt;
    var n := |atts| - 1;
    forall i | 0 <= i < n ensures PreparedAt(cfg, stored[..n][i], Entries(atts[..n][..i]), d, atts[..n][i]) {
      assert atts[..n][..i] == atts[..i];
      assert PreparedAt(cfg, stored[i], Entries(atts[..i]), d, atts[i]);
    }
  }

  lemma {:induction false} PreparedValid(cfg: Settings, stored: seq<Stored>, d: Disposition, atts: seq<Attachment>)
    requires Prepared(cfg, stored, d, atts)
    requires forall i :: 0 <= i < |stored| ==> LeafType(stored[i].entry.mimeType)
    ensures AllValid(Selected(atts, d))
  {
    if atts != [] {
      hide Prepared, LeafType, Encoded, ValidAttachment, Kept;
      var n := |atts| - 1;
      PreparedFront(cfg, stored, d, atts);
      PreparedValid(cfg, stored[..n], d, atts[..n]);
      if Kept(Entries(atts[..n]), atts[n].entry, d) {
        EncodedValid(cfg, atts[n]);
      }
    }
  }

  lemma {:induction false} BuiltIsValid(cfg: Settings, draft: Draft, m: Message)
    requires ValidDraft(cfg, draft) && BuiltFrom(cfg, draft, m)
    ensures ValidMessage(m)
  {
    PreparedValid(cfg, draft.stored, Inline, m.attachments);
    PreparedValid(cfg, draft.stored, Attached, m.attachments);
    LabelOneLine(cfg);
  }

  lemma {:induction false} LabelOneLine(cfg: Settings)
    requires Encodable(cfg)
    ensures OneLine(cfg.charSet)
  {
    if IsUtf8(cfg) {
      forall i | 0 <= i < |cfg.charSet| ensures !IsBreak(cfg.charSet[i]) {
        assert LowerByte(cfg.charSet[i]) == UTF_8[i];
      }
    }
  }

  // ----- one list for both dispositions -----

  /** Inline entries from the first list, the others from the second. */
  function Merged(a: seq<Attachment>, b: seq<Attachment>): (r: seq<Attachment>)
    requires |a| == |b|
    ensures |r| == |a|
    ensures forall i :: 0 <= i < |r| ==> r[i] == if a[i].entry.disposition == Inline then a[i] else b[i]
  {
    seq(|a|, i requires 0 <= i < |a| => if a[i].entry.disposition == Inline then a[i] else b[i])
  }

  lemma {:induction false} SelectedAgree(a: seq<Attachment>, b: seq<Attachment>, d: Disposition)
    requires |a| == |b| && Entries(a) == Entries(b)
    requires forall i :: 0 <= i < |a| && a[i].entry.disposition == d ==> a[i] == b[i]
    ensures Selected(a, d) == Selected(b, d)
  {
    if a != [] {
      var n := |a| - 1;
      forall i | 0 <= i < n ensures Entries(a[..n])[i] == Entries(b[..n])[i] {
        assert Entries(a)[i] == Entries(b)[i];
      }
      assert Entries(a)[n] == Entries(b)[n];
      assert Entries(a[..n]) == Entries(b[..n]);
      SelectedAgree(a[..n], b[..n], d);
    }
  }

  lemma {:induction false} PreparedAgree(cfg: Settings, stored: seq<Stored>, d: Disposition, a: seq<Attachment>,
                                         b: seq<Attachment>)
    requires Prepared(cfg, stored, d, a) && |a| == |b|
    requires forall i :: 0 <= i < |a| ==> a[i].entry == b[i].entry && a[i].content == b[i].content
    requires forall i :: 0 <= i < |a| && a[i].entry.disposition == d ==> a[i] == b[i]
    ensures Prepared(cfg, stored, d, b)
  {
    forall i | 0 <= i < |b| ensures PreparedAt(cfg, stored[i], Entries(b[..i]), d, b[i]) {
      assert PreparedAt(cfg, stored[i], Entries(a[..i]), d, a[i]);
      assert Entries(a[..i]) == Entries(b[..i]);
      NotKept(Entries(b[..i]), b[i].entry, d);
    }
  }

  lemma {:induction false} SameEntries(cfg: Settings, stored: seq<Stored>, d: Disposition, atts: seq<Attachment>)
    requires Prepared(cfg, stored, d, atts)
    ensures |atts| == |stored|
    ensures forall i :: 0 <= i < |atts| ==> atts[i].entry == stored[i].entry && atts[i].content == stored[i].content
  {
    forall i | 0 <= i < |atts| ensures atts[i].entry == stored[i].entry && atts[i].content == stored[i].content {
      assert PreparedAt(cfg, stored[i], Entries(atts[..i]), d, atts[i]);
    }
  }

  /** Both calls of `attachAll` write one and the same list. */
  lemma {:induction false} MergePrepared(cfg: Settings, stored: seq<Stored>, a: seq<Attachment>, b: seq<Attachment>)
    requires Prepared(cfg, stored, Inline, a) && Prepared(cfg, stored, Attached, b)
    ensures |a| == |b|
    ensures Prepared(cfg, stored, Inline, Merged(a, b)) && Prepared(cfg, stored, Attached, Merged(a, b))
    ensures Selected(Merged(a, b), Inline) == Selected(a, Inline)
    ensures Selected(Merged(a, b), Attached) == Selected(b, Attached)
  {
    SameEntries(cfg, stored, Inline, a);
    SameEntries(cfg, stored, Attached, b);
    var m := Merged(a, b);
    hide Prepared;
    PreparedAgree(cfg, stored, Inline, a, m);
    PreparedAgree(cfg, stored, Attached, b, m);
    assert Entries(a) == Entries(m) && Entries(b) == Entries(m);
    SelectedAgree(a, m, Inline);
    SelectedAgree(b, m, Attached);
  }

  // ----- the shape of the message -----

  /** The entries without header values: enough to decide the message type. */
  function Plain(stored: seq<Stored>): (r: seq<Attachment>)
    ensures |r| == |stored|
    ensures forall i :: 0 <= i < |r| ==> r[i] == Attachment(stored[i].entry, stored[i].content, None, None, [])
  {
    seq(|stored|, i requires 0 <= i < |stored| => Attachment(stored[i].entry, stored[i].content, None, None, []))
  }

  function Shape(cfg: Settings, draft: Draft): Message { MessageOf(cfg, draft, Plain(draft.stored)) }

  lemma {:induction false} NothingKept(cfg: Settings, draft: Draft, d: Disposition)
    requires !HasDisposition(Shape(cfg, draft), d)
    ensures Prepared(cfg, draft.stored, d, Plain(draft.stored))
  {
    var atts := Plain(draft.stored);
    forall i | 0 <= i < |atts| ensures PreparedAt(cfg, draft.stored[i], Entries(atts[..i]), d, atts[i]) {
      assert Shape(cfg, draft).attachments[i].entry.disposition != d;
    }
  }

  /** The message has the text parts and the type of the draft's shape. */
  ghost predicate SameShape(m: Message, shape: Message) {
    && m == shape.(attachments := m.attachments)
    && forall d :: HasDisposition(m, d) == HasDisposition(shape, d)
  }

  lemma {:induction false} BuiltShape(cfg: Settings, draft: Draft, m: Message)
    requires BuiltFrom(cfg, draft, m)
    ensures SameShape(m, Shape(cfg, draft))
  {
    var shape := Shape(cfg, draft);
    SameEntries(cfg, draft.stored, Inline, m.attachments);
    assert |m.attachments| == |shape.attachments|;
    assert forall i :: 0 <= i < |m.attachments| ==> m.attachments[i].entry == shape.attachments[i].entry;
  }

  /** The attachments of both dispositions, each written by its own call, belong to one message. */
  lemma {:induction false} OneMessage(cfg: Settings, draft: Draft, bi: bytes, inlined: bytes, ba: bytes, attached: bytes)
    returns (m: Message)
    requires HasDisposition(Shape(cfg, draft), Inline) ==> IsAttachAll(cfg, draft.stored, Inline, bi, inlined)
    requires HasDisposition(Shape(cfg, draft), Attached) ==> IsAttachAll(cfg, draft.stored, Attached, ba, attached)
    ensures BuiltFrom(cfg, draft, m) && SameShape(m, Shape(cfg, draft))
    ensures HasDisposition(Shape(cfg, draft), Inline) ==> inlined == AttachAllText(m.attachments, Inline, bi)
    ensures HasDisposition(Shape(cfg, draft), Attached) ==> attached == AttachAllText(m.attachments, Attached, ba)
  {
    var a, b := Plain(draft.stored), Plain(draft.stored);
    if HasDisposition(Shape(cfg, draft), Inline) {
      a :| Prepared(cfg, draft.stored, Inline, a) && inlined == AttachAllText(a, Inline, bi);
    } else {
      NothingKept(cfg, draft, Inline);
    }
    if HasDisposition(Shape(cfg, draft), Attached) {
      b :| Prepared(cfg, draft.stored, Attached, b) && attached == AttachAllText(b, Attached, ba);
    } else {
      NothingKept(cfg, draft, Attached);
    }
    MergePrepared(cfg, draft.stored, a, b);
    m := MessageOf(cfg, draft, Merged(a, b));
    BuiltShape(cfg, draft, m);
  }

  // ----- appending -----

  /** The three appends for a text part. */
  method AppendText(body: bytes, b: bytes, charSet: bytes, contentType: bytes, content: bytes) returns (r: bytes)
    ensures r == body + TextPart(b, charSet, contentType, content)
  {
    r := body + GetBoundary(b, charSet, contentType);
    r := r + Payload(content);
    r := r + CRLF;
    Assoc(body + GetBoundary(b, charSet, contentType), Payload(content), CRLF);
    Assoc(body, GetBoundary(b, charSet, contentType), Payload(content) + CRLF);
    Assoc(GetBoundary(b, charSet, contentType), Payload(content), CRLF);
  }

  /** The appends that open a nested group: the delimiter, the header lines, a blank line. */
  method AppendOpen(body: bytes, b: bytes, header: seq<bytes>) returns (r: bytes)
    ensures r == body + OpenGroup(b, header)
  {
    r := body + TextLine(Delimiter(b));
    for n := 0 to |header|
      invariant r == body + TextLine(Delimiter(b)) + Terminated(header[..n], CRLF)
    {
      assert header[..n + 1] == header[..n] + [header[n]];
      TerminatedPush(header[..n], header[n], CRLF);
      Assoc(body + TextLine(Delimiter(b)), Terminated(header[..n], CRLF), header[n] + CRLF);
      r := r + TextLine(header[n]);
    }
    assert header[..|header|] == header;
    Assoc(body + TextLine(Delimiter(b)), Terminated(header, CRLF), CRLF);
    Assoc(body, TextLine(Delimiter(b)), Terminated(header, CRLF) + CRLF);
    Assoc(TextLine(Delimiter(b)), Terminated(header, CRLF), CRLF);
    r := r + CRLF;
  }

  /** The method line of a calendar: the first known one it mentions, or REQUEST. */
  method ChooseIcalMethod(ical: bytes) returns (name: bytes)
    ensures name == IcalMethod(ical, ICAL_METHODS)
  {
    name := Ascii("REQUEST");
    var n := 0;
    assert ICAL_METHODS[0..] == ICAL_METHODS;
    while n < |ICAL_METHODS|
      invariant 0 <= n <= |ICAL_METHODS| && name == Ascii("REQUEST")
      invariant IcalMethod(ical, ICAL_METHODS[n..]) == IcalMethod(ical, ICAL_METHODS)
    {
      assert ICAL_METHODS[n..][0] == ICAL_METHODS[n] && ICAL_METHODS[n..][1..] == ICAL_METHODS[n + 1..];
      if Contains(Lower(ical), Lower(Ascii("METHOD:") + ICAL_METHODS[n])) {
        name := ICAL_METHODS[n];
        return;
      }
      n := n + 1;
    }
  }

  /** The HTML part, the calendar part, and the end of an alternative group. */
  method AppendHtmlToEnd(body: bytes, m: Message, b: bytes, breakAfterIcal: bool) returns (r: bytes)
    ensures r == body + HtmlToEnd(m, b, breakAfterIcal)
  {
    r := AppendText(body, b, m.charSet, HTML, m.body);
    if HasIcal(m) {
      var name := ChooseIcalMethod(m.ical);
      var t := Ascii("text/calendar; method=") + name;
      ghost var before := r;
      r := r + GetBoundary(b, m.charSet, t);
      r := r + Payload(m.ical);
      Assoc(before, GetBoundary(b, m.charSet, t), Payload(m.ical));
      if breakAfterIcal {
        r := r + CRLF;
        Assoc(before, GetBoundary(b, m.charSet, t) + Payload(m.ical), CRLF);
        Assoc(body, HtmlPart(m, b), TextPart(b, m.charSet, IcalType(m), m.ical));
        Assoc(HtmlPart(m, b), TextPart(b, m.charSet, IcalType(m), m.ical), EndBoundary(b));
        Assoc(body, HtmlPart(m, b) + TextPart(b, m.charSet, IcalType(m), m.ical), EndBoundary(b));
      } else {
        var p := GetBoundary(b, m.charSet, t) + Payload(m.ical);
        Assoc(body, HtmlPart(m, b), p);
        Assoc(HtmlPart(m, b), p, EndBoundary(b));
        Assoc(body, HtmlPart(m, b) + p, EndBoundary(b));
      }
    } else {
      Assoc(body, HtmlPart(m, b), EndBoundary(b));
    }
    r := r + EndBoundary(b);
  }

  // ----- the eight types -----

  /** The body is the text of a message built from the draft. */
  ghost predicate IsBody(cfg: Settings, draft: Draft, body: bytes, m: Message) {
    BuiltFrom(cfg, draft, m) && body == BodyText(m)
  }

  method PlainBody(cfg: Settings, draft: Draft) returns (body: bytes)
    requires !IsMultipart(Shape(cfg, draft))
    ensures exists m :: IsBody(cfg, draft, body, m)
  {
    body := Payload(draft.body);
    ghost var m := OneMessage(cfg, draft, [], [], [], []);
    assert IsBody(cfg, draft, body, m);
  }

  lemma {:induction false} Two(a: bytes, b: bytes)
    ensures [] + a + b == a + b
  {
  }

  method InlineBody(cfg: Settings, draft: Draft) returns (body: bytes)
    requires AllNameable(cfg, draft)
    requires var s := Shape(cfg, draft); !HasAlt(s) && HasDisposition(s, Inline) && !HasDisposition(s, Attached)
    ensures exists m :: IsBody(cfg, draft, body, m)
  {
    var s := Shape(cfg, draft);
    body := AppendText([], B1(s), s.charSet, s.contentType, s.body);
    var inlined := AttachAll(cfg, draft.stored, Inline, B1(s));
    body := body + inlined;
    Two(BodyPart(s, B1(s)), inlined);
    ghost var m := OneMessage(cfg, draft, B1(s), inlined, [], []);
    assert IsBody(cfg, draft, body, m);
  }

  method AttachBody(cfg: Settings, draft: Draft) returns (body: bytes)
    requires AllNameable(cfg, draft)
    requires var s := Shape(cfg, draft); !HasAlt(s) && !HasDisposition(s, Inline) && HasDisposition(s, Attached)
    ensures exists m :: IsBody(cfg, draft, body, m)
  {
    var s := Shape(cfg, draft);
    body := AppendText([], B1(s), s.charSet, s.contentType, s.body);
    var attached := AttachAll(cfg, draft.stored, Attached, B1(s));
    body := body + attached;
    Two(BodyPart(s, B1(s)), attached);
    ghost var m := OneMessage(cfg, draft, [], [], B1(s), attached);
    assert IsBody(cfg, draft, body, m);
  }

  lemma {:induction false} Five(a: bytes, b: bytes, c: bytes, d: bytes, e: bytes)
    ensures [] + a + b + c + d + e == a + ((b + c) + (d + e))
  {
  }

  method InlineAttachBody(cfg: Settings, draft: Draft) returns (body: bytes)
    requires AllNameable(cfg, draft)
    requires var s := Shape(cfg, draft); !HasAlt(s) && HasDisposition(s, Inline) && HasDisposition(s, Attached)
    ensures exists m :: IsBody(cfg, draft, body, m)
  {
    var s := Shape(cfg, draft);
    body := AppendOpen([], B1(s), RelatedHeader(B2(s)));
    body := AppendText(body, B2(s), s.charSet, s.contentType, s.body);
    var inlined := AttachAll(cfg, draft.stored, Inline, B2(s));
    body := body + inlined;
    body := body + CRLF;
    var attached := AttachAll(cfg, draft.stored, Attached, B1(s));
    body := body + attached;
    Five(OpenGroup(B1(s), RelatedHeader(B2(s))), BodyPart(s, B2(s)), inlined, CRLF, attached);
    ghost var m := OneMessage(cfg, draft, B2(s), inlined, B1(s), attached);
    assert IsBody(cfg, draft, body, m);
  }

  method AltBody(cfg: Settings, draft: Draft) returns (body: bytes)
    requires var s := Shape(cfg, draft); HasAlt(s) && !HasDisposition(s, Inline) && !HasDisposition(s, Attached)
    ensures exists m :: IsBody(cfg, draft, body, m)
  {
    var s := Shape(cfg, draft);
    body := AppendText([], B1(s), s.charSet, PLAIN, s.altBody);
    body := AppendHtmlToEnd(body, s, B1(s), true);
    Two(AltPart(s, B1(s)), HtmlToEnd(s, B1(s), true));
    ghost var m := OneMessage(cfg, draft, [], [], [], []);
    assert HtmlToEnd(m, B1(m), true) == HtmlToEnd(s, B1(s), true);
    assert IsBody(cfg, draft, body, m);
  }

  lemma {:induction false} Six(a: bytes, b: bytes, c: bytes, d: bytes, e: bytes, f: bytes)
    ensures [] + a + b + c + d + e + f == a + (b + ((c + d) + (e + f)))
  {
  }

  method AltInlineBody(cfg: Settings, draft: Draft) returns (body: bytes)
    requires AllNameable(cfg, draft)
    requires var s := Shape(cfg, draft); HasAlt(s) && HasDisposition(s, Inline) && !HasDisposition(s, Attached)
    ensures exists m :: IsBody(cfg, draft, body, m)
  {
    var s := Shape(cfg, draft);
    body := AppendText([], B1(s), s.charSet, PLAIN, s.altBody);
    body := AppendOpen(body, B1(s), RelatedHeader(B2(s)));
    body := AppendText(body, B2(s), s.charSet, HTML, s.body);
    var inlined := AttachAll(cfg, draft.stored, Inline, B2(s));
    body := body + inlined;
    body := body + CRLF;
    body := body + EndBoundary(B1(s));
    Six(AltPart(s, B1(s)), OpenGroup(B1(s), RelatedHeader(B2(s))), HtmlPart(s, B2(s)), inlined, CRLF, EndBoundary(B1(s)));
    ghost var m := OneMessage(cfg, draft, B2(s), inlined, [], []);
    assert IsBody(cfg, draft, body, m);
  }

  method AltAttachBody(cfg: Settings, draft: Draft) returns (body: bytes)
    requires AllNameable(cfg, draft)
    requires var s := Shape(cfg, draft); HasAlt(s) && !HasDisposition(s, Inline) && HasDisposition(s, Attached)
    ensures exists m :: IsBody(cfg, draft, body, m)
  {
    var s := Shape(cfg, draft);
    body := AppendOpen([], B1(s), AlternativeHeader(B2(s)));
    body := AppendText(body, B2(s), s.charSet, PLAIN, s.altBody);
    body := AppendHtmlToEnd(body, s, B2(s), false);
    body := body + CRLF;
    var attached := AttachAll(cfg, draft.stored, Attached, B1(s));
    body := body + attached;
    Five(OpenGroup(B1(s), AlternativeHeader(B2(s))), AltPart(s, B2(s)), HtmlToEnd(s, B2(s), false), CRLF, attached);
    ghost var m := OneMessage(cfg, draft, [], [], B1(s), attached);
    assert HtmlToEnd(m, B2(m), false) == HtmlToEnd(s, B2(s), false);
    assert IsBody(cfg, draft, body, m);
  }

  lemma {:induction false} Nine(a: bytes, b: bytes, c: bytes, d: bytes, e: bytes, f: bytes, g: bytes, h: bytes, i: bytes)
    ensures [] + a + b + c + d + e + f + g + h + i == a + ((b + (c + ((d + e) + (f + g)))) + (h + i))
  {
  }

  method AltInlineAttachBody(cfg: Settings, draft: Draft) returns (body: bytes)
    requires AllNameable(cfg, draft)
    requires var s := Shape(cfg, draft); HasAlt(s) && HasDisposition(s, Inline) && HasDisposition(s, Attached)
    ensures exists m :: IsBody(cfg, draft, body, m)
  {
    var s := Shape(cfg, draft);
    body := AppendOpen([], B1(s), AlternativeHeader(B2(s)));
    body := AppendText(body, B2(s), s.charSet, PLAIN, s.altBody);
    body := AppendOpen(body, B2(s), RelatedHeader(B3(s)));
    body := AppendText(body, B3(s), s.charSet, HTML, s.body);
    var inlined := AttachAll(cfg, draft.stored, Inline, B3(s));
    body := body + inlined;
    body := body + CRLF;
    body := body + EndBoundary(B2(s));
    body := body + CRLF;
    var attached := AttachAll(cfg, draft.stored, Attached, B1(s));
    body := body + attached;
    Nine(OpenGroup(B1(s), AlternativeHeader(B2(s))), AltPart(s, B2(s)), OpenGroup(B2(s), RelatedHeader(B3(s))),
         HtmlPart(s, B3(s)), inlined, CRLF, EndBoundary(B2(s)), CRLF, attached);
    ghost var m := OneMessage(cfg, draft, B3(s), inlined, B1(s), attached);
    assert IsBody(cfg, draft, body, m);
  }

  // ----- the whole -----

  /** What a receiver makes of the body: the parts of the message in their nesting, between exactly the delimiters they
      need; or, for a message of a single body, that body. */
  ghost predicate ReadsAs(body: bytes, m: Message) {
    if IsMultipart(m) then
      && ParseParts(CrlfLines(body), B1(m)) == Some(ExpectedParts(m))
      && Dashed(CrlfLines(body)) == Frame(B1(m), ExpectedParts(m))
    else DecodeBody([BASE64_LINE], CrlfLines(body)) == Some(m.body)
  }

  ghost predicate RoundTrip(cfg: Settings, draft: Draft, body: bytes, m: Message) {
    BuiltFrom(cfg, draft, m) && ((IsMultipart(m) ==> ValidDraft(cfg, draft)) ==> ReadsAs(body, m))
  }

  /** `PHPMailer::createBody`: what it writes for a draft reads back as a message built from that draft, with the header
      values the encoder gives for the names and content ids. */
  method CreateBody(cfg: Settings, draft: Draft) returns (body: bytes)
    requires AllNameable(cfg, draft)
    ensures exists m :: RoundTrip(cfg, draft, body, m)
  {
    var s := Shape(cfg, draft);
    match (HasAlt(s), HasDisposition(s, Inline), HasDisposition(s, Attached)) {
      case (false, false, false) => body := PlainBody(cfg, draft);
      case (false, true, false) => body := InlineBody(cfg, draft);
      case (false, false, true) => body := AttachBody(cfg, draft);
      case (false, true, true) => body := InlineAttachBody(cfg, draft);
      case (true, false, false) => body := AltBody(cfg, draft);
      case (true, true, false) => body := AltInlineBody(cfg, draft);
      case (true, false, true) => body := AltAttachBody(cfg, draft);
      case (true, true, true) => body := AltInlineAttachBody(cfg, draft);
    }
    ghost var m :| IsBody(cfg, draft, body, m);
    BodyReads(cfg, draft, body, m);
  }

  lemma {:induction false} BodyReads(cfg: Settings, draft: Draft, body: bytes, m: Message)
    requires IsBody(cfg, draft, body, m)
    ensures RoundTrip(cfg, draft, body, m)
  {
    if !IsMultipart(m) {
      SinglePartRoundTrip(m);
    } else if ValidDraft(cfg, draft) {
      BuiltIsValid(cfg, draft, m);
      MultipartRoundTrip(m);
    }
  }
}
