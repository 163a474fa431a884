/** The multipart writer: `setMessageType`, `getBoundary`, `endBoundary`, `attachAll` and `createBody`,
    for messages whose parts are sent in base64. */
module Mime {
  import opened Bytes
  import opened LineBreaks
  import opened QEncoding
  import opened MimeParser
  import opened Utf8
  import opened Folding
  import opened HeaderEncoding
  import opened HeaderWriter
  import opened HeaderParameter
  import Base64

  datatype Disposition = Inline | Attached

  /** An entry of the attachment list: the path (or the string itself), the file name, the name to show, the type,
      whether it is a string attachment, the disposition and the content id. The encoding is base64 throughout. */
  datatype Entry = Entry(
    source: bytes, fileName: bytes, name: bytes, mimeType: bytes, isString: bool, disposition: Disposition, cid: bytes)

  /** An entry with the content it stands for. */
  datatype Stored = Stored(entry: Entry, content: bytes)

  /** An attachment as it is written: the parameters are those of its header fields, absent where they are left out. */
  datatype Attachment = Attachment(
    entry: Entry, content: bytes, nameParameter: Option<bytes>, fileParameter: Option<bytes>, cidValue: bytes)

  datatype Message = Message(
    body: bytes, altBody: bytes, ical: bytes, attachments: seq<Attachment>,
    charSet: bytes, contentType: bytes, id: bytes)

  // ----- the message type -----

  predicate HasAlt(m: Message) { !Empty(m.altBody) }

  predicate HasDisposition(m: Message, d: Disposition) {
    exists i :: 0 <= i < |m.attachments| && m.attachments[i].entry.disposition == d
  }

  // ----- which attachments are written -----

  function Entries(atts: seq<Attachment>): (r: seq<Entry>)
    ensures |r| == |atts| && forall i :: 0 <= i < |r| ==> r[i] == atts[i].entry
  {
    seq(|atts|, i requires 0 <= i < |atts| => atts[i].entry)
  }

  /** The entry is written after the given ones: it has the wanted disposition, it is not a copy of one of them,
      and no inline one of them has its content id. */
  predicate Kept(before: seq<Entry>, e: Entry, d: Disposition) {
    && e.disposition == d
    && e !in before
    && (d == Inline ==> forall j :: 0 <= j < |before| && before[j].disposition == d ==> before[j].cid != e.cid)
  }

  function Selected(atts: seq<Attachment>, d: Disposition): seq<Attachment> {
    if atts == [] then []
    else
      var before, last := atts[..|atts| - 1], atts[|atts| - 1];
      Selected(before, d) + (if Kept(Entries(before), last.entry, d) then [last] else [])
  }

  // ----- the parameters of a written attachment -----

  /** The name parameter of the type field: left out for an empty name. */
  ghost predicate NamedBy(cfg: Settings, name: bytes, parameter: Option<bytes>) {
    if Empty(name) then parameter == None
    else exists v :: IsSecured(cfg, name, v) && parameter == Some(QuotedString(v))
  }

  /** The file name parameter of the disposition field: left out when nothing is left of the name. */
  ghost predicate FiledAs(cfg: Settings, name: bytes, parameter: Option<bytes>) {
    exists v :: IsSecured(cfg, name, v) && parameter == if Empty(v) then None else Some(QuotedString(v))
  }

  predicate HasContentId(e: Entry) { e.cid != [] && e.disposition == Inline }

  /** The header values are those the encoder gives for the entry. */
  ghost predicate Encoded(cfg: Settings, a: Attachment) {
    && NamedBy(cfg, a.entry.name, a.nameParameter)
    && FiledAs(cfg, a.entry.name, a.fileParameter)
    && (HasContentId(a.entry) ==> IsSecured(cfg, a.entry.cid, a.cidValue))
  }

  /** The charset can be named, and the name and content id are text in it. */
  predicate Nameable(cfg: Settings, e: Entry) {
    Encodable(cfg) && CharsIn(e.name, IsUtf8(cfg)).Some? && CharsIn(e.cid, IsUtf8(cfg)).Some?
  }

  // ----- header fields -----

  function TextHeader(contentType: bytes, charSet: bytes): seq<bytes> {
    [Field(CONTENT_TYPE, contentType + (Ascii("; charset=") + charSet)), BASE64_LINE]
  }

  function WithParameter(value: bytes, name: bytes, parameter: Option<bytes>): bytes {
    match parameter
    case Some(p) => value + (name + p)
    case None => value
  }

  function DispositionName(d: Disposition): bytes {
    match d
    case Inline => Ascii("inline")
    case Attached => Ascii("attachment")
  }

  function AttachmentFields(a: Attachment): seq<bytes> {
    [Field(CONTENT_TYPE, WithParameter(a.entry.mimeType, Ascii("; name="), a.nameParameter)), BASE64_LINE]
    + (if HasContentId(a.entry) then [Field(Ascii("Content-ID"), [60] + (a.cidValue + [62]))] else [])
    + [Field(Ascii("Content-Disposition"),
             WithParameter(DispositionName(a.entry.disposition), Ascii("; filename="), a.fileParameter))]
  }

  function RelatedHeader(b: bytes): seq<bytes> {
    [Field(CONTENT_TYPE, MULTIPART + Ascii("related;")),
     BOUNDARY_PARAMETER + (b + [QUOTE, 59]),
     Ascii(" type=\"text/html\"")]
  }

  function AlternativeHeader(b: bytes): seq<bytes> {
    [Field(CONTENT_TYPE, MULTIPART + Ascii("alternative;")), BOUNDARY_PARAMETER + (b + [QUOTE])]
  }

  // ----- the writer -----

  const STD_LINE_LENGTH := 76

  function Boundary(n: byte, id: bytes): bytes { [98, n, 61, 95] + id }

  function B1(m: Message): bytes { Boundary(49, m.id) }
  function B2(m: Message): bytes { Boundary(50, m.id) }
  function B3(m: Message): bytes { Boundary(51, m.id) }

  /** `encodeString` with base64. */
  function Payload(content: bytes): bytes { Base64.ChunkSplit(Base64.Encode(content), STD_LINE_LENGTH, CRLF) }

  function TextLine(v: bytes): bytes { v + CRLF }

  /** `getBoundary`: the delimiter, the two header fields and the blank line. */
  function GetBoundary(b: bytes, charSet: bytes, contentType: bytes): bytes {
    TextLine(Delimiter(b)) + Terminated(TextHeader(contentType, charSet), CRLF) + CRLF
  }

  function EndBoundary(b: bytes): bytes { CRLF + (CloseDelimiter(b) + CRLF) }

  function AttachmentText(b: bytes, a: Attachment): bytes {
    TextLine(Delimiter(b)) + Terminated(AttachmentFields(a), CRLF) + CRLF + Payload(a.content) + CRLF
  }

  function AttachmentTexts(b: bytes, atts: seq<Attachment>): bytes {
    if atts == [] then [] else AttachmentText(b, atts[0]) + AttachmentTexts(b, atts[1..])
  }

  function AttachAllText(atts: seq<Attachment>, d: Disposition, b: bytes): bytes {
    AttachmentTexts(b, Selected(atts, d)) + TextLine(CloseDelimiter(b))
  }

  lemma {:induction false} AttachmentTextsPush(b: bytes, atts: seq<Attachment>, a: Attachment)
    ensures AttachmentTexts(b, atts + [a]) == AttachmentTexts(b, atts) + AttachmentText(b, a)
  {
    if atts == [] {
      assert atts + [a] == [a] && [a][1..] == [];
    } else {
      assert (atts + [a])[1..] == atts[1..] + [a];
      AttachmentTextsPush(b, atts[1..], a);
      Assoc(AttachmentText(b, atts[0]), AttachmentTexts(b, atts[1..]), AttachmentText(b, a));
    }
  }

  lemma {:induction false} TextsStep(b: bytes, atts: seq<Attachment>, a: Attachment, d: Disposition)
    ensures AttachmentTexts(b, Selected(atts + [a], d)) ==
      if Kept(Entries(atts), a.entry, d) then AttachmentTexts(b, Selected(atts, d)) + AttachmentText(b, a)
      else AttachmentTexts(b, Selected(atts, d))
  {
    var s := Selected(atts, d);
    assert (atts + [a])[..|atts|] == atts;
    AttachmentTextsPush(b, s, a);
    assert s + [] == s;
  }

  // ----- `attachAll` -----

  /** What the two bookkeeping collections hold after the given entries. */
  ghost predicate Tracking(es: seq<Entry>, d: Disposition, incl: seq<Entry>, cids: set<bytes>) {
    && (forall j :: 0 <= j < |es| && es[j].disposition == d ==> es[j] in incl && es[j].cid in cids)
    && (forall e :: e in incl ==> e in es && e.disposition == d)
    && (forall c :: c in cids ==> CidSeen(es, d, c))
  }

  ghost predicate CidSeen(es: seq<Entry>, d: Disposition, c: bytes) {
    exists j :: 0 <= j < |es| && es[j].disposition == d && es[j].cid == c
  }

  lemma {:induction false} KeptIff(es: seq<Entry>, e: Entry, d: Disposition, incl: seq<Entry>, cids: set<bytes>)
    requires Tracking(es, d, incl, cids) && e.disposition == d
    ensures Kept(es, e, d) <==> e !in incl && (d == Inline ==> e.cid !in cids)
    ensures e in incl ==> e.cid in cids
  {
    if e.cid in cids {
      assert CidSeen(es, d, e.cid);
    }
  }

  lemma {:induction false} TrackingStep(es: seq<Entry>, e: Entry, d: Disposition, incl: seq<Entry>, cids: set<bytes>,
                                        incl': seq<Entry>, cids': set<bytes>)
    requires Tracking(es, d, incl, cids)
    requires if e.disposition != d then incl' == incl && cids' == cids
             else incl' == (if e in incl then incl else incl + [e]) && cids' == cids + {e.cid}
    ensures Tracking(es + [e], d, incl', cids')
  {
    forall c | c in cids' ensures CidSeen(es + [e], d, c) {
      if c in cids {
        var j :| 0 <= j < |es| && es[j].disposition == d && es[j].cid == c;
        assert (es + [e])[j] == es[j];
      } else {
        assert (es + [e])[|es|] == e;
      }
    }
  }

  /** `atts` are the stored entries with the header values of those that are written under `d`. */
  ghost predicate Prepared(cfg: Settings, stored: seq<Stored>, d: Disposition, atts: seq<Attachment>) {
    |atts| == |stored| && forall i :: 0 <= i < |atts| ==> PreparedAt(cfg, stored[i], Entries(atts[..i]), d, atts[i])
  }

  ghost predicate PreparedAt(cfg: Settings, s: Stored, before: seq<Entry>, d: Disposition, a: Attachment) {
    a.entry == s.entry && a.content == s.content && (Kept(before, s.entry, d) ==> Encoded(cfg, a))
  }

  /** The loop of `attachAll`. */
  ghost predicate Attaching(cfg: Settings, stored: seq<Stored>, d: Disposition, b: bytes, atts: seq<Attachment>,
                            mime: bytes, incl: seq<Entry>, cids: set<bytes>) {
    && Prepared(cfg, stored, d, atts)
    && mime == AttachmentTexts(b, Selected(atts, d)) && Tracking(Entries(atts), d, incl, cids)
  }

  lemma {:induction false} PreparedStep(cfg: Settings, stored: seq<Stored>, s: Stored, d: Disposition,
                                        atts: seq<Attachment>, a: Attachment)
    requires Prepared(cfg, stored, d, atts) && PreparedAt(cfg, s, Entries(atts), d, a)
    ensures Prepared(cfg, stored + [s], d, atts + [a])
  {
    var now := atts + [a];
    forall i | 0 <= i < |now| ensures PreparedAt(cfg, (stored + [s])[i], Entries(now[..i]), d, now[i]) {
      if i < |atts| {
        assert now[..i] == atts[..i];
        assert PreparedAt(cfg, stored[i], Entries(atts[..i]), d, atts[i]);
      } else {
        assert now[..i] == atts;
      }
    }
  }

  lemma {:induction false} AttachingStep(cfg: Settings, stored: seq<Stored>, s: Stored, d: Disposition, b: bytes,
                                         atts: seq<Attachment>, a: Attachment,
                                         mime: bytes, incl: seq<Entry>, cids: set<bytes>,
                                         mime': bytes, incl': seq<Entry>, cids': set<bytes>)
    requires Attaching(cfg, stored, d, b, atts, mime, incl, cids)
    requires a.entry == s.entry && a.content == s.content
    requires
      if s.entry.disposition != d || s.entry in incl then mime' == mime && incl' == incl && cids' == cids
      else if d == Inline && s.entry.cid in cids then mime' == mime && incl' == incl + [s.entry] && cids' == cids
      else Encoded(cfg, a) && mime' == mime + AttachmentText(b, a) && incl' == incl + [s.entry]
           && cids' == cids + {s.entry.cid}
    ensures Attaching(cfg, stored + [s], d, b, atts + [a], mime', incl', cids')
  {
    hide AttachmentTexts, AttachmentText, Selected, Encoded, Tracking, Prepared, Kept;
    var es, e := Entries(atts), s.entry;
    TextsStep(b, atts, a, d);
    assert Entries(atts + [a]) == es + [e];
    if e.disposition == d {
      KeptIff(es, e, d, incl, cids);
      assert e.cid in cids ==> cids + {e.cid} == cids;
    }
    NotKept(es, e, d);
    TrackingStep(es, e, d, incl, cids, incl', cids');
    PreparedStep(cfg, stored, s, d, atts, a);
  }

  lemma {:induction false} NotKept(es: seq<Entry>, e: Entry, d: Disposition)
    ensures Kept(es, e, d) ==> e.disposition == d
  {
  }

  /** The header values of one entry. */
  method EncodeEntry(cfg: Settings, s: Stored) returns (a: Attachment)
    requires Nameable(cfg, s.entry)
    ensures a.entry == s.entry && a.content == s.content && Encoded(cfg, a)
  {
    var e := s.entry;
    var nameParameter: Option<bytes> := None;
    if !Empty(e.name) {
      var p, v := EncodeParameter(cfg, e.name);
      nameParameter := Some(p);
    }
    var cidValue: bytes := [];
    if HasContentId(e) {
      cidValue := EncodeSecured(cfg, e.cid);
    }
    var p, v := EncodeParameter(cfg, e.name);
    a := Attachment(e, s.content, nameParameter, if Empty(v) then None else Some(p), cidValue);
  }

  /** The text is that of the prepared entries. */
  ghost predicate IsAttachAll(cfg: Settings, stored: seq<Stored>, d: Disposition, b: bytes, mime: bytes) {
    exists atts :: Prepared(cfg, stored, d, atts) && mime == AttachAllText(atts, d, b)
  }

  lemma {:induction false} AttachingEnds(cfg: Settings, stored: seq<Stored>, d: Disposition, b: bytes,
                                         atts: seq<Attachment>, mime: bytes, incl: seq<Entry>, cids: set<bytes>)
    requires Attaching(cfg, stored, d, b, atts, mime, incl, cids)
    ensures IsAttachAll(cfg, stored, d, b, mime + TextLine(CloseDelimiter(b)))
  {
    assert mime + TextLine(CloseDelimiter(b)) == AttachAllText(atts, d, b);
  }

  /** `PHPMailer::attachAll`, with the SHA-256 of the serialised entry taken as the entry itself. */
  method AttachAll(cfg: Settings, stored: seq<Stored>, d: Disposition, b: bytes) returns (mime: bytes)
    requires forall i :: 0 <= i < |stored| ==> Nameable(cfg, stored[i].entry)
    ensures IsAttachAll(cfg, stored, d, b, mime)
  {
    mime := [];
    var cidUniq: set<bytes> := {};
    var incl: seq<Entry> := [];
    ghost var atts: seq<Attachment> := [];
    assert Attaching(cfg, [], d, b, atts, mime, incl, cidUniq);
    hide *;
    for n := 0 to |stored|
      invariant Attaching(cfg, stored[..n], d, b, atts, mime, incl, cidUniq)
    {
      var s := stored[n];
      ghost var mime0, incl0, cids0 := mime, incl, cidUniq;
      ghost var written := Attachment(s.entry, s.content, None, None, []);
      if s.entry.disposition == d {
        if s.entry !in incl {
          incl := incl + [s.entry];
          if d != Inline || s.entry.cid !in cidUniq {
            cidUniq := cidUniq + {s.entry.cid};
            var a := EncodeEntry(cfg, s);
            mime := mime + AttachmentText(b, a);
            written := a;
          }
        }
      }
      AttachingStep(cfg, stored[..n], s, d, b, atts, written, mime0, incl0, cids0, mime, incl, cidUniq);
      assert stored[..n + 1] == stored[..n] + [s];
      atts := atts + [written];
    }
    assert stored[..|stored|] == stored;
    AttachingEnds(cfg, stored, d, b, atts, mime, incl, cidUniq);
    mime := mime + TextLine(CloseDelimiter(b));
  }
}
