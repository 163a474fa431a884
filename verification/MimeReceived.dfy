/** What a receiver is shown of a composed message, told from the draft alone. */
module MimeReceived {
  import opened Bytes
  import opened MimeParser
  import opened HeaderEncoding
  import opened HeaderWriter
  import opened HeaderParameter
  import opened Mime
  import opened MimeBody
  import opened MimeRoundTrip
  import opened MimeWriter
  import opened MimeReading
  import NameReading

  // ----- the calendar's method -----

  /** The calendar mentions the method, in any letter case. */
  ghost predicate Mentions(ical: bytes, name: bytes) {
    exists i :: 0 <= i <= |ical| && Lower(Ascii("METHOD:") + name) <= Lower(ical)[i..]
  }

  /** None of the first `k` names is mentioned. */
  ghost predicate NoneOf(ical: bytes, names: seq<bytes>, k: nat)
    requires k <= |names|
  {
    forall j :: 0 <= j < k ==> !Mentions(ical, names[j])
  }

  /** The first of the names that is mentioned, or REQUEST. */
  ghost predicate IsMethod(ical: bytes, names: seq<bytes>, r: bytes) {
    || (r == Ascii("REQUEST") && NoneOf(ical, names, |names|))
    || exists k :: 0 <= k < |names| && r == names[k] && Mentions(ical, names[k]) && NoneOf(ical, names, k)
  }

  lemma {:induction false} ContainsIff(s: bytes, pat: bytes)
    ensures Contains(s, pat) <==> exists i :: 0 <= i <= |s| && pat <= s[i..]
    decreases |s|
  {
    if s != [] {
      ContainsIff(s[1..], pat);
    }
    if pat <= s {
      assert s[0..] == s;
    } else if s != [] && Contains(s[1..], pat) {
      var i :| 0 <= i <= |s[1..]| && pat <= s[1..][i..];
      assert s[i + 1..] == s[1..][i..];
    }
    if i :| 0 <= i <= |s| && pat <= s[i..] {
      if i == 0 {
        assert s[0..] == s;
      } else {
        assert s[1..][i - 1..] == s[i..];
      }
    }
  }

  lemma {:induction false} MethodOf(ical: bytes, names: seq<bytes>)
    ensures IsMethod(ical, names, IcalMethod(ical, names))
  {
    if names != [] {
      ContainsIff(Lower(ical), Lower(Ascii("METHOD:") + names[0]));
      assert Contains(Lower(ical), Lower(Ascii("METHOD:") + names[0])) <==> Mentions(ical, names[0]);
      hide Contains, Mentions, Lower, Ascii;
      if !Mentions(ical, names[0]) {
        MethodOf(ical, names[1..]);
        MethodShift(ical, names, IcalMethod(ical, names[1..]));
      }
    }
  }

  lemma {:induction false} MethodShift(ical: bytes, names: seq<bytes>, r: bytes)
    requires names != [] && !Mentions(ical, names[0]) && IsMethod(ical, names[1..], r)
    ensures IsMethod(ical, names, r)
  {
    var more := names[1..];
    hide Mentions, Ascii;
    assert forall j :: 1 <= j < |names| ==> names[j] == more[j - 1];
    if k :| 0 <= k < |more| && r == more[k] && Mentions(ical, more[k]) && NoneOf(ical, more, k) {
      assert names[k + 1] == more[k];
      assert NoneOf(ical, names, k + 1);
    } else {
      assert NoneOf(ical, names, |names|);
    }
  }

  // ----- the text parts -----

  /** The groups around the body and the inline entries, below the outermost. */
  ghost function Around(draft: Draft): seq<bytes> {
    var alt, files := draft.altBody !in {[], [48]}, Has(draft.stored, Attached);
    (if alt && files then [Ascii("multipart/alternative")] else [])
    + (if Has(draft.stored, Inline) && (alt || files) then [Ascii("multipart/related")] else [])
  }

  /** The alternatives: the plain text first, the HTML, and the calendar unless something is inline. */
  ghost predicate AlternativesShown(cfg: Settings, draft: Draft, texts: seq<Leaf>) {
    var calendar := draft.ical !in {[], [48]} && !Has(draft.stored, Inline);
    var outer := if Has(draft.stored, Attached) then [Ascii("multipart/alternative")] else [];
    && |texts| == (if calendar then 3 else 2)
    && IsTextLeaf(texts[0], outer, Ascii("text/plain"), cfg.charSet, draft.altBody)
    && IsTextLeaf(texts[1], Around(draft), Ascii("text/html"), cfg.charSet, draft.body)
    && (calendar ==> IsCalendar(texts[2], outer, cfg.charSet, draft.ical))
  }

  ghost predicate IsCalendar(l: Leaf, path: seq<bytes>, charSet: bytes, ical: bytes) {
    && IsTextLeaf(l, path, Ascii("text/calendar"), charSet, ical)
    && ParameterOf(l.header, Ascii("method")).Some?
    && IsMethod(ical,
         [Ascii("REQUEST"), Ascii("PUBLISH"), Ascii("REPLY"), Ascii("ADD"), Ascii("CANCEL"), Ascii("REFRESH"),
          Ascii("COUNTER"), Ascii("DECLINECOUNTER")],
         ParameterOf(l.header, Ascii("method")).value)
  }

  /** Without an alternative body there is one text, the body under its own type. */
  ghost predicate BodyShown(cfg: Settings, draft: Draft, texts: seq<Leaf>) {
    && |texts| == 1 && texts[0].path == Around(draft) && texts[0].content == draft.body
    && MediaType(texts[0].header) == Some(UpToSemicolon(draft.contentType))
    && (59 !in draft.contentType ==> IsTextLeaf(texts[0], Around(draft), draft.contentType, cfg.charSet, draft.body))
  }

  lemma {:induction false} TypeBefore(t: bytes, rest: bytes)
    ensures UpToSemicolon(t + ([59] + rest)) == UpToSemicolon(t)
  {
    var i := IndexOf(t, 59);
    if i == |t| {
      hide UpToSemicolon, IndexOf;
      FirstSemicolon(t, rest);
    } else {
      LaterSemicolon(t, i, [59] + rest);
    }
  }

  lemma {:induction false} CharsetSuffix(charSet: bytes)
    ensures Ascii("; charset=") + charSet == [59] + (Ascii(" charset=") + charSet)
  {
    assert Ascii("; charset=") == [59] + Ascii(" charset=");
    hide Ascii;
    Assoc([59], Ascii(" charset="), charSet);
  }

  lemma {:induction false} BodyType(t: bytes, charSet: bytes)
    ensures MediaType(TextHeader(t, charSet)) == Some(UpToSemicolon(t))
  {
    var value := t + (Ascii("; charset=") + charSet);
    CharsetSuffix(charSet);
    hide MediaType, Ascii, Field, UpToSemicolon;
    TextFields(value, TextHeader(t, charSet));
    TypeBefore(t, Ascii(" charset=") + charSet);
  }

  lemma {:induction false} NoSemicolonInCharset(cfg: Settings)
    requires Encodable(cfg)
    ensures 59 !in cfg.charSet
  {
    LabelSafe(cfg, [128]);
    assert Has8Bit([128]) by {
      var s: bytes := [128];
      assert s[0] >= 128;
    }
  }

  lemma {:induction false} NoSemicolonInMethod(ical: bytes, names: seq<bytes>)
    requires forall j :: 0 <= j < |names| ==> 59 !in names[j]
    ensures 59 !in IcalMethod(ical, names)
  {
    if names == [] {
      var r := Ascii("REQUEST");
      assert forall i :: 0 <= i < |r| ==> r[i] != 59;
    } else {
      NoSemicolonInMethod(ical, names[1..]);
    }
  }

  lemma {:induction false} MethodNames()
    ensures forall j :: 0 <= j < |ICAL_METHODS| ==> 59 !in ICAL_METHODS[j]
  {
  }

  // ----- the leaves of the part tree -----

  function Inner(m: Message): seq<bytes> {
    (if HasAlt(m) && HasDisposition(m, Attached) then [Ascii("multipart/alternative")] else [])
    + (if HasDisposition(m, Inline) && (HasAlt(m) || HasDisposition(m, Attached)) then [Ascii("multipart/related")]
       else [])
  }

  function Outer(m: Message): seq<bytes> {
    if HasDisposition(m, Attached) then [Ascii("multipart/alternative")] else []
  }

  function TextOf(m: Message, path: seq<bytes>, t: bytes, content: bytes): Leaf {
    Leaf(path, TextHeader(t, m.charSet), content)
  }

  function CalendarOf(m: Message, path: seq<bytes>): seq<Leaf> {
    if HasIcal(m) then [TextOf(m, path, IcalType(m), m.ical)] else []
  }

  function TextLeaves(m: Message): seq<Leaf> {
    if !HasAlt(m) then [TextOf(m, Inner(m), m.contentType, m.body)]
    else
      [TextOf(m, Outer(m), PLAIN, m.altBody), TextOf(m, Inner(m), HTML, m.body)]
      + (if HasDisposition(m, Inline) then [] else CalendarOf(m, Outer(m)))
  }

  function InlineLeaves(m: Message): seq<Leaf> { FileLeaves(Selected(m.attachments, Inline), Inner(m)) }

  function AttachedLeaves(m: Message): seq<Leaf> { FileLeaves(Selected(m.attachments, Attached), []) }

  lemma {:induction false} NoneSelected(atts: seq<Attachment>, d: Disposition)
    requires forall i :: 0 <= i < |atts| ==> atts[i].entry.disposition != d
    ensures Selected(atts, d) == []
  {
    if atts != [] {
      NoneSelected(atts[..|atts| - 1], d);
    }
  }

  /** A text with files behind it in one group. */
  lemma {:induction false} TextWithFiles(m: Message, t: bytes, content: bytes, atts: seq<Attachment>, path: seq<bytes>)
    ensures Leaves([TextData(m, t, content)] + AttachmentParts(atts), path)
      == [TextOf(m, path, t, content)] + FileLeaves(atts, path)
  {
    LeavesCons(TextData(m, t, content), AttachmentParts(atts), path);
    hide Leaves, TextHeader;
    LeavesOfFiles(atts, path);
  }

  lemma {:induction false} Alternatives(m: Message, path: seq<bytes>)
    ensures Leaves([AltData(m), HtmlData(m)] + IcalParts(m), path)
      == [TextOf(m, path, PLAIN, m.altBody), TextOf(m, path, HTML, m.body)] + CalendarOf(m, path)
  {
    hide Leaves, TextHeader, IcalType;
    LeavesConcat([AltData(m), HtmlData(m)], IcalParts(m), path);
    assert [AltData(m), HtmlData(m)] == [AltData(m)] + [HtmlData(m)];
    LeavesCons(AltData(m), [HtmlData(m)], path);
    LeavesOne(HtmlData(m), path);
    if HasIcal(m) {
      LeavesOne(TextData(m, IcalType(m), m.ical), path);
    } else {
      NoLeaves(path);
    }
  }

  lemma {:induction false} NoLeaves(path: seq<bytes>)
    ensures Leaves([], path) == []
  {
  }

  lemma {:induction false} GroupLeaves(header: seq<bytes>, parts: seq<Part>, path: seq<bytes>, t: bytes)
    requires MediaType(header) == Some(t)
    ensures LeavesOf(Group(header, parts), path) == Leaves(parts, path + [t])
  {
    hide MediaType;
  }

  lemma {:induction false} Related(m: Message, b: bytes, t: bytes, content: bytes, path: seq<bytes>)
    ensures LeavesOf(Group(RelatedHeader(b), [TextData(m, t, content)] + InlineParts(m)), path)
      == [TextOf(m, path + [Ascii("multipart/related")], t, content)]
         + FileLeaves(Selected(m.attachments, Inline), path + [Ascii("multipart/related")])
  {
    hide Leaves, LeavesOf, MediaType, RelatedHeader, Ascii, Selected;
    GroupTypes(b);
    var path' := path + [Ascii("multipart/related")];
    GroupLeaves(RelatedHeader(b), [TextData(m, t, content)] + InlineParts(m), path, Ascii("multipart/related"));
    TextWithFiles(m, t, content, Selected(m.attachments, Inline), path');
  }

  lemma {:induction false} InAlternative(b: bytes, parts: seq<Part>)
    ensures LeavesOf(Group(AlternativeHeader(b), parts), []) == Leaves(parts, [Ascii("multipart/alternative")])
  {
    hide Leaves, LeavesOf, MediaType, AlternativeHeader, Ascii;
    GroupTypes(b);
    GroupLeaves(AlternativeHeader(b), parts, [], Ascii("multipart/alternative"));
    assert [] + [Ascii("multipart/alternative")] == [Ascii("multipart/alternative")];
  }

  /** Some group, and the attached files behind it. */
  lemma {:induction false} ThenFiles(p: Part, m: Message)
    ensures Leaves([p] + AttachedParts(m), []) == LeavesOf(p, []) + AttachedLeaves(m)
  {
    hide Leaves, LeavesOf, Selected;
    LeavesCons(p, AttachedParts(m), []);
    LeavesOfFiles(Selected(m.attachments, Attached), []);
  }

  lemma {:induction false} WithoutAlternative(m: Message)
    requires !HasAlt(m) && IsMultipart(m)
    ensures Leaves(ExpectedParts(m), []) == TextLeaves(m) + InlineLeaves(m) + AttachedLeaves(m)
  {
    hide Leaves, LeavesOf, RelatedHeader, Ascii, Selected, TextData, AttachmentParts;
    if !HasDisposition(m, Inline) {
      NoneSelected(m.attachments, Inline);
      assert InlineLeaves(m) == [];
    }
    if !HasDisposition(m, Attached) {
      NoneSelected(m.attachments, Attached);
      assert AttachedLeaves(m) == [];
    }
    if HasDisposition(m, Inline) && HasDisposition(m, Attached) {
      assert Inner(m) == [] + [Ascii("multipart/related")];
      Related(m, B2(m), m.contentType, m.body, []);
      ThenFiles(Group(RelatedHeader(B2(m)), [TextData(m, m.contentType, m.body)] + InlineParts(m)), m);
    } else if HasDisposition(m, Inline) {
      assert Inner(m) == [];
      TextWithFiles(m, m.contentType, m.body, Selected(m.attachments, Inline), []);
    } else {
      assert Inner(m) == [];
      TextWithFiles(m, m.contentType, m.body, Selected(m.attachments, Attached), []);
    }
  }

  lemma {:induction false} WithAlternative(m: Message)
    requires HasAlt(m)
    ensures Leaves(ExpectedParts(m), []) == TextLeaves(m) + InlineLeaves(m) + AttachedLeaves(m)
  {
    hide Leaves, LeavesOf, RelatedHeader, AlternativeHeader, Ascii, Selected, TextData, AttachmentParts, IcalType,
         TextHeader;
    if !HasDisposition(m, Inline) {
      NoneSelected(m.attachments, Inline);
      assert InlineLeaves(m) == [];
    }
    if !HasDisposition(m, Attached) {
      NoneSelected(m.attachments, Attached);
      assert AttachedLeaves(m) == [];
    }
    var alternative := [Ascii("multipart/alternative")];
    if HasDisposition(m, Inline) {
      if HasDisposition(m, Attached) {
        assert Inner(m) == alternative + [Ascii("multipart/related")];
        AltThenRelated(m, B3(m), alternative);
        var parts := [AltData(m), Group(RelatedHeader(B3(m)), [HtmlData(m)] + InlineParts(m))];
        InAlternative(B2(m), parts);
        ThenFiles(Group(AlternativeHeader(B2(m)), parts), m);
      } else {
        assert Inner(m) == [] + [Ascii("multipart/related")];
        AltThenRelated(m, B2(m), []);
      }
    } else if HasDisposition(m, Attached) {
      assert Inner(m) == alternative;
      Alternatives(m, alternative);
      InAlternative(B2(m), [AltData(m), HtmlData(m)] + IcalParts(m));
      ThenFiles(Group(AlternativeHeader(B2(m)), [AltData(m), HtmlData(m)] + IcalParts(m)), m);
    } else {
      assert Inner(m) == [];
      Alternatives(m, []);
    }
  }

  lemma {:induction false} LeavesOfText(m: Message, t: bytes, content: bytes, path: seq<bytes>)
    ensures LeavesOf(TextData(m, t, content), path) == [TextOf(m, path, t, content)]
  {
  }

  lemma {:induction false} AltThenRelated(m: Message, b: bytes, path: seq<bytes>)
    ensures var inner := path + [Ascii("multipart/related")];
      Leaves([AltData(m), Group(RelatedHeader(b), [HtmlData(m)] + InlineParts(m))], path)
        == [TextOf(m, path, PLAIN, m.altBody), TextOf(m, inner, HTML, m.body)]
           + FileLeaves(Selected(m.attachments, Inline), inner)
  {
    LeavesOfText(m, PLAIN, m.altBody, path);
    Related(m, b, HTML, m.body, path);
    hide Leaves, LeavesOf, RelatedHeader, Ascii, Selected, TextData, TextOf, FileLeaves, AttachmentParts;
    LeavesOfPair(AltData(m), Group(RelatedHeader(b), [HtmlData(m)] + InlineParts(m)), path);
  }

  lemma {:induction false} LeavesOfPair(p: Part, q: Part, path: seq<bytes>)
    ensures Leaves([p, q], path) == LeavesOf(p, path) + LeavesOf(q, path)
  {
    hide Leaves, LeavesOf;
    assert [p, q] == [p] + [q];
    LeavesCons(p, [q], path);
    LeavesOne(q, path);
  }

  // ----- what is shown -----

  lemma {:induction false} SameHas(cfg: Settings, draft: Draft, m: Message, d: Disposition)
    requires BuiltFrom(cfg, draft, m)
    ensures HasDisposition(m, d) == Has(draft.stored, d)
  {
    SameEntries(cfg, draft.stored, Inline, m.attachments);
    hide Prepared;
    if HasDisposition(m, d) {
      var i :| 0 <= i < |m.attachments| && m.attachments[i].entry.disposition == d;
      assert draft.stored[i].entry.disposition == d;
    }
    if Has(draft.stored, d) {
      var i :| 0 <= i < |draft.stored| && draft.stored[i].entry.disposition == d;
      assert m.attachments[i].entry.disposition == d;
    }
  }

  /** The message agrees with the draft in everything that is not an attachment. */
  ghost predicate TextsOf(cfg: Settings, draft: Draft, m: Message) {
    && m.body == draft.body && m.altBody == draft.altBody && m.ical == draft.ical
    && m.charSet == cfg.charSet && m.contentType == draft.contentType && m.id == draft.id
    && forall d :: HasDisposition(m, d) == Has(draft.stored, d)
  }

  lemma {:induction false} TextsOfBuilt(cfg: Settings, draft: Draft, m: Message)
    requires BuiltFrom(cfg, draft, m)
    ensures TextsOf(cfg, draft, m)
  {
    hide HasDisposition, Has, Prepared;
    forall d ensures HasDisposition(m, d) == Has(draft.stored, d) {
      SameHas(cfg, draft, m, d);
    }
  }

  lemma {:induction false} PathsAre(cfg: Settings, draft: Draft, m: Message)
    requires TextsOf(cfg, draft, m)
    ensures Inner(m) == Around(draft)
    ensures Outer(m) == if Has(draft.stored, Attached) then [Ascii("multipart/alternative")] else []
  {
    hide HasDisposition, Has, Ascii;
  }

  lemma {:induction false} CalendarIs(cfg: Settings, m: Message, path: seq<bytes>)
    requires Encodable(cfg) && m.charSet == cfg.charSet
    ensures IsCalendar(TextOf(m, path, IcalType(m), m.ical), path, m.charSet, m.ical)
  {
    NoSemicolonInCharset(cfg);
    MethodNames();
    NoSemicolonInMethod(m.ical, ICAL_METHODS);
    MethodOf(m.ical, ICAL_METHODS);
    hide Ascii, IcalMethod, IsMethod, IsTextLeaf, TextHeader, ParameterOf, Encodable;
    CalendarLeaf(IcalMethod(m.ical, ICAL_METHODS), m.charSet, m.ical, path);
  }

  lemma {:induction false} TextIs(m: Message, path: seq<bytes>, t: bytes, content: bytes)
    requires 59 !in t && 59 !in m.charSet
    ensures IsTextLeaf(TextOf(m, path, t, content), path, t, m.charSet, content)
  {
    hide IsTextLeaf;
    TextLeaf(t, m.charSet, content, path);
  }

  lemma {:induction false} AlternativeLeaves(m: Message)
    requires HasAlt(m)
    ensures var ts := TextLeaves(m);
      && |ts| == (if HasIcal(m) && !HasDisposition(m, Inline) then 3 else 2)
      && ts[0] == TextOf(m, Outer(m), PLAIN, m.altBody) && ts[1] == TextOf(m, Inner(m), HTML, m.body)
      && (|ts| == 3 ==> ts[2] == TextOf(m, Outer(m), IcalType(m), m.ical))
  {
    hide Outer, Inner, TextOf, IcalType, HasDisposition;
  }

  lemma {:induction false} AlternativesAre(cfg: Settings, draft: Draft, m: Message)
    requires TextsOf(cfg, draft, m) && Encodable(cfg) && HasAlt(m)
    ensures AlternativesShown(cfg, draft, TextLeaves(m)) && Inner(m) == Around(draft)
  {
    PathsAre(cfg, draft, m);
    NoSemicolonInCharset(cfg);
    NoSemicolons();
    hide HasDisposition, Has, Ascii, IcalType, IsCalendar, IsTextLeaf, TextHeader, Encodable, Inner, Outer, Around;
    TextIs(m, Outer(m), PLAIN, m.altBody);
    TextIs(m, Inner(m), HTML, m.body);
    CalendarIs(cfg, m, Outer(m));
    AlternativeLeaves(m);
    hide TextOf, TextLeaves;
  }

  lemma {:induction false} BodyIs(cfg: Settings, draft: Draft, m: Message)
    requires TextsOf(cfg, draft, m) && Encodable(cfg) && !HasAlt(m)
    ensures BodyShown(cfg, draft, TextLeaves(m)) && Inner(m) == Around(draft)
  {
    PathsAre(cfg, draft, m);
    NoSemicolonInCharset(cfg);
    hide HasDisposition, Has, Ascii, IsTextLeaf, TextHeader, Encodable, MediaType, UpToSemicolon;
    BodyType(m.contentType, m.charSet);
    if 59 !in m.contentType {
      TextLeaf(m.contentType, m.charSet, m.body, Inner(m));
    }
  }

  lemma {:induction false} FilesShown(cfg: Settings, draft: Draft, m: Message, d: Disposition, path: seq<bytes>)
    requires ValidDraft(cfg, draft) && BuiltFrom(cfg, draft, m)
    ensures AreFiles(cfg, draft.stored, d, path, FileLeaves(Selected(m.attachments, d), path))
  {
    hide LeafType, SentOrder, LeavesMatch, FileLeaves, Selected, Encodable, Prepared;
    var _ := FilesOf(cfg, draft.stored, d, m.attachments, path);
  }

  lemma {:induction false} FirstBoundary(m: Message)
    ensures B1(m) == Ascii("b1=_") + m.id
  {
    assert Ascii("b1=_") == [98, 49, 61, 95];
  }

  /** What a receiver finds in the text `createBody` writes for a draft. With an alternative body: it first, as plain
      text; then the body, as HTML; then the calendar, unless something is inline. Without: the body, as its own type.
      All in the mailer's charset. Then the inline entries, beside the HTML; then the attached ones. */
  lemma {:induction false} WhatIsShown(cfg: Settings, draft: Draft, body: bytes)
    returns (parts: seq<Part>, texts: seq<Leaf>, inlined: seq<Leaf>, attached: seq<Leaf>)
    requires ValidDraft(cfg, draft) && exists m :: RoundTrip(cfg, draft, body, m)
    requires draft.altBody !in {[], [48]} || draft.stored != []
    ensures ParseParts(CrlfLines(body), Ascii("b1=_") + draft.id) == Some(parts)
    ensures Leaves(parts, []) == texts + inlined + attached
    ensures if draft.altBody in {[], [48]} then BodyShown(cfg, draft, texts) else AlternativesShown(cfg, draft, texts)
    ensures AreFiles(cfg, draft.stored, Inline, Around(draft), inlined)
    ensures AreFiles(cfg, draft.stored, Attached, [], attached)
  {
    var m :| RoundTrip(cfg, draft, body, m);
    TextsOfBuilt(cfg, draft, m);
    FirstBoundary(m);
    MultipartIff(cfg, draft, m);
    FilesShown(cfg, draft, m, Inline, Inner(m));
    FilesShown(cfg, draft, m, Attached, []);
    parts, texts, inlined, attached := ExpectedParts(m), TextLeaves(m), InlineLeaves(m), AttachedLeaves(m);
    hide BuiltFrom, ParseParts, CrlfLines, Leaves, ExpectedParts, TextLeaves, AreFiles, Inner, Around, BodyShown,
         AlternativesShown, HasDisposition, Has, Ascii, Dashed, Frame, B1;
    if HasAlt(m) {
      WithAlternative(m);
      AlternativesAre(cfg, draft, m);
    } else {
      WithoutAlternative(m);
      BodyIs(cfg, draft, m);
    }
  }

  lemma {:induction false} MultipartIff(cfg: Settings, draft: Draft, m: Message)
    requires TextsOf(cfg, draft, m)
    ensures IsMultipart(m) <==> draft.altBody !in {[], [48]} || draft.stored != []
  {
    if draft.stored != [] {
      assert Has(draft.stored, draft.stored[0].entry.disposition);
    }
  }

  /** The name of a file is shown as it was secured exactly under the condition that can be checked before writing. */
  lemma {:induction false} FileNameShown(cfg: Settings, l: Leaf, path: seq<bytes>, s: Stored)
    requires Encodable(cfg) && IsFileLeaf(cfg, l, path, s) && FileName(l.header).Some?
    ensures var name := SecureHeader(s.entry.name);
      NameReading.Received(FileName(l.header).value) == Some(name) <==> NameReading.ReadsBack(cfg, name)
  {
    hide IsSecured, FileName, NameReading.Received, NameReading.ReadsBack, QuotedString, MediaType, SecureHeader,
         Encodable;
    var v :| IsSecured(cfg, s.entry.name, v)
      && FileName(l.header) == if v in {[], [48]} then None else Some(QuotedString(v));
    NameReading.NameReadsBackIff(cfg, s.entry.name, v);
  }
}
