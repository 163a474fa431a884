/** A receiver's view of a multipart body: a header reader that knows nothing of the writer, and what it finds. */
module MimeReading {
  import opened Bytes
  import opened LineBreaks
  import opened Folding
  import opened MimeParser
  import opened HeaderEncoding
  import opened HeaderWriter
  import opened HeaderParameter
  import opened Mime
  import opened MimeText
  import opened MimeBody
  import opened MimeRoundTrip
  import opened MimeWriter

  // ----- header fields, sections 2.2 of RFC 5322 and 5.1 of RFC 2045 -----

  predicate Folded(line: bytes) { line != [] && (line[0] == 32 || line[0] == 9) }

  /** The fields, each with the lines it is folded over. */
  function Fields(header: seq<bytes>): (r: seq<bytes>)
    ensures header != [] ==> r != []
  {
    if header == [] then []
    else
      var rest := Fields(header[1..]);
      if |header| > 1 && Folded(header[1]) then [header[0] + [13, 10] + rest[0]] + rest[1..]
      else [header[0]] + rest
  }

  /** The value of the first field with this name, in any letter case. */
  function ValueOf(fields: seq<bytes>, name: bytes): Option<bytes> {
    if fields == [] then None
    else if StartsLike(fields[0], name + [58, 32]) then Some(fields[0][|name| + 2..])
    else ValueOf(fields[1..], name)
  }

  /** The part of a value before its first semicolon. */
  function UpToSemicolon(value: bytes): bytes { value[..IndexOf(value, 59)] }

  /** The value of the first parameter with this name. */
  function Parameter(parameters: seq<bytes>, name: bytes): Option<bytes> {
    if parameters == [] then None
    else if StartsLike(parameters[0], [32] + (name + [61])) then Some(parameters[0][|name| + 2..])
    else Parameter(parameters[1..], name)
  }

  function MediaType(header: seq<bytes>): Option<bytes> {
    match ValueOf(Fields(header), Ascii("Content-Type"))
    case Some(v) => Some(UpToSemicolon(v))
    case None => None
  }

  function ParameterOf(header: seq<bytes>, name: bytes): Option<bytes> {
    match ValueOf(Fields(header), Ascii("Content-Type"))
    case Some(v) => Parameter(SplitOn(v, 59)[1..], name)
    case None => None
  }

  function TransferEncoding(header: seq<bytes>): Option<bytes> {
    ValueOf(Fields(header), Ascii("Content-Transfer-Encoding"))
  }

  function ContentId(header: seq<bytes>): Option<bytes> { ValueOf(Fields(header), Ascii("Content-ID")) }

  function DispositionWord(header: seq<bytes>): Option<bytes> {
    match ValueOf(Fields(header), Ascii("Content-Disposition"))
    case Some(v) => Some(UpToSemicolon(v))
    case None => None
  }

  /** The file name as it is written: all that follows the first semicolon, when it starts so. */
  function FileName(header: seq<bytes>): Option<bytes> {
    match ValueOf(Fields(header), Ascii("Content-Disposition"))
    case None => None
    case Some(v) =>
      var i := IndexOf(v, 59);
      if i < |v| && StartsLike(v[i + 1..], Ascii(" filename=")) then Some(v[i + 11..]) else None
  }

  // ----- what a receiver lists -----

  /** A leaf of the part tree, with the media types of the groups around it from the outside in. */
  datatype Leaf = Leaf(path: seq<bytes>, header: seq<bytes>, content: bytes)

  function Leaves(parts: seq<Part>, path: seq<bytes>): seq<Leaf>
    decreases parts
  {
    if parts == [] then [] else LeavesOf(parts[0], path) + Leaves(parts[1..], path)
  }

  function LeavesOf(p: Part, path: seq<bytes>): seq<Leaf>
    decreases p
  {
    match p
    case Data(header, content) => [Leaf(path, header, content)]
    case Group(header, parts) =>
      match MediaType(header)
      case Some(t) => Leaves(parts, path + [t])
      case None => []
  }

  /** A text with this media type, charset and content, neither shown as a file nor referred to. */
  ghost predicate IsTextLeaf(l: Leaf, path: seq<bytes>, mediaType: bytes, charSet: bytes, content: bytes) {
    && l.path == path && l.content == content
    && MediaType(l.header) == Some(mediaType)
    && ParameterOf(l.header, Ascii("charset")) == Some(charSet)
    && TransferEncoding(l.header) == Some(Ascii("base64"))
    && DispositionWord(l.header) == None && ContentId(l.header) == None
  }

  /** A stored entry as it was given: its type and content, the word of its disposition, its content id in angle
      brackets when it is inline and has one, and its file name unless nothing is left of it; both as the encoder writes
      them. */
  ghost predicate IsFileLeaf(cfg: Settings, l: Leaf, path: seq<bytes>, s: Stored) {
    && l.path == path && l.content == s.content
    && MediaType(l.header) == Some(UpToSemicolon(s.entry.mimeType))
    && TransferEncoding(l.header) == Some(Ascii("base64"))
    && DispositionWord(l.header) == Some(if s.entry.disposition == Inline then Ascii("inline") else Ascii("attachment"))
    && (if s.entry.disposition == Inline && s.entry.cid != []
        then exists v :: IsSecured(cfg, s.entry.cid, v) && ContentId(l.header) == Some([60] + (v + [62]))
        else ContentId(l.header) == None)
    && exists v ::
      IsSecured(cfg, s.entry.name, v) && FileName(l.header) == if v in {[], [48]} then None else Some(QuotedString(v))
  }

  /** Which entries are sent under a disposition: those that have it, but no entry twice, and of inline ones only the
      first with its content id. */
  ghost predicate Sent(stored: seq<Stored>, d: Disposition, i: nat) {
    && i < |stored| && stored[i].entry.disposition == d
    && (forall j :: 0 <= j < i ==> stored[j].entry != stored[i].entry)
    && (d == Inline ==>
      forall j :: 0 <= j < i && stored[j].entry.disposition == Inline ==> stored[j].entry.cid != stored[i].entry.cid)
  }

  ghost predicate Increasing(order: seq<nat>) { forall a, b :: 0 <= a < b < |order| ==> order[a] < order[b] }

  /** The positions of the entries sent under the disposition. */
  ghost predicate SentOrder(stored: seq<Stored>, d: Disposition, order: seq<nat>) {
    Increasing(order) && forall i: nat :: i in order <==> Sent(stored, d, i)
  }

  ghost predicate LeavesMatch(cfg: Settings, stored: seq<Stored>, path: seq<bytes>, leaves: seq<Leaf>, order: seq<nat>) {
    && |leaves| == |order|
    && forall k :: 0 <= k < |order| ==> order[k] < |stored| && IsFileLeaf(cfg, leaves[k], path, stored[order[k]])
  }

  /** The leaves are exactly the entries sent under the disposition, in their order. */
  ghost predicate AreFiles(cfg: Settings, stored: seq<Stored>, d: Disposition, path: seq<bytes>, leaves: seq<Leaf>) {
    exists order :: SentOrder(stored, d, order) && LeavesMatch(cfg, stored, path, leaves, order)
  }

  ghost predicate Has(stored: seq<Stored>, d: Disposition) {
    exists i :: 0 <= i < |stored| && stored[i].entry.disposition == d
  }

  // ----- reading fields -----

  lemma {:induction false} FieldsStep(line: bytes, more: seq<bytes>)
    ensures Fields([line] + more) ==
      if more != [] && Folded(more[0]) then [line + [13, 10] + Fields(more)[0]] + Fields(more)[1..]
      else [line] + Fields(more)
  {
    assert ([line] + more)[1..] == more;
  }

  /** The lines of one folded field, in front of other fields. */
  lemma {:induction false} FieldsOfOne(lines: seq<bytes>, more: seq<bytes>)
    requires lines != [] && (forall n :: 1 <= n < |lines| ==> Folded(lines[n])) && (more != [] ==> !Folded(more[0]))
    ensures Fields(lines + more) == [Join(lines, CRLF)] + Fields(more)
  {
    var rest := lines[1..] + more;
    assert lines + more == [lines[0]] + rest;
    FieldsStep(lines[0], rest);
    if |lines| == 1 {
      assert rest == more;
    } else {
      assert rest[0] == lines[1] && Folded(lines[1]);
      FieldsOfOne(lines[1..], more);
      hide Fields, Folded;
      assert Fields(rest)[0] == Join(lines[1..], CRLF);
      assert Fields(rest)[1..] == Fields(more);
    }
  }

  /** Fields written one after the other, each well folded, are read back as they were. */
  lemma {:induction false} FieldsOfLines(fields: seq<bytes>)
    requires forall i :: 0 <= i < |fields| ==> FoldSafe(fields[i]) && !Folded(CrlfLines(fields[i])[0])
    ensures Fields(FieldLines(fields)) == fields
    ensures fields != [] ==> FieldLines(fields) != [] && FieldLines(fields)[0] == CrlfLines(fields[0])[0]
  {
    if fields != [] {
      var lines, more := CrlfLines(fields[0]), FieldLines(fields[1..]);
      FieldsOfLines(fields[1..]);
      JoinOfLines(fields[0]);
      assert FoldSafe(fields[0]);
      hide Fields, CrlfLines;
      assert more != [] ==> fields[1..] != [];
      FieldsOfOne(lines, more);
    }
  }

  lemma {:induction false} NamedField(name: bytes, value: bytes)
    ensures StartsLike(Field(name, value), name + [58, 32]) && Field(name, value)[|name| + 2..] == value
  {
    assert Field(name, value) == (name + [58, 32]) + value;
    LowerConcat(name + [58, 32], value);
  }

  /** Names that differ at some place name different fields. */
  lemma {:induction false} OtherField(other: bytes, value: bytes, name: bytes, k: nat)
    requires k < |other| && k < |name| && LowerByte(other[k]) != LowerByte(name[k])
    ensures !StartsLike(Field(other, value), name + [58, 32])
  {
    var f, p := Field(other, value), name + [58, 32];
    assert f[k] == other[k] && p[k] == name[k];
    assert Lower(f)[k] != Lower(p)[k];
  }

  lemma {:induction false} NamesDiffer(value: bytes)
    ensures var f := Field(Ascii("Content-Type"), value);
      && !StartsLike(f, Ascii("Content-Transfer-Encoding") + [58, 32])
      && !StartsLike(f, Ascii("Content-ID") + [58, 32]) && !StartsLike(f, Ascii("Content-Disposition") + [58, 32])
    ensures var f := Field(Ascii("Content-Transfer-Encoding"), value);
      && !StartsLike(f, Ascii("Content-ID") + [58, 32]) && !StartsLike(f, Ascii("Content-Disposition") + [58, 32])
    ensures !StartsLike(Field(Ascii("Content-ID"), value), Ascii("Content-Disposition") + [58, 32])
    ensures !StartsLike(Field(Ascii("Content-Disposition"), value), Ascii("Content-ID") + [58, 32])
  {
    var t, e, i, d := "Content-Type", "Content-Transfer-Encoding", "Content-ID", "Content-Disposition";
    assert t[8] == 'T' && t[9] == 'y' && e[8] == 'T' && e[9] == 'r' && i[8] == 'I' && d[8] == 'D';
    var ta, ea, ia, da := Ascii(t), Ascii(e), Ascii(i), Ascii(d);
    assert ta[8] == 84 && ta[9] == 121 && ea[8] == 84 && ea[9] == 114 && ia[8] == 73 && da[8] == 68;
    hide Ascii, StartsLike, Field;
    OtherField(ta, value, ea, 9);
    OtherField(ta, value, ia, 8);
    OtherField(ta, value, da, 8);
    OtherField(ea, value, ia, 8);
    OtherField(ea, value, da, 8);
    OtherField(ia, value, da, 8);
    OtherField(da, value, ia, 8);
  }

  function OptionalField(name: bytes, value: Option<bytes>): seq<bytes> {
    match value
    case Some(v) => [Field(name, v)]
    case None => []
  }

  lemma {:induction false} ValueStep(name: bytes, value: bytes, rest: seq<bytes>, wanted: bytes)
    ensures wanted == name ==> ValueOf([Field(name, value)] + rest, wanted) == Some(value)
    ensures !StartsLike(Field(name, value), wanted + [58, 32]) ==>
      ValueOf([Field(name, value)] + rest, wanted) == ValueOf(rest, wanted)
  {
    NamedField(name, value);
    hide Field, StartsLike;
    assert ([Field(name, value)] + rest)[1..] == rest;
  }

  /** The four fields of a leaf, two of them optional. */
  lemma {:induction false} ValuesOf(fields: seq<bytes>, contentType: bytes, cid: Option<bytes>,
                                    disposition: Option<bytes>)
    requires fields == [Field(Ascii("Content-Type"), contentType)]
      + ([Field(Ascii("Content-Transfer-Encoding"), Ascii("base64"))]
      + (OptionalField(Ascii("Content-ID"), cid) + OptionalField(Ascii("Content-Disposition"), disposition)))
    ensures ValueOf(fields, Ascii("Content-Type")) == Some(contentType)
    ensures ValueOf(fields, Ascii("Content-Transfer-Encoding")) == Some(Ascii("base64"))
    ensures ValueOf(fields, Ascii("Content-ID")) == cid
    ensures ValueOf(fields, Ascii("Content-Disposition")) == disposition
  {
    NamesDiffer(contentType);
    NamesDiffer(Ascii("base64"));
    var t, e := Ascii("Content-Type"), Ascii("Content-Transfer-Encoding");
    var i, d := Ascii("Content-ID"), Ascii("Content-Disposition");
    var last := OptionalField(i, cid) + OptionalField(d, disposition);
    LastValues(cid, disposition);
    hide *;
    var rest := [Field(e, Ascii("base64"))] + last;
    ValueStep(t, contentType, rest, t);
    ValueStep(t, contentType, rest, e);
    ValueStep(t, contentType, rest, i);
    ValueStep(t, contentType, rest, d);
    ValueStep(e, Ascii("base64"), last, e);
    ValueStep(e, Ascii("base64"), last, i);
    ValueStep(e, Ascii("base64"), last, d);
  }

  lemma {:induction false} OptionalValue(name: bytes, value: Option<bytes>, rest: seq<bytes>, wanted: bytes)
    requires wanted == name ==> ValueOf(rest, wanted) == None
    requires value.Some? && wanted != name ==> !StartsLike(Field(name, value.value), wanted + [58, 32])
    ensures ValueOf(OptionalField(name, value) + rest, wanted) == if wanted == name then value else ValueOf(rest, wanted)
  {
    hide Field, StartsLike, ValueOf;
    match value
    case None => assert OptionalField(name, value) + rest == rest;
    case Some(v) => ValueStep(name, v, rest, wanted);
  }

  lemma {:induction false} LastValues(cid: Option<bytes>, disposition: Option<bytes>)
    ensures var rest := OptionalField(Ascii("Content-ID"), cid) + OptionalField(Ascii("Content-Disposition"), disposition);
      ValueOf(rest, Ascii("Content-ID")) == cid && ValueOf(rest, Ascii("Content-Disposition")) == disposition
  {
    var i, d := Ascii("Content-ID"), Ascii("Content-Disposition");
    if cid.Some? {
      NamesDiffer(cid.value);
    }
    if disposition.Some? {
      NamesDiffer(disposition.value);
    }
    NoValue(i);
    NoValue(d);
    assert |i| != |d|;
    hide Ascii, StartsLike, ValueOf, Field, OptionalField;
    OptionalValue(d, disposition, [], i);
    OptionalValue(d, disposition, [], d);
    assert OptionalField(d, disposition) + [] == OptionalField(d, disposition);
    OptionalValue(i, cid, OptionalField(d, disposition), i);
    OptionalValue(i, cid, OptionalField(d, disposition), d);
  }

  lemma {:induction false} NoValue(name: bytes)
    ensures ValueOf([], name) == None
  {
  }

  // ----- text parts -----

  lemma {:induction false} FirstSemicolon(pre: bytes, rest: bytes)
    requires 59 !in pre
    ensures UpToSemicolon(pre + ([59] + rest)) == pre
    ensures SplitOn(pre + ([59] + rest), 59) == [pre] + SplitOn(rest, 59)
    ensures UpToSemicolon(pre) == pre && SplitOn(pre, 59) == [pre]
  {
    IndexAfter(pre, 59, rest);
    var v := pre + ([59] + rest);
    assert v[..|pre|] == pre && v[|pre| + 1..] == rest;
    assert IndexOf(pre, 59) == |pre|;
  }

  lemma {:induction false} NamedParameter(name: bytes, value: bytes)
    ensures var p := [32] + (name + [61]) + value; StartsLike(p, [32] + (name + [61])) && p[|name| + 2..] == value
  {
    LowerConcat([32] + (name + [61]), value);
  }

  lemma {:induction false} CharsetParameter(charSet: bytes, value: bytes)
    requires 59 !in charSet && value == Ascii(" charset=") + charSet
    ensures SplitOn(value, 59) == [value] && Parameter([value], Ascii("charset")) == Some(charSet)
  {
    assert value == [32] + (Ascii("charset") + [61]) + charSet;
    NamedParameter(Ascii("charset"), charSet);
    var name := Ascii(" charset=");
    assert forall i :: 0 <= i < |name| ==> name[i] != 59;
    hide Ascii;
    FirstSemicolon(value, []);
  }

  /** A type without parameters. */
  lemma {:induction false} PlainType(t: bytes, charSet: bytes, value: bytes)
    requires 59 !in t && 59 !in charSet && value == t + (Ascii("; charset=") + charSet)
    ensures UpToSemicolon(value) == t && Parameter(SplitOn(value, 59)[1..], Ascii("charset")) == Some(charSet)
  {
    var p := Ascii(" charset=") + charSet;
    assert Ascii("; charset=") + charSet == [59] + p;
    hide Ascii;
    CharsetParameter(charSet, p);
    FirstSemicolon(t, p);
    assert ([t] + [p])[1..] == [p];
  }

  /** The fields of a header of two lines. */
  lemma {:induction false} TextFields(value: bytes, header: seq<bytes>)
    requires header == [Field(CONTENT_TYPE, value), BASE64_LINE]
    ensures Fields(header) == header
    ensures MediaType(header) == Some(UpToSemicolon(value))
    ensures DispositionWord(header) == None && ContentId(header) == None
    ensures forall n :: ParameterOf(header, n) == Parameter(SplitOn(value, 59)[1..], n)
    ensures TransferEncoding(header) == Some(Ascii("base64"))
  {
    assert header == [header[0]] + [header[1]] && [header[1]] == [header[1]] + [];
    FieldsStep(header[1], []);
    FieldsStep(header[0], [header[1]]);
    assert !Folded(BASE64_LINE);
    assert [header[0]] + ([header[1]] + ([] + [])) == header;
    ValuesOf(header, value, None, None);
  }

  lemma {:induction false} TextLeaf(t: bytes, charSet: bytes, content: bytes, path: seq<bytes>)
    requires 59 !in t && 59 !in charSet
    ensures IsTextLeaf(Leaf(path, TextHeader(t, charSet), content), path, t, charSet, content)
  {
    var value := t + (Ascii("; charset=") + charSet);
    PlainType(t, charSet, value);
    TextFields(value, TextHeader(t, charSet));
  }

  lemma {:induction false} NoSemicolons()
    ensures 59 !in Ascii("text/plain") && 59 !in Ascii("text/html") && 59 !in Ascii("text/calendar")
    ensures 59 !in Ascii(" method=")
  {
  }

  lemma {:induction false} CalendarValue(name: bytes, p: bytes, charSet: bytes)
    requires p == Ascii(" charset=") + charSet
    ensures Ascii("text/calendar; method=") + name + (Ascii("; charset=") + charSet)
      == Ascii("text/calendar") + ([59] + ((Ascii(" method=") + name) + ([59] + p)))
  {
    var a, b := Ascii("text/calendar; method="), Ascii("; charset=");
    assert a == Ascii("text/calendar") + ([59] + Ascii(" method="));
    assert b == [59] + Ascii(" charset=");
    hide Ascii;
  }

  lemma {:induction false} TwoParameters(t: bytes, m: bytes, p: bytes, value: bytes)
    requires 59 !in t && 59 !in m && SplitOn(p, 59) == [p] && value == t + ([59] + (m + ([59] + p)))
    ensures UpToSemicolon(value) == t && SplitOn(value, 59)[1..] == [m, p]
  {
    hide SplitOn, UpToSemicolon;
    FirstSemicolon(t, m + ([59] + p));
    FirstSemicolon(m, p);
  }

  lemma {:induction false} MethodParameter(m: bytes, name: bytes, p: bytes)
    requires m == Ascii(" method=") + name
    ensures Parameter([m, p], Ascii("method")) == Some(name)
    ensures Parameter([m, p], Ascii("charset")) == Parameter([p], Ascii("charset"))
  {
    assert m == [32] + (Ascii("method") + [61]) + name;
    NamedParameter(Ascii("method"), name);
    NotCharset(m);
    hide Ascii, StartsLike;
    assert [m, p][1..] == [p];
  }

  /** The calendar has its method between type and charset. */
  lemma {:induction false} CalendarLeaf(name: bytes, charSet: bytes, content: bytes, path: seq<bytes>)
    requires 59 !in name && 59 !in charSet
    ensures var l := Leaf(path, TextHeader(Ascii("text/calendar; method=") + name, charSet), content);
      && IsTextLeaf(l, path, Ascii("text/calendar"), charSet, content)
      && ParameterOf(l.header, Ascii("method")) == Some(name)
  {
    var t, m, p := Ascii("text/calendar"), Ascii(" method=") + name, Ascii(" charset=") + charSet;
    var value := Ascii("text/calendar; method=") + name + (Ascii("; charset=") + charSet);
    NoSemicolons();
    hide Ascii, Field, MediaType, ParameterOf, TransferEncoding, DispositionWord, ContentId, SplitOn, UpToSemicolon,
         Parameter;
    CalendarValue(name, p, charSet);
    CharsetParameter(charSet, p);
    TwoParameters(t, m, p, value);
    MethodParameter(m, name, p);
    TextFields(value, TextHeader(Ascii("text/calendar; method=") + name, charSet));
  }

  lemma {:induction false} NotCharset(m: bytes)
    requires |m| >= 2 && m[1] == 109
    ensures !StartsLike(m, [32] + (Ascii("charset") + [61]))
  {
    var p := [32] + (Ascii("charset") + [61]);
    assert p[1] == 99;
    assert Lower(m)[1] != Lower(p)[1];
  }

  // ----- attachments -----

  lemma {:induction false} FileNamePrefix()
    ensures Ascii("; filename=") == [59] + Ascii(" filename=")
  {
  }

  lemma {:induction false} NamePrefix()
    ensures Ascii("; name=") == [59] + Ascii(" name=")
  {
  }

  lemma {:induction false} BehindPrefix(whole: bytes, prefix: bytes, v: bytes)
    requires whole == [59] + prefix
    ensures whole + v == [59] + (prefix + v) && StartsLike(prefix + v, prefix) && (prefix + v)[|prefix|..] == v
  {
    LowerConcat(prefix, v);
    hide Lower;
    Assoc([59], prefix, v);
  }

  lemma {:induction false} DispositionReads(word: bytes, p: Option<bytes>, header: seq<bytes>, value: bytes)
    requires 59 !in word && value == WithParameter(word, Ascii("; filename="), p)
    requires ValueOf(Fields(header), Ascii("Content-Disposition")) == Some(value)
    ensures DispositionWord(header) == Some(word) && FileName(header) == p
  {
    hide Ascii, Fields, ValueOf, StartsLike, UpToSemicolon, SplitOn, IndexOf;
    match p
    case None =>
      FirstSemicolon(word, []);
      AtSemicolon(value, word, []);
    case Some(v) =>
      var rest := Ascii(" filename=") + v;
      FileNamePrefix();
      BehindPrefix(Ascii("; filename="), Ascii(" filename="), v);
      FirstSemicolon(word, rest);
      AtSemicolon(value, word, rest);
      assert value[|word| + 11..] == rest[10..];
  }

  lemma {:induction false} AtSemicolon(value: bytes, word: bytes, rest: bytes)
    requires 59 !in word
    ensures value == word ==> IndexOf(value, 59) == |value|
    ensures value == word + ([59] + rest) ==> IndexOf(value, 59) == |word| && value[|word| + 1..] == rest
  {
    IndexAfter(word, 59, rest);
  }

  lemma {:induction false} LaterSemicolon(t: bytes, i: nat, more: bytes)
    requires i == IndexOf(t, 59) < |t|
    ensures UpToSemicolon(t + more) == t[..i]
  {
    assert 59 !in t[..i];
    var rest := t[i + 1..] + more;
    assert t + more == t[..i] + ([59] + rest);
    FirstSemicolon(t[..i], rest);
  }

  lemma {:induction false} TypeReads(t: bytes, p: Option<bytes>, value: bytes)
    requires value == WithParameter(t, Ascii("; name="), p)
    ensures UpToSemicolon(value) == UpToSemicolon(t)
  {
    if p.Some? {
      NamePrefix();
      BehindPrefix(Ascii("; name="), Ascii(" name="), p.value);
      var rest := Ascii(" name=") + p.value;
      var i := IndexOf(t, 59);
      hide Ascii;
      if i == |t| {
        hide UpToSemicolon, IndexOf;
        FirstSemicolon(t, rest);
      } else {
        LaterSemicolon(t, i, [59] + rest);
      }
    }
  }

  lemma {:induction false} FirstOfLines(f: bytes)
    requires CrlfLines(f)[0] != []
    ensures f != [] && CrlfLines(f)[0][0] == f[0]
  {
    JoinOfLines(f);
    hide CrlfLines;
  }

  lemma {:induction false} FieldStart(name: bytes, value: bytes)
    requires name != []
    ensures Field(name, value) != [] && Field(name, value)[0] == name[0]
  {
  }

  lemma {:induction false} NamesStart()
    ensures Ascii("Content-Type")[0] == Ascii("Content-ID")[0] == Ascii("Content-Disposition")[0] == 67
    ensures BASE64_LINE != [] && BASE64_LINE[0] == 67
  {
    assert Ascii("Content-Transfer-Encoding")[0] == 67;
  }

  lemma {:induction false} NotFolded(f: bytes)
    requires GoodField(f) && f != [] && f[0] == 67
    ensures FoldSafe(f) && !Folded(CrlfLines(f)[0])
  {
    FirstOfLines(f);
    hide CrlfLines, FoldSafe;
  }

  function TypeValue(a: Attachment): bytes { WithParameter(a.entry.mimeType, Ascii("; name="), a.nameParameter) }

  function DispositionValue(a: Attachment): bytes {
    WithParameter(DispositionName(a.entry.disposition), Ascii("; filename="), a.fileParameter)
  }

  function CidValue(a: Attachment): Option<bytes> {
    if HasContentId(a.entry) then Some([60] + (a.cidValue + [62])) else None
  }

  lemma {:induction false} FieldsStart(a: Attachment, i: nat)
    requires i < |AttachmentFields(a)|
    ensures AttachmentFields(a)[i] != [] && AttachmentFields(a)[i][0] == 67
  {
    NamesStart();
    hide Field, Ascii, WithParameter, DispositionName, HasContentId;
    FieldStart(Ascii("Content-Type"), TypeValue(a));
    FieldStart(Ascii("Content-ID"), [60] + (a.cidValue + [62]));
    FieldStart(Ascii("Content-Disposition"), DispositionValue(a));
  }

  lemma {:induction false} FieldsOfAttachment(a: Attachment, header: seq<bytes>)
    requires ValidAttachment(a) && header == FieldLines(AttachmentFields(a))
    ensures Fields(header) == AttachmentFields(a)
  {
    var fields := AttachmentFields(a);
    AttachmentFieldsGood(a);
    hide *;
    forall i | 0 <= i < |fields| ensures FoldSafe(fields[i]) && !Folded(CrlfLines(fields[i])[0]) {
      FieldsStart(a, i);
      NotFolded(fields[i]);
    }
    FieldsOfLines(fields);
  }

  lemma {:induction false} AttachmentValues(a: Attachment, header: seq<bytes>)
    requires Fields(header) == AttachmentFields(a)
    ensures ValueOf(Fields(header), Ascii("Content-Type")) == Some(TypeValue(a))
    ensures TransferEncoding(header) == Some(Ascii("base64"))
    ensures ContentId(header) == CidValue(a)
    ensures ValueOf(Fields(header), Ascii("Content-Disposition")) == Some(DispositionValue(a))
  {
    hide Fields, ValueOf, Ascii, Field, WithParameter, DispositionName;
    var fields := AttachmentFields(a);
    assert OptionalField(Ascii("Content-ID"), CidValue(a)) ==
      if HasContentId(a.entry) then [Field(Ascii("Content-ID"), [60] + (a.cidValue + [62]))] else [];
    assert fields == [Field(Ascii("Content-Type"), TypeValue(a))] + ([BASE64_LINE]
      + (OptionalField(Ascii("Content-ID"), CidValue(a))
         + OptionalField(Ascii("Content-Disposition"), Some(DispositionValue(a)))));
    ValuesOf(fields, TypeValue(a), CidValue(a), Some(DispositionValue(a)));
  }

  lemma {:induction false} DispositionWords(d: Disposition)
    ensures DispositionName(d) == if d == Inline then Ascii("inline") else Ascii("attachment")
    ensures 59 !in DispositionName(d)
  {
  }

  /** What the reader finds in the header of an attachment. */
  lemma {:induction false} AttachmentReads(a: Attachment, h: seq<bytes>)
    requires ValidAttachment(a) && h == FieldLines(AttachmentFields(a))
    ensures MediaType(h) == Some(UpToSemicolon(a.entry.mimeType)) && TransferEncoding(h) == Some(Ascii("base64"))
    ensures ContentId(h) == CidValue(a)
    ensures DispositionWord(h) == Some(if a.entry.disposition == Inline then Ascii("inline") else Ascii("attachment"))
    ensures FileName(h) == a.fileParameter
  {
    FieldsOfAttachment(a, h);
    AttachmentValues(a, h);
    DispositionWords(a.entry.disposition);
    hide Ascii, DispositionName, UpToSemicolon, Fields, ValueOf, TransferEncoding, ContentId, FileName, DispositionWord,
         WithParameter, FieldLines, AttachmentFields, ValidAttachment, HasContentId;
    DispositionReads(DispositionName(a.entry.disposition), a.fileParameter, h, DispositionValue(a));
    TypeReads(a.entry.mimeType, a.nameParameter, TypeValue(a));
  }

  lemma {:induction false} FileLeaf(cfg: Settings, a: Attachment, s: Stored, path: seq<bytes>)
    requires ValidAttachment(a) && Encoded(cfg, a) && a.entry == s.entry && a.content == s.content
    ensures IsFileLeaf(cfg, Leaf(path, FieldLines(AttachmentFields(a)), a.content), path, s)
  {
    hide FieldLines, AttachmentFields, ValidAttachment, Ascii, UpToSemicolon, IsSecured, MediaType, TransferEncoding,
         ContentId, FileName, DispositionWord;
    AttachmentReads(a, FieldLines(AttachmentFields(a)));
  }

  // ----- which entries are written -----

  lemma {:induction false} SentPush(stored: seq<Stored>, d: Disposition, atts: seq<Attachment>, i: nat)
    requires |atts| == |stored| && forall j :: 0 <= j < |atts| ==> atts[j].entry == stored[j].entry
    requires i < |stored|
    ensures Sent(stored, d, i) <==> Kept(Entries(atts[..i]), atts[i].entry, d)
  {
    var before := Entries(atts[..i]);
    assert forall j :: 0 <= j < i ==> before[j] == stored[j].entry;
  }

  lemma {:induction false} SentPrefix(stored: seq<Stored>, d: Disposition, n: nat, i: nat)
    requires i < n <= |stored|
    ensures Sent(stored[..n], d, i) <==> Sent(stored, d, i)
  {
  }

  /** The leaves of the written attachments. */
  function FileLeaves(atts: seq<Attachment>, path: seq<bytes>): (r: seq<Leaf>)
    ensures |r| == |atts|
    ensures forall i :: 0 <= i < |r| ==> r[i] == Leaf(path, FieldLines(AttachmentFields(atts[i])), atts[i].content)
  {
    seq(|atts|, i requires 0 <= i < |atts| => Leaf(path, FieldLines(AttachmentFields(atts[i])), atts[i].content))
  }

  lemma {:induction false} OrderStep(stored: seq<Stored>, d: Disposition, order: seq<nat>)
    requires stored != []
    requires SentOrder(stored[..|stored| - 1], d, order)
    ensures SentOrder(stored, d, if Sent(stored, d, |stored| - 1) then order + [|stored| - 1] else order)
  {
    var n: nat := |stored| - 1;
    var order' := if Sent(stored, d, n) then order + [n] else order;
    forall i: nat ensures i in order' <==> Sent(stored, d, i) {
      assert i in order <==> Sent(stored[..n], d, i);
      if i < n {
        SentPrefix(stored, d, n, i);
      } else {
        SentBelow(stored[..n], d, i);
        SentBelow(stored, d, i);
      }
      hide Sent;
    }
    hide Sent;
    forall a, b | 0 <= a < b < |order'| ensures order'[a] < order'[b] {
      if b == |order| {
        assert order[a] in order;
        SentBelow(stored[..n], d, order[a]);
      }
    }
  }

  lemma {:induction false} SentBelow(stored: seq<Stored>, d: Disposition, i: nat)
    ensures Sent(stored, d, i) ==> i < |stored|
  {
  }

  lemma {:induction false} MatchMore(cfg: Settings, stored: seq<Stored>, path: seq<bytes>, leaves: seq<Leaf>,
                                     order: seq<nat>)
    requires stored != [] && LeavesMatch(cfg, stored[..|stored| - 1], path, leaves, order)
    ensures LeavesMatch(cfg, stored, path, leaves, order)
  {
    hide IsFileLeaf;
  }

  lemma {:induction false} MatchPush(cfg: Settings, stored: seq<Stored>, path: seq<bytes>, leaves: seq<Leaf>,
                                     order: seq<nat>, leaf: Leaf, n: nat)
    requires n < |stored| && LeavesMatch(cfg, stored, path, leaves, order) && IsFileLeaf(cfg, leaf, path, stored[n])
    ensures LeavesMatch(cfg, stored, path, leaves + [leaf], order + [n])
  {
    hide IsFileLeaf;
  }

  function FileLeafOf(a: Attachment, path: seq<bytes>): Leaf { Leaf(path, FieldLines(AttachmentFields(a)), a.content) }

  lemma {:induction false} SelectedStep(atts: seq<Attachment>, d: Disposition, path: seq<bytes>)
    requires atts != []
    ensures var n := |atts| - 1;
      FileLeaves(Selected(atts, d), path) == FileLeaves(Selected(atts[..n], d), path)
        + (if Kept(Entries(atts[..n]), atts[n].entry, d) then [FileLeafOf(atts[n], path)] else [])
  {
    hide AttachmentFields, FieldLines, Kept;
  }

  lemma {:induction false} FilesOf(cfg: Settings, stored: seq<Stored>, d: Disposition, atts: seq<Attachment>,
                                   path: seq<bytes>) returns (order: seq<nat>)
    requires Prepared(cfg, stored, d, atts) && forall i :: 0 <= i < |stored| ==> LeafType(stored[i].entry.mimeType)
    ensures SentOrder(stored, d, order)
    ensures LeavesMatch(cfg, stored, path, FileLeaves(Selected(atts, d), path), order)
  {
    order := [];
    if atts != [] {
      var n := |atts| - 1;
      PreparedFront(cfg, stored, d, atts);
      SameEntries(cfg, stored, d, atts);
      SentPush(stored, d, atts, n);
      SelectedStep(atts, d, path);
      hide LeafType, Encoded, Kept, Sent, SentOrder, LeavesMatch, FileLeaves, IsFileLeaf, FileLeafOf, Prepared, Selected,
           Entries, ValidAttachment;
      order := FilesOf(cfg, stored[..n], d, atts[..n], path);
      OrderStep(stored, d, order);
      var leaves := FileLeaves(Selected(atts[..n], d), path);
      MatchMore(cfg, stored, path, leaves, order);
      if Sent(stored, d, n) {
        KeptLeaf(cfg, atts[n], stored[n], path);
        MatchPush(cfg, stored, path, leaves, order, FileLeafOf(atts[n], path), n);
        order := order + [n];
      } else {
        assert leaves + [] == leaves;
      }
    }
  }

  lemma {:induction false} KeptLeaf(cfg: Settings, a: Attachment, s: Stored, path: seq<bytes>)
    requires Encoded(cfg, a) && LeafType(a.entry.mimeType) && a.entry == s.entry && a.content == s.content
    ensures IsFileLeaf(cfg, FileLeafOf(a, path), path, s)
  {
    hide Encoded, LeafType, IsFileLeaf;
    EncodedValid(cfg, a);
    FileLeaf(cfg, a, s, path);
  }

  // ----- the part tree -----

  lemma {:induction false} LeavesConcat(a: seq<Part>, b: seq<Part>, path: seq<bytes>)
    ensures Leaves(a + b, path) == Leaves(a, path) + Leaves(b, path)
  {
    if a == [] {
      assert a + b == b;
    } else {
      assert (a + b)[1..] == a[1..] + b;
      LeavesConcat(a[1..], b, path);
      hide LeavesOf;
    }
  }

  lemma {:induction false} LeavesOne(p: Part, path: seq<bytes>)
    ensures Leaves([p], path) == LeavesOf(p, path)
  {
    assert Leaves([p][1..], path) == [];
    assert LeavesOf(p, path) + [] == LeavesOf(p, path);
  }

  lemma {:induction false} LeavesCons(p: Part, ps: seq<Part>, path: seq<bytes>)
    ensures Leaves([p] + ps, path) == LeavesOf(p, path) + Leaves(ps, path)
  {
    assert ([p] + ps)[1..] == ps;
    hide LeavesOf;
  }

  lemma {:induction false} LeavesOfFiles(atts: seq<Attachment>, path: seq<bytes>)
    ensures Leaves(AttachmentParts(atts), path) == FileLeaves(atts, path)
  {
    if atts != [] {
      hide AttachmentFields, FieldLines, Leaves;
      LeavesOfFiles(atts[1..], path);
      assert AttachmentParts(atts) == [AttachmentData(atts[0])] + AttachmentParts(atts[1..]);
      LeavesCons(AttachmentData(atts[0]), AttachmentParts(atts[1..]), path);
      assert FileLeaves(atts, path) == [FileLeafOf(atts[0], path)] + FileLeaves(atts[1..], path);
    } else {
      assert AttachmentParts(atts) == [];
    }
  }

  /** The two kinds of nested group, by the media type read and the line their boundary stands on. */
  lemma {:induction false} GroupTypes(b: bytes)
    ensures var h := RelatedHeader(b);
      MediaType(h) == Some(Ascii("multipart/related")) && |h| == 3 && h[1] == Ascii(" boundary=\"") + (b + [34, 59])
    ensures var h := AlternativeHeader(b);
      MediaType(h) == Some(Ascii("multipart/alternative")) && |h| == 2 && h[1] == Ascii(" boundary=\"") + (b + [34])
  {
    var m, r, a := Ascii("multipart/"), Ascii("related"), Ascii("alternative");
    assert m + r == Ascii("multipart/related") && r + [59] == Ascii("related;");
    assert m + a == Ascii("multipart/alternative") && a + [59] == Ascii("alternative;");
    assert 59 !in m && 59 !in r && 59 !in a;
    hide Ascii, Field, MediaType;
    Assoc(m, r, [59]);
    Assoc(m, a, [59]);
    GroupType(RelatedHeader(b), m + r);
    GroupType(AlternativeHeader(b), m + a);
  }

  /** The lines between parts and behind the last one. */
  lemma {:induction false} DelimiterLines(b: bytes)
    ensures Delimiter(b) == Ascii("--") + b && CloseDelimiter(b) == Ascii("--") + b + Ascii("--")
  {
  }

  lemma {:induction false} FieldsHead(header: seq<bytes>) returns (rest: bytes)
    requires header != []
    ensures Fields(header)[0] == header[0] + rest
  {
    if |header| > 1 && Folded(header[1]) {
      rest := [13, 10] + Fields(header[1..])[0];
    } else {
      rest := [];
    }
  }

  lemma {:induction false} GroupType(header: seq<bytes>, t: bytes)
    requires 59 !in t && header != [] && header[0] == Field(CONTENT_TYPE, t + [59])
    ensures MediaType(header) == Some(t)
  {
    var rest := FieldsHead(header);
    var n := Ascii("Content-Type");
    var value := t + ([59] + rest);
    assert Fields(header)[0] == Field(n, value);
    assert Fields(header) == [Field(n, value)] + Fields(header)[1..];
    hide Ascii, Fields, Field, UpToSemicolon;
    ValueStep(n, value, Fields(header)[1..], n);
    FirstSemicolon(t, rest);
  }
}
