/** A reader for multipart bodies following section 5.1.1 of RFC 2046. */
module MimeParser {
  import opened Bytes
  import Base64

  const DASH: byte := 45
  const QUOTE: byte := 34

  /** A parsed body part: decoded data, or a nested multipart. */
  datatype Part = Data(header: seq<bytes>, content: bytes) | Group(header: seq<bytes>, parts: seq<Part>)

  function Delimiter(b: bytes): bytes { [DASH, DASH] + b }

  function CloseDelimiter(b: bytes): bytes { Delimiter(b) + [DASH, DASH] }

  /** A line belongs to the delimiters of `b` when it begins with the dash-boundary. */
  predicate IsDelimiter(line: bytes, b: bytes) { Delimiter(b) <= line }

  predicate IsClose(line: bytes, b: bytes) { CloseDelimiter(b) <= line }

  function NextDelimiter(lines: seq<bytes>, b: bytes): (k: nat)
    ensures k <= |lines|
  {
    if lines == [] || IsDelimiter(lines[0], b) then 0 else 1 + NextDelimiter(lines[1..], b)
  }

  /** Position of the blank line that ends a header, or the length. */
  function HeaderEnd(lines: seq<bytes>): (k: nat)
    ensures k <= |lines|
  {
    if lines == [] || lines[0] == [] then 0 else 1 + HeaderEnd(lines[1..])
  }

  /** A header field without its line end, `headerLine`. */
  function Field(name: bytes, value: bytes): bytes { name + ([58, SP] + value) }

  const CONTENT_TYPE: bytes := Ascii("Content-Type")
  const MULTIPART: bytes := Ascii("multipart/")
  const BOUNDARY_PARAMETER: bytes := Ascii(" boundary=\"")
  const BASE64_LINE: bytes := Field(Ascii("Content-Transfer-Encoding"), Ascii("base64"))

  function FindBoundary(lines: seq<bytes>): Option<bytes> {
    if lines == [] then None
    else if BOUNDARY_PARAMETER <= lines[0] then
      var v := lines[0][|BOUNDARY_PARAMETER|..];
      Some(v[..IndexOf(v, QUOTE)])
    else FindBoundary(lines[1..])
  }

  /** The boundary parameter of a multipart content type. The type is read in any letter case. Otherwise the reader
      knows the layout of the writer: the content type is the first header line, and the boundary has a folded line to
      itself. */
  function BoundaryParameter(header: seq<bytes>): Option<bytes> {
    if header != [] && StartsLike(header[0], Field(CONTENT_TYPE, MULTIPART)) then FindBoundary(header[1..]) else None
  }

  /** Undoes the transfer encoding of a leaf. */
  function DecodeBody(header: seq<bytes>, body: seq<bytes>): Option<bytes> {
    if BASE64_LINE in header then Base64.Decode(Flatten(body)) else Some(Join(body, CRLF))
  }

  /** A body part: header lines up to the blank line, then the body. */
  function ParseEntity(lines: seq<bytes>): Option<Part>
    decreases |lines|, 0
  {
    var h := HeaderEnd(lines);
    if h == |lines| then None
    else
      var header, body := lines[..h], lines[h + 1..];
      match BoundaryParameter(header)
      case Some(b) =>
        (match ParseParts(body, b)
         case Some(parts) => Some(Group(header, parts))
         case None => None)
      case None =>
        (match DecodeBody(header, body)
         case Some(content) => Some(Data(header, content))
         case None => None)
  }

  /** The parts between the delimiters of `b`; what precedes the first and follows the close is ignored. */
  function ParseParts(lines: seq<bytes>, b: bytes): Option<seq<Part>>
    decreases |lines|, 1
  {
    if lines == [] then None
    else if IsClose(lines[0], b) then Some([])
    else if IsDelimiter(lines[0], b) then
      var rest := lines[1..];
      var k := NextDelimiter(rest, b);
      match (ParseEntity(rest[..k]), ParseParts(rest[k..], b))
      case (Some(p), Some(ps)) => Some([p] + ps)
      case _ => None
    else ParseParts(lines[1..], b)
  }

  // ----- reading what was laid out as sections -----

  /** Sections opened by the delimiter of `b`, the close delimiter, and what follows it. */
  function Sections(b: bytes, entities: seq<seq<bytes>>, tail: seq<bytes>): (r: seq<bytes>)
    ensures r != [] && IsDelimiter(r[0], b)
  {
    if entities == [] then [CloseDelimiter(b)] + tail
    else [Delimiter(b)] + (entities[0] + Sections(b, entities[1..], tail))
  }

  ghost predicate NoDelimiter(lines: seq<bytes>, b: bytes) {
    forall i :: 0 <= i < |lines| ==> !IsDelimiter(lines[i], b)
  }

  lemma {:induction false} NextDelimiterAfter(e: seq<bytes>, more: seq<bytes>, b: bytes)
    requires NoDelimiter(e, b) && more != [] && IsDelimiter(more[0], b)
    ensures NextDelimiter(e + more, b) == |e|
  {
    if e == [] {
      assert e + more == more;
    } else {
      assert (e + more)[1..] == e[1..] + more;
      NextDelimiterAfter(e[1..], more, b);
    }
  }

  /** The reader finds exactly the sections, in order, as long as no section holds a delimiter of its own boundary. */
  lemma {:induction false} ParseSections(b: bytes, entities: seq<seq<bytes>>, tail: seq<bytes>, parts: seq<Part>)
    requires |entities| == |parts|
    requires forall i :: 0 <= i < |entities| ==>
      NoDelimiter(entities[i], b) && ParseEntity(entities[i]) == Some(parts[i])
    ensures ParseParts(Sections(b, entities, tail), b) == Some(parts)
  {
    if entities != [] {
      ParseSections(b, entities[1..], tail, parts[1..]);
      ParseSection(b, entities[0], Sections(b, entities[1..], tail), parts[0], parts[1..]);
      assert [parts[0]] + parts[1..] == parts;
    }
  }

  lemma {:induction false} ParseSection(b: bytes, e: seq<bytes>, more: seq<bytes>, p: Part, ps: seq<Part>)
    requires NoDelimiter(e, b) && more != [] && IsDelimiter(more[0], b)
    requires ParseEntity(e) == Some(p) && ParseParts(more, b) == Some(ps)
    ensures ParseParts([Delimiter(b)] + (e + more), b) == Some([p] + ps)
  {
    var lines := [Delimiter(b)] + (e + more);
    NextDelimiterAfter(e, more, b);
    assert lines[1..] == e + more;
    assert (e + more)[..|e|] == e && (e + more)[|e|..] == more;
    assert !(CloseDelimiter(b) <= Delimiter(b));
  }

  lemma {:induction false} HeaderEndAt(header: seq<bytes>, body: seq<bytes>)
    requires [] !in header
    ensures HeaderEnd(header + ([[]] + body)) == |header|
  {
    if header == [] {
      assert header + ([[]] + body) == [[]] + body;
    } else {
      assert header[0] in header;
      assert (header + ([[]] + body))[1..] == header[1..] + ([[]] + body);
      HeaderEndAt(header[1..], body);
    }
  }

  lemma {:induction false} ParseLeaf(header: seq<bytes>, body: seq<bytes>, content: bytes)
    requires [] !in header && BoundaryParameter(header) == None && DecodeBody(header, body) == Some(content)
    ensures ParseEntity(header + ([[]] + body)) == Some(Data(header, content))
  {
    var e := header + ([[]] + body);
    HeaderEndAt(header, body);
    assert e[..|header|] == header && e[|header| + 1..] == body;
  }

  lemma {:induction false} ParseGroup(header: seq<bytes>, body: seq<bytes>, b: bytes, parts: seq<Part>)
    requires [] !in header && BoundaryParameter(header) == Some(b) && ParseParts(body, b) == Some(parts)
    ensures ParseEntity(header + ([[]] + body)) == Some(Group(header, parts))
  {
    var e := header + ([[]] + body);
    HeaderEndAt(header, body);
    assert e[..|header|] == header && e[|header| + 1..] == body;
  }

  lemma {:induction false} SectionsTail(b: bytes, entities: seq<seq<bytes>>, tail: seq<bytes>, more: seq<bytes>)
    ensures Sections(b, entities, tail) + more == Sections(b, entities, tail + more)
  {
    if entities == [] {
      Assoc([CloseDelimiter(b)], tail, more);
    } else {
      SectionsTail(b, entities[1..], tail, more);
      var s := Sections(b, entities[1..], tail);
      assert [Delimiter(b)] + (entities[0] + s) + more == [Delimiter(b)] + (entities[0] + (s + more));
    }
  }

  // ----- the delimiters of a text -----

  /** The lines that begin with a dash, in order. */
  function Dashed(lines: seq<bytes>): seq<bytes> {
    if lines == [] then []
    else (if lines[0] != [] && lines[0][0] == DASH then [lines[0]] else []) + Dashed(lines[1..])
  }

  /** The delimiters that a list of parts needs under boundary `b`: one before each part and one close at the end,
      with those of a nested group in between. */
  function Frame(b: bytes, parts: seq<Part>): seq<bytes>
    decreases parts
  {
    if parts == [] then [CloseDelimiter(b)] else [Delimiter(b)] + (PartFrame(parts[0]) + Frame(b, parts[1..]))
  }

  function PartFrame(p: Part): seq<bytes>
    decreases p
  {
    match p
    case Data(_, _) => []
    case Group(header, parts) =>
      match BoundaryParameter(header)
      case Some(b) => Frame(b, parts)
      case None => []
  }

  lemma {:induction false} DashedConcat(a: seq<bytes>, b: seq<bytes>)
    ensures Dashed(a + b) == Dashed(a) + Dashed(b)
  {
    if a == [] {
      assert a + b == b;
    } else {
      assert (a + b)[1..] == a[1..] + b;
      DashedConcat(a[1..], b);
    }
  }

  lemma {:induction false} DashedNone(lines: seq<bytes>)
    requires forall i :: 0 <= i < |lines| ==> lines[i] == [] || lines[i][0] != DASH
    ensures Dashed(lines) == []
  {
    if lines != [] {
      DashedNone(lines[1..]);
    }
  }

  lemma {:induction false} DashedSections(b: bytes, entities: seq<seq<bytes>>, tail: seq<bytes>, parts: seq<Part>)
    requires |entities| == |parts| && Dashed(tail) == []
    requires forall i :: 0 <= i < |entities| ==> Dashed(entities[i]) == PartFrame(parts[i])
    ensures Dashed(Sections(b, entities, tail)) == Frame(b, parts)
  {
    if entities == [] {
      assert ([CloseDelimiter(b)] + tail)[1..] == tail;
    } else {
      var s := Sections(b, entities[1..], tail);
      DashedSections(b, entities[1..], tail, parts[1..]);
      DashedConcat(entities[0], s);
      assert ([Delimiter(b)] + (entities[0] + s))[1..] == entities[0] + s;
    }
  }
}
