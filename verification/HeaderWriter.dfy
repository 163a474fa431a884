/** `PHPMailer::encodeHeader` as a whole, with its round trip. */
module HeaderWriter {
  import opened Bytes
  import opened Utf8
  import opened LineBreaks
  import opened QEncoding
  import opened HeaderEncoding
  import Base64
  import QWrap
  import BWrap

  // ----- groups of characters -----

  ghost function GroupBytes(groups: seq<seq<bytes>>): (r: seq<bytes>)
    ensures |r| == |groups|
    ensures forall n :: 0 <= n < |r| ==> r[n] == Flatten(groups[n])
  {
    seq(|groups|, n requires 0 <= n < |groups| => Flatten(groups[n]))
  }

  lemma {:induction false} FlattenGroups(groups: seq<seq<bytes>>)
    ensures Flatten(GroupBytes(groups)) == Flatten(Flatten(groups))
  {
    if groups != [] {
      FlattenGroups(groups[1..]);
      FlattenConcat(groups[0], Flatten(groups[1..]));
      assert GroupBytes(groups)[1..] == GroupBytes(groups[1..]);
    }
  }

  lemma {:induction false} GroupIsWhole(groups: seq<seq<bytes>>, n: nat, utf8: bool)
    requires n < |groups| && Units(Flatten(groups), utf8)
    ensures Units(groups[n], utf8)
    ensures OneLine(Flatten(Flatten(groups))) ==> OneLine(Flatten(groups[n]))
  {
    var rest := Flatten(groups[1..]);
    FlattenConcat(groups[0], rest);
    var a, b := Flatten(groups[0]), Flatten(rest);
    assert forall i :: 0 <= i < |a| ==> (a + b)[i] == a[i];
    assert forall i :: 0 <= i < |b| ==> (a + b)[|a| + i] == b[i];
    assert forall i :: 0 <= i < |groups[0]| ==> (groups[0] + rest)[i] == groups[0][i];
    if n > 0 {
      assert forall i :: 0 <= i < |rest| ==> (groups[0] + rest)[|groups[0]| + i] == rest[i];
      GroupIsWhole(groups[1..], n - 1, utf8);
    }
  }

  // ----- the Q branch -----

  lemma {:induction false} QPayload(g: seq<bytes>, pos: Position, utf8: bool)
    requires Units(g, utf8) && OneLine(Flatten(g))
    ensures SafePayload(Q(Flatten(g), pos))
    ensures DecodePayload(LETTER_Q, Q(Flatten(g), pos)) == Some(Flatten(g))
    ensures CharsIn(Flatten(g), utf8).Some?
  {
    QAlphabet(Flatten(g), pos);
    QDecodeQ(Flatten(g), pos);
    UnitsRead(g, utf8);
  }

  lemma {:induction false} QPayloads(groups: seq<seq<bytes>>, pos: Position, utf8: bool)
    requires groups != [] && Units(Flatten(groups), utf8) && OneLine(Flatten(Flatten(groups)))
    ensures Payloads(LETTER_Q, QWrap.GroupTexts(groups, pos), GroupBytes(groups), utf8)
  {
    forall n | 0 <= n < |groups|
      ensures SafePayload(Q(Flatten(groups[n]), pos))
      ensures DecodePayload(LETTER_Q, Q(Flatten(groups[n]), pos)) == Some(Flatten(groups[n]))
      ensures CharsIn(Flatten(groups[n]), utf8).Some?
    {
      GroupIsWhole(groups, n, utf8);
      QPayload(groups[n], pos, utf8);
    }
  }

  lemma {:induction false} TrimRightOne(j: bytes, b: byte)
    requires IsTrimmed(b)
    ensures TrimRight(j + [b]) == TrimRight(j)
  {
    assert (j + [b])[..|j|] == j;
  }

  predicate UntrimmedEnds(j: bytes) { j != [] ==> !IsTrimmed(j[0]) && !IsTrimmed(j[|j| - 1]) }

  /** Trimming takes off exactly the final break of a wrapped message. */
  lemma {:induction false} TrimFinalBreak(j: bytes, end: bytes)
    requires UntrimmedEnds(j) && (end == CRLF || end == [LF])
    ensures Trim(j + end) == j
  {
    if j == [] {
      assert j + end == end;
      TrimBreakAlone();
    } else {
      assert TrimLeft(j + end) == j + end;
      if end == CRLF {
        TrimRightOne(j + [CR], LF);
        assert j + [CR] + [LF] == j + CRLF;
        TrimRightOne(j, CR);
      } else {
        TrimRightOne(j, LF);
      }
    }
  }

  lemma {:induction false} TrimBreakAlone()
    ensures Trim(CRLF) == [] && Trim([LF]) == []
  {
    assert TrimLeft([LF]) == TrimLeft([]) by { assert [LF][1..] == []; }
    assert TrimLeft(CRLF) == TrimLeft([LF]) by { assert CRLF[1..] == [LF]; }
  }

  /** Parts without white space, none of them empty unless it is alone. */
  ghost predicate CleanParts(parts: seq<bytes>) {
    && parts != []
    && (forall n :: 0 <= n < |parts| ==> SafePayload(parts[n]))
    && (|parts| == 1 || forall n :: 0 <= n < |parts| ==> parts[n] != [])
  }

  lemma {:induction false} CleanEnds(parts: seq<bytes>, sep: bytes)
    requires CleanParts(parts)
    ensures UntrimmedEnds(Join(parts, sep))
    ensures parts[0] != [] ==> Join(parts, sep) != []
  {
    if |parts| == 1 {
    } else {
      assert parts[0] != [] && parts[1] != [];
      CleanEnds(parts[1..], sep);
      var j, rest := Join(parts, sep), Join(parts[1..], sep);
      assert j[0] == parts[0][0];
      assert j[|j| - 1] == rest[|rest| - 1];
    }
  }

  /** `str_replace("=\r\n", "\n", ...)` turns the soft breaks into line feeds and touches nothing else. */
  lemma {:induction false} SoftBreaksToLf(parts: seq<bytes>)
    requires parts != [] && AllOneLine(parts)
    ensures Replace(Join(parts, QWrap.SOFT_BREAK), QWrap.SOFT_BREAK, [LF]) == Join(parts, [LF])
  {
    if |parts| == 1 {
      SoftSkip(parts[0], []);
      assert parts[0] + [] == parts[0];
    } else {
      var rest := Join(parts[1..], QWrap.SOFT_BREAK);
      SoftBreaksToLf(parts[1..]);
      SoftSkip(parts[0], QWrap.SOFT_BREAK + rest);
      Assoc(parts[0], QWrap.SOFT_BREAK, rest);
      assert (QWrap.SOFT_BREAK + rest)[3..] == rest;
      Assoc(parts[0], [LF], Join(parts[1..], [LF]));
    }
  }

  /** No soft break starts at a byte of the part. */
  lemma {:induction false} NoSoftBreak(part: bytes, rest: bytes)
    requires part != [] && OneLine(part) && (rest == [] || rest[0] == EQ)
    ensures !(QWrap.SOFT_BREAK <= part + rest)
  {
    var t := part + rest;
    assert |t| > 1 ==> t[1] == if |part| > 1 then part[1] else rest[0];
    assert |t| < 3 || t[1] != CR;
  }

  lemma {:induction false} SoftSkip(part: bytes, rest: bytes)
    requires OneLine(part) && (rest == [] || rest[0] == EQ)
    ensures Replace(part + rest, QWrap.SOFT_BREAK, [LF]) == part + Replace(rest, QWrap.SOFT_BREAK, [LF])
  {
    if part == [] {
      assert part + rest == rest;
    } else {
      NoSoftBreak(part, rest);
      SoftSkip(part[1..], rest);
      var t := part + rest;
      assert t[0] == part[0] && t[1..] == part[1..] + rest;
      assert [part[0]] + part[1..] == part;
    }
  }

  /** From the wrapped message back to one payload a line. */
  lemma {:induction false} QLines(texts: seq<bytes>, message: bytes)
    requires CleanParts(texts) && AllOneLine(texts) && message == Join(texts, QWrap.SOFT_BREAK) + CRLF
    ensures Replace(Trim(message), QWrap.SOFT_BREAK, [LF]) == Join(texts, [LF])
  {
    assert Trim(message) == Join(texts, QWrap.SOFT_BREAK) by {
      CleanEnds(texts, QWrap.SOFT_BREAK);
      TrimFinalBreak(Join(texts, QWrap.SOFT_BREAK), CRLF);
    }
    SoftBreaksToLf(texts);
  }

  /** The value is made of the Q forms of these texts, one word a line. */
  ghost predicate QValue(value: bytes, charset: bytes, pos: Position, str: bytes, groups: seq<seq<bytes>>) {
    && groups != [] && Flatten(Flatten(groups)) == str
    && CrlfLines([SP] + value) == FoldedWords(charset, LETTER_Q, QWrap.GroupTexts(groups, pos))
  }

  ghost predicate MadeOfQ(value: bytes, charset: bytes, pos: Position, str: bytes) {
    exists groups :: QValue(value, charset, pos, str, groups)
  }

  /** No line of the value has more bytes, counting a space in front of the first. */
  ghost predicate LinesWithin(value: bytes, limit: int) {
    forall n :: 0 <= n < |CrlfLines([SP] + value)| ==> |CrlfLines([SP] + value)[n]| <= limit
  }

  lemma {:induction false} LinesWider(value: bytes, limit: int, wider: int)
    requires LinesWithin(value, limit) && limit <= wider
    ensures LinesWithin(value, wider)
  {
    hide CrlfLines;
  }

  lemma {:induction false} WordLinesWithin(value: bytes, charset: bytes, letter: byte, payloads: seq<bytes>, room: int)
    requires SafePayload(charset) && !IsBreak(letter)
    requires CrlfLines([SP] + value) == FoldedWords(charset, letter, payloads)
    requires forall n :: 0 <= n < |payloads| ==> SafePayload(payloads[n]) && |payloads[n]| <= room
    ensures LinesWithin(value, room + |charset| + 8)
  {
    hide CrlfLines, SafePayload, FoldedWord;
    forall n | 0 <= n < |payloads| ensures |FoldedWord(charset, letter, payloads[n])| <= room + |charset| + 8 {
      FoldedWordShape(charset, letter, payloads[n]);
    }
  }

  lemma {:induction false} QBranch(groups: seq<seq<bytes>>, pos: Position, utf8: bool, charset: bytes, encoded: bytes,
                                   value: bytes, room: int)
    requires groups != [] && Units(Flatten(groups), utf8) && OneLine(Flatten(Flatten(groups)))
    requires encoded == Join(QWrap.GroupTexts(groups, pos), [LF])
    requires value == WrapEachLine(charset, LETTER_Q, encoded)
    requires SafePayload(charset) && forall n :: 0 <= n < |groups| ==> |Q(Flatten(groups[n]), pos)| <= room
    ensures Represents(value, Flatten(Flatten(groups)), charset, utf8)
    ensures MadeOfQ(value, charset, pos, Flatten(Flatten(groups))) && LinesWithin(value, room + |charset| + 8)
  {
    QPayloads(groups, pos, utf8);
    Assemble(charset, LETTER_Q, QWrap.GroupTexts(groups, pos), GroupBytes(groups), utf8, encoded, value);
    FlattenGroups(groups);
    assert QValue(value, charset, pos, Flatten(Flatten(groups)), groups);
    hide Represents, Q;
    WordLinesWithin(value, charset, LETTER_Q, QWrap.GroupTexts(groups, pos), room);
  }

  lemma {:induction false} QTextsClean(groups: seq<seq<bytes>>, pos: Position, utf8: bool)
    requires groups != [] && Units(Flatten(groups), utf8) && OneLine(Flatten(Flatten(groups)))
    requires QWrap.AllNonEmpty(groups) || |groups| == 1
    ensures CleanParts(QWrap.GroupTexts(groups, pos)) && AllOneLine(QWrap.GroupTexts(groups, pos))
  {
    var texts := QWrap.GroupTexts(groups, pos);
    forall n | 0 <= n < |texts|
      ensures SafePayload(texts[n]) && OneLine(texts[n]) && (groups[n] != [] ==> texts[n] != [])
    {
      GroupIsWhole(groups, n, utf8);
      QPayload(groups[n], pos, utf8);
    }
  }

  // ----- the B branch -----

  lemma {:induction false} BPayload(text: bytes)
    ensures SafePayload(Base64.Encode(text))
    ensures DecodePayload(LETTER_B, Base64.Encode(text)) == Some(text)
  {
    Base64.EncodeAlphabet(text);
    Base64.DecodeEncode(text);
  }

  lemma {:induction false} BMultiPayloads(groups: seq<seq<bytes>>)
    requires groups != [] && AllChars(Flatten(groups))
    ensures Payloads(LETTER_B, BWrap.GroupCodes(groups), GroupBytes(groups), true)
  {
    forall n | 0 <= n < |groups|
      ensures SafePayload(Base64.Encode(Flatten(groups[n])))
      ensures DecodePayload(LETTER_B, Base64.Encode(Flatten(groups[n]))) == Some(Flatten(groups[n]))
      ensures CharsIn(Flatten(groups[n]), true).Some?
    {
      GroupIsWhole(groups, n, true);
      BPayload(Flatten(groups[n]));
      CharsOfFlatten(groups[n]);
    }
  }

  lemma {:induction false} AsciiIsUtf8(s: bytes)
    requires !Has8Bit(s)
    ensures Chars(s).Some?
  {
    if s != [] {
      assert s[0] < 128 && !Has8Bit(s[1..]);
      AsciiIsUtf8(s[1..]);
    }
  }

  /** Cutting the code at multiples of four is encoding pieces of the text. */
  lemma {:induction false} ChunksOfCode(s: bytes, m: nat)
    requires m > 0
    ensures var codes := Base64.Chunks(Base64.Encode(s), 4 * m); var texts := Base64.Chunks(s, 3 * m);
      |codes| == |texts| && forall n :: 0 <= n < |codes| ==> codes[n] == Base64.Encode(texts[n])
    decreases |s|
  {
    CodeLength(s, m);
    hide Base64.Encode;
    if |s| > 3 * m {
      Base64.EncodeSplit(s, m);
      ChunksOfCode(s[3 * m..], m);
    }
  }

  lemma {:induction false} CodeLength(s: bytes, m: nat)
    ensures |Base64.Encode(s)| > 4 * m <==> |s| > 3 * m
  {
    Base64.EncodedLength(s);
  }

  lemma {:induction false} ChunksWhole(s: bytes, m: nat, utf8: bool)
    requires m > 0 && (utf8 ==> !Has8Bit(s))
    ensures forall n :: 0 <= n < |Base64.Chunks(s, m)| ==> CharsIn(Base64.Chunks(s, m)[n], utf8).Some?
    ensures s != [] ==> forall n :: 0 <= n < |Base64.Chunks(s, m)| ==> Base64.Chunks(s, m)[n] != []
    decreases |s|
  {
    var head := if |s| > m then s[..m] else s;
    if utf8 {
      assert !Has8Bit(head);
      AsciiIsUtf8(head);
    }
    if |s| > m {
      assert utf8 ==> !Has8Bit(s[m..]);
      ChunksWhole(s[m..], m, utf8);
    }
  }

  lemma {:induction false} BChunkPayloads(s: bytes, m: nat, utf8: bool)
    requires m > 0 && s != [] && (utf8 ==> !Has8Bit(s))
    ensures var codes := Base64.Chunks(Base64.Encode(s), 4 * m);
      Payloads(LETTER_B, codes, Base64.Chunks(s, 3 * m), utf8) && CleanParts(codes)
  {
    var codes, texts := Base64.Chunks(Base64.Encode(s), 4 * m), Base64.Chunks(s, 3 * m);
    ChunksOfCode(s, m);
    ChunksWhole(s, 3 * m, utf8);
    forall n | 0 <= n < |codes|
      ensures SafePayload(codes[n]) && DecodePayload(LETTER_B, codes[n]) == Some(texts[n]) && codes[n] != []
    {
      BPayload(texts[n]);
      Base64.EncodedLength(texts[n]);
    }
  }

  lemma {:induction false} BChunkLines(codes: seq<bytes>)
    requires CleanParts(codes)
    ensures Trim(Terminated(codes, [LF])) == Join(codes, [LF])
  {
    TerminatedIsJoin(codes, [LF]);
    CleanEnds(codes, [LF]);
    TrimFinalBreak(Join(codes, [LF]), [LF]);
  }

  /** The value is made of these base64 texts, one word a line. */
  ghost predicate BValue(value: bytes, charset: bytes, str: bytes, texts: seq<bytes>) {
    && texts != [] && Flatten(texts) == str && |CrlfLines([SP] + value)| == |texts|
    && forall n :: 0 <= n < |texts| ==>
      CrlfLines([SP] + value)[n] == FoldedWord(charset, LETTER_B, Base64.Encode(texts[n]))
  }

  ghost predicate MadeOfB(value: bytes, charset: bytes, str: bytes) { exists texts :: BValue(value, charset, str, texts) }

  lemma {:induction false} BChunkBranch(s: bytes, m: nat, utf8: bool, charset: bytes, encoded: bytes, value: bytes)
    requires m > 0 && s != [] && (utf8 ==> !Has8Bit(s))
    requires encoded == Trim(Base64.ChunkSplit(Base64.Encode(s), 4 * m, [LF]))
    requires value == WrapEachLine(charset, LETTER_B, encoded)
    requires SafePayload(charset)
    ensures Represents(value, s, charset, utf8)
    ensures MadeOfB(value, charset, s) && LinesWithin(value, 4 * m + |charset| + 8)
  {
    var codes, texts := Base64.Chunks(Base64.Encode(s), 4 * m), Base64.Chunks(s, 3 * m);
    BChunkPayloads(s, m, utf8);
    BChunkLines(codes);
    hide Represents, LinesWithin, SafePayload, Payloads, CleanParts, Base64.Encode, Base64.ChunkSplit;
    Assemble(charset, LETTER_B, codes, texts, utf8, encoded, value);
    Base64.ChunksFlatten(s, 3 * m);
    ChunksOfCode(s, m);
    assert BValue(value, charset, s, texts);
    ChunkWidth(value, charset, Base64.Encode(s), m, codes, texts, utf8);
  }

  lemma {:induction false} ChunkWidth(value: bytes, charset: bytes, code: bytes, m: nat, codes: seq<bytes>,
                                      texts: seq<bytes>, utf8: bool)
    requires m > 0 && codes == Base64.Chunks(code, 4 * m) && Payloads(LETTER_B, codes, texts, utf8)
    requires SafePayload(charset) && CrlfLines([SP] + value) == FoldedWords(charset, LETTER_B, codes)
    ensures LinesWithin(value, 4 * m + |charset| + 8)
  {
    Base64.ChunksFlatten(code, 4 * m);
    hide SafePayload, DecodePayload, CharsIn, CrlfLines, FoldedWords, Base64.Chunks, LinesWithin;
    WordLinesWithin(value, charset, LETTER_B, codes, 4 * m);
  }

  lemma {:induction false} BMultiBranch(groups: seq<seq<bytes>>, charset: bytes, encoded: bytes, value: bytes)
    requires groups != [] && BWrap.Grouped(Flatten(groups), groups) && AllChars(Flatten(groups))
    requires SafePayload(charset) && |charset| == 5
    requires encoded == Join(BWrap.GroupCodes(groups), [LF])
    requires value == WrapEachLine(charset, LETTER_B, encoded)
    ensures Represents(value, Flatten(Flatten(groups)), charset, true) && LinesWithin(value, 76)
    ensures MadeOfB(value, charset, Flatten(Flatten(groups)))
  {
    var codes := BWrap.GroupCodes(groups);
    BMultiPayloads(groups);
    Assemble(charset, LETTER_B, codes, GroupBytes(groups), true, encoded, value);
    FlattenGroups(groups);
    forall n | 0 <= n < |CrlfLines([SP] + value)|
      ensures |CrlfLines([SP] + value)[n]| <= 76
    {
      FoldedWordShape(charset, LETTER_B, codes[n]);
    }
    assert BValue(value, charset, Flatten(Flatten(groups)), GroupBytes(groups));
  }

  // ----- the encoder -----

  lemma {:induction false} NoBreaksConcat(a: bytes, b: bytes)
    ensures NoBreaks(a + b) == NoBreaks(a) + NoBreaks(b)
  {
    if a == [] {
      assert a + b == b;
    } else {
      assert (a + b)[1..] == a[1..] + b;
      NoBreaksConcat(a[1..], b);
    }
  }

  /** Dropping line breaks from UTF-8 text drops whole characters. */
  lemma {:induction false} NoBreaksUtf8(cs: seq<bytes>) returns (kept: seq<bytes>)
    requires AllChars(cs)
    ensures AllChars(kept) && Flatten(kept) == NoBreaks(Flatten(cs))
  {
    if cs == [] {
      kept := [];
    } else {
      var more := NoBreaksUtf8(cs[1..]);
      NoBreaksConcat(cs[0], Flatten(cs[1..]));
      assert IsChar(cs[0]);
      if |cs[0]| == 1 && IsBreak(cs[0][0]) {
        assert cs[0][1..] == [];
        kept := more;
      } else {
        NoBreaksOfOneLine(cs[0]);
        kept := [cs[0]] + more;
      }
    }
  }

  /** Dropping line breaks drops whole characters. */
  lemma {:induction false} NoBreaksUnits(str: bytes, utf8: bool) returns (kept: seq<bytes>)
    requires CharsIn(str, utf8).Some?
    ensures Units(kept, utf8) && Flatten(kept) == NoBreaks(str)
  {
    if utf8 {
      kept := NoBreaksUtf8(Chars(str).value);
    } else {
      kept := CharsIn(NoBreaks(str), false).value;
    }
  }

  /** The charset is one the encoder can name: any spelling of UTF-8, or another good name. */
  predicate Encodable(cfg: Settings) { IsUtf8(cfg) || GoodCharset(cfg) }

  lemma {:induction false} LabelSafe(cfg: Settings, str: bytes)
    requires Encodable(cfg)
    ensures CharsetName(Label(cfg, str)) && SafePayload(Label(cfg, str)) && 15 <= MaxLength(cfg, str) <= 990
    ensures IsUtf8(cfg) ==> |cfg.charSet| == 5 && 47 <= MaxLength(cfg, str) <= 985
  {
    if IsUtf8(cfg) {
      var c, l := cfg.charSet, Lower(cfg.charSet);
      assert |c| == |l| == 5;
      forall i | 0 <= i < 5 ensures CharsetByte(c[i]) {
        assert LowerByte(c[i]) == UTF_8[i];
      }
    }
  }

  /** The lines are the Q texts of groups of whole characters that make up the value without its line breaks. */
  ghost predicate IsQPayload(str: bytes, pos: Position, utf8: bool, encoded: bytes, room: int,
                             groups: seq<seq<bytes>>) {
    && groups != [] && Units(Flatten(groups), utf8) && Flatten(Flatten(groups)) == NoBreaks(str)
    && encoded == Join(QWrap.GroupTexts(groups, pos), [LF])
    && forall n :: 0 <= n < |groups| ==> |Q(Flatten(groups[n]), pos)| <= room
  }

  /** The payload lines of the Q branch: `encodeQ`, `wrapText`, `trim` and the removal of the soft breaks. */
  method QPayloadLines(str: bytes, pos: Position, utf8: bool, maxlen: nat) returns (encoded: bytes)
    requires CharsIn(str, utf8).Some? && maxlen >= 13
    ensures exists groups :: IsQPayload(str, pos, utf8, encoded, maxlen, groups)
  {
    ghost var cs := NoBreaksUnits(str, utf8);
    var text := QEncoding.EncodeQ(str, pos);
    var message := QWrap.WrapEncoded(text, maxlen, utf8, cs, pos);
    ghost var groups :| QWrap.WrapsInto(cs, pos, maxlen, message, groups);
    QTextsClean(groups, pos, utf8);
    QLines(QWrap.GroupTexts(groups, pos), message);
    encoded := Replace(Trim(message), QWrap.SOFT_BREAK, [LF]);
    assert IsQPayload(str, pos, utf8, encoded, maxlen, groups);
  }

  /** What `encodeHeader` owes its caller. Whichever encoding is chosen, decoding each encoded-word on its own and
      concatenating gives the value back (in the Q branch without its line breaks, which are dropped), every word
      holds whole characters of the charset, no line is longer than the mailer allows, and base64 words of multi-byte
      text have at most 75 bytes. */
  ghost predicate Encodes(cfg: Settings, str: bytes, pos: Position, value: bytes) {
    match ChosenBranch(cfg, str, pos)
    case Raw => value == Trim(Join(Segments(str), CRLF))
    case Quoted => value == QuotedPhrase(str)
    case AsIs => value == str && MatchCount(str, pos) == 0 && |str| <= 990
    case EncodeB =>
      && Represents(value, str, Label(cfg, str), IsUtf8(cfg))
      && LinesWithin(value, if IsUtf8(cfg) && Has8Bit(str) then 76 else LineLimit(cfg))
      && MadeOfB(value, Label(cfg, str), str)
    case EncodeQ =>
      && Represents(value, NoBreaks(str), Label(cfg, str), IsUtf8(cfg))
      && LinesWithin(value, LineLimit(cfg))
      && MadeOfQ(value, Label(cfg, str), pos, NoBreaks(str))
  }

  function LineLimit(cfg: Settings): int { if cfg.viaMail then 63 else 998 }

  /** `PHPMailer::encodeHeader`, for UTF-8 and for single-byte charsets. */
  method EncodeHeader(cfg: Settings, str: bytes, pos: Position) returns (value: bytes)
    requires Encodable(cfg) && CharsIn(str, IsUtf8(cfg)).Some?
    ensures Encodes(cfg, str, pos, value)
  {
    hide Represents, MadeOfB, MadeOfQ, LinesWithin, SafePayload;
    LabelSafe(cfg, str);
    match ChosenBranch(cfg, str, pos) {
      case Raw =>
        NormalizeIsJoin(str, CRLF);
        value := Trim(NormalizeBreaks(str, CRLF));
      case Quoted =>
        value := QuotedPhrase(str);
      case AsIs =>
        value := str;
      case EncodeB =>
        value := EncodeB(cfg, str);
      case EncodeQ =>
        value := EncodeQ(cfg, str, pos);
    }
  }

  method EncodeQ(cfg: Settings, str: bytes, pos: Position) returns (value: bytes)
    requires Encodable(cfg) && CharsIn(str, IsUtf8(cfg)).Some?
    ensures Represents(value, NoBreaks(str), Label(cfg, str), IsUtf8(cfg))
    ensures MadeOfQ(value, Label(cfg, str), pos, NoBreaks(str)) && LinesWithin(value, LineLimit(cfg))
  {
    hide Represents, MadeOfQ, SafePayload, LinesWithin, Q;
    LabelSafe(cfg, str);
    var charset, maxlen := Label(cfg, str), MaxLength(cfg, str);
    var encoded := QPayloadLines(str, pos, IsUtf8(cfg), maxlen);
    ghost var groups :| IsQPayload(str, pos, IsUtf8(cfg), encoded, maxlen, groups);
    value := WrapEachLine(charset, LETTER_Q, encoded);
    QBranch(groups, pos, IsUtf8(cfg), charset, encoded, value, maxlen);
  }

  method EncodeB(cfg: Settings, str: bytes) returns (value: bytes)
    requires Encodable(cfg) && CharsIn(str, IsUtf8(cfg)).Some? && str != []
    ensures Represents(value, str, Label(cfg, str), IsUtf8(cfg))
    ensures LinesWithin(value, if IsUtf8(cfg) && Has8Bit(str) then 76 else LineLimit(cfg))
    ensures MadeOfB(value, Label(cfg, str), str)
  {
    hide Represents, MadeOfB, LinesWithin, SafePayload, Units, Base64.Encode, Base64.ChunkSplit;
    LabelSafe(cfg, str);
    var charset, maxlen := Label(cfg, str), MaxLength(cfg, str);
    var cs := CharsIn(str, IsUtf8(cfg)).value;
    MultiBytesIff(str, cs, IsUtf8(cfg));
    if |str| > |cs| {
      AverageInRange(cs);
      var encoded := BWrap.Base64EncodeWrapMB(cs, BWrap.AverageLength(|cs|, |str|), [LF]);
      ghost var groups :| BWrap.WrapsInto(cs, [LF], encoded, groups);
      value := WrapEachLine(charset, LETTER_B, encoded);
      BMultiBranch(groups, charset, encoded, value);
    } else {
      var m := maxlen / 4;
      assert maxlen - maxlen % 4 == 4 * m;
      var encoded := Trim(Base64.ChunkSplit(Base64.Encode(str), 4 * m, [LF]));
      value := WrapEachLine(charset, LETTER_B, encoded);
      BChunkBranch(str, m, IsUtf8(cfg), charset, encoded, value);
      LinesWider(value, 4 * m + |charset| + 8, LineLimit(cfg));
    }
  }

  /** `hasMultiBytes` holds exactly for UTF-8 text with a byte above 127. */
  lemma {:induction false} MultiBytesIff(str: bytes, cs: seq<bytes>, utf8: bool)
    requires Units(cs, utf8) && Flatten(cs) == str
    ensures |str| > |cs| <==> utf8 && Has8Bit(str)
    ensures |str| >= |cs|
  {
    if utf8 {
      FlattenLength(cs);
      SingleByteIff(cs);
    } else {
      SinglesLength(cs);
    }
  }

  lemma {:induction false} SinglesLength(cs: seq<bytes>)
    requires Units(cs, false)
    ensures |Flatten(cs)| == |cs|
  {
    if cs != [] {
      SinglesLength(cs[1..]);
    }
  }

  lemma {:induction false} AverageInRange(cs: seq<bytes>)
    requires AllChars(cs) && cs != []
    ensures |Flatten(cs)| > 0 && 11 <= BWrap.AverageLength(|cs|, |Flatten(cs)|) <= 47
  {
    FlattenLength(cs);
    BWrap.AverageLengthBounds(|cs|, |Flatten(cs)|);
  }
}
