/** Encoding of header values: the choice between B, Q and nothing, the encoded-words, and a reader for them. */
module HeaderEncoding {
  import opened Bytes
  import opened Utf8
  import opened LineBreaks
  import opened Folding
  import opened QEncoding
  import Base64
  import QWrap
  import BWrap

  const LETTER_B: byte := 66
  const LETTER_Q: byte := 81
  const US_ASCII: bytes := [117, 115, 45, 97, 115, 99, 105, 105]
  const UTF_8: bytes := [117, 116, 102, 45, 56]

  /** The mailer settings the encoder looks at. */
  datatype Settings = Settings(charSet: bytes, viaMail: bool, smtpUtf8: bool)

  /** The charset is UTF-8 in any letter case. */
  predicate IsUtf8(cfg: Settings) { Lower(cfg.charSet) == UTF_8 }

  /** The bytes of a charset name by section 2.3 of RFC 2978. */
  predicate CharsetByte(b: byte) {
    IsAlnum(b) || b == 33 || 35 <= b <= 39 || b == 43 || b == 45 || 94 <= b <= 96 || b == 123 || b == 125 || b == 126
  }

  predicate CharsetName(s: bytes) { forall i :: 0 <= i < |s| ==> CharsetByte(s[i]) }

  /** A registered name has at most forty bytes. */
  predicate GoodCharset(cfg: Settings) { CharsetName(cfg.charSet) && |cfg.charSet| <= 40 }

  predicate Has8Bit(s: bytes) { exists i :: 0 <= i < |s| && s[i] >= 128 }

  // ----- the reader -----

  /** An encoded-word as section 2 of RFC 2047 defines it. */
  function MakeWord(charset: bytes, letter: byte, payload: bytes): bytes {
    [EQ, QUESTION] + (charset + ([QUESTION, letter, QUESTION] + (payload + [QUESTION, EQ])))
  }

  function DecodePayload(letter: byte, payload: bytes): Option<bytes> {
    if letter == LETTER_B then Base64.Decode(payload)
    else if letter == LETTER_Q then QDecode(payload)
    else None
  }

  datatype Word = Word(charset: bytes, text: bytes)

  function ReadWord(w: bytes): Option<Word> {
    if !([EQ, QUESTION] <= w) then None
    else
      var r := w[2..];
      var i := IndexOf(r, QUESTION);
      if |r| < i + 3 || r[i + 2] != QUESTION then None
      else
        var t := r[i + 3..];
        var k := IndexOf(t, QUESTION);
        if k + 2 != |t| || t[k + 1] != EQ then None
        else match DecodePayload(r[i + 1], t[..k])
          case None => None
          case Some(text) => Some(Word(r[..i], text))
  }

  /** Folded lines, each a space and one encoded-word. */
  function ReadLines(lines: seq<bytes>): Option<seq<Word>> {
    if lines == [] then Some([])
    else if !([SP] <= lines[0]) then None
    else match (ReadWord(lines[0][1..]), ReadLines(lines[1..]))
      case (Some(w), Some(ws)) => Some([w] + ws)
      case _ => None
  }

  /** Every encoded-word of a header value is decoded on its own; white space between them is dropped. */
  function ReadHeader(value: bytes): Option<seq<Word>> { ReadLines(CrlfLines([SP] + value)) }

  function Texts(ws: seq<Word>): bytes { if ws == [] then [] else ws[0].text + Texts(ws[1..]) }

  /** The part of a word behind its charset. */
  lemma {:induction false} ReadTail(charset: bytes, letter: byte, payload: bytes, r: bytes)
    requires QUESTION !in payload
    requires r == charset + ([QUESTION] + ([letter, QUESTION] + (payload + [QUESTION, EQ])))
    ensures var t := r[|charset| + 3..];
      && r[|charset| + 1] == letter && r[|charset| + 2] == QUESTION && t == payload + [QUESTION, EQ]
      && IndexOf(t, QUESTION) == |payload| && t[..|payload|] == payload && t[|payload| + 1] == EQ
  {
    var tail := payload + [QUESTION, EQ];
    assert r[|charset| + 3..] == tail;
    assert tail == payload + ([QUESTION] + [EQ]);
    IndexAfter(payload, QUESTION, [EQ]);
  }

  lemma {:induction false} ReadMadeWord(charset: bytes, letter: byte, payload: bytes)
    requires QUESTION !in charset && QUESTION !in payload
    ensures ReadWord(MakeWord(charset, letter, payload)) == match DecodePayload(letter, payload)
      case None => None
      case Some(text) => Some(Word(charset, text))
  {
    var w := MakeWord(charset, letter, payload);
    var more := [letter, QUESTION] + (payload + [QUESTION, EQ]);
    var r := charset + ([QUESTION] + more);
    assert [QUESTION, letter, QUESTION] + (payload + [QUESTION, EQ]) == [QUESTION] + more;
    assert w == [EQ, QUESTION] + r;
    assert w[2..] == r;
    hide DecodePayload, IndexOf, MakeWord;
    IndexAfter(charset, QUESTION, more);
    assert r[..|charset|] == charset;
    ReadTail(charset, letter, payload, r);
  }

  // ----- assembling encoded-words -----

  /** Printable, and neither a space nor a question mark: what both encodings produce. */
  predicate SafePayload(s: bytes) { forall i :: 0 <= i < |s| ==> QSafe(s[i]) }

  /** `' =?' . $charset . '?X?\\1?='` put around one line. */
  function FoldedWord(charset: bytes, letter: byte, payload: bytes): bytes {
    [SP] + MakeWord(charset, letter, payload)
  }

  function FoldedWords(charset: bytes, letter: byte, payloads: seq<bytes>): (r: seq<bytes>)
    ensures |r| == |payloads|
    ensures forall n :: 0 <= n < |r| ==> r[n] == FoldedWord(charset, letter, payloads[n])
  {
    seq(|payloads|, n requires 0 <= n < |payloads| => FoldedWord(charset, letter, payloads[n]))
  }

  /** The `preg_replace` over all lines, the final normalisation of breaks and the trim. */
  function WrapEachLine(charset: bytes, letter: byte, encoded: bytes): bytes {
    Trim(NormalizeBreaks(Join(FoldedWords(charset, letter, SplitOn(encoded, LF)), [LF]), CRLF))
  }

  lemma {:induction false} FoldedWordShape(charset: bytes, letter: byte, payload: bytes)
    requires SafePayload(charset) && SafePayload(payload) && !IsBreak(letter)
    ensures var w := FoldedWord(charset, letter, payload);
      OneLine(w) && |w| == |charset| + |payload| + 8 && w[0] == SP && w[1] == EQ && w[|w| - 1] == EQ
  {
  }

  lemma {:induction false} JoinEnds(ws: seq<bytes>)
    requires ws != []
    requires forall n :: 0 <= n < |ws| ==> |ws[n]| >= 2 && ws[n][0] == SP && ws[n][1] == EQ && ws[n][|ws[n]| - 1] == EQ
    ensures var t := Join(ws, CRLF); |t| >= 2 && t[0] == SP && t[1] == EQ && t[|t| - 1] == EQ
  {
    if |ws| > 1 {
      JoinEnds(ws[1..]);
    }
  }

  /** Trimming such a value only takes off its first space. */
  lemma {:induction false} TrimFirstSpace(t: bytes)
    requires |t| >= 2 && t[0] == SP && !IsTrimmed(t[1]) && !IsTrimmed(t[|t| - 1])
    ensures Trim(t) == t[1..]
  {
    assert TrimLeft(t) == TrimLeft(t[1..]) == t[1..];
  }

  /** Each payload decodes to the text it stands for, and that text is whole characters. */
  ghost predicate Payloads(letter: byte, payloads: seq<bytes>, texts: seq<bytes>, utf8: bool) {
    && |payloads| == |texts| && payloads != []
    && forall n :: 0 <= n < |payloads| ==>
      SafePayload(payloads[n]) && DecodePayload(letter, payloads[n]) == Some(texts[n]) && CharsIn(texts[n], utf8).Some?
  }

  /** A value made of encoded-words: it reads back to `str`, every word labelled `charset` and holding whole
      characters, and every line of it but the first is a folded continuation. */
  ghost predicate Represents(value: bytes, str: bytes, charset: bytes, utf8: bool) {
    && ReadHeader(value).Some?
    && Texts(ReadHeader(value).value) == str
    && (forall w :: w in ReadHeader(value).value ==> w.charset == charset && CharsIn(w.text, utf8).Some?)
    && FoldSafe(value)
  }

  lemma {:induction false} ReadFoldedWords(charset: bytes, letter: byte, payloads: seq<bytes>, texts: seq<bytes>,
                                           utf8: bool)
    requires SafePayload(charset)
    requires |payloads| == |texts|
    requires forall n :: 0 <= n < |payloads| ==>
      SafePayload(payloads[n]) && DecodePayload(letter, payloads[n]) == Some(texts[n]) && CharsIn(texts[n], utf8).Some?
    ensures var r := ReadLines(FoldedWords(charset, letter, payloads));
      && r.Some? && Texts(r.value) == Flatten(texts)
      && forall w :: w in r.value ==> w.charset == charset && CharsIn(w.text, utf8).Some?
  {
    if payloads != [] {
      var lines := FoldedWords(charset, letter, payloads);
      assert lines[1..] == FoldedWords(charset, letter, payloads[1..]);
      ReadFoldedWords(charset, letter, payloads[1..], texts[1..], utf8);
      assert lines[0][1..] == MakeWord(charset, letter, payloads[0]);
      ReadMadeWord(charset, letter, payloads[0]);
    }
  }

  lemma {:induction false} JoinDropFirst(ws: seq<bytes>)
    requires ws != [] && ws[0] != []
    ensures Join(ws, CRLF) != []
    ensures Join(ws, CRLF)[1..] == Join([ws[0][1..]] + ws[1..], CRLF)
  {
    if |ws| > 1 {
      var rest := Join(ws[1..], CRLF);
      assert ([ws[0][1..]] + ws[1..])[1..] == ws[1..];
      assert (ws[0] + CRLF + rest)[1..] == ws[0][1..] + CRLF + rest;
    }
  }

  /** Joining the folded words with CRLF and dropping the first space: what reads back, line by line. */
  lemma {:induction false} AssembledLines(ws: seq<bytes>)
    requires ws != []
    requires forall n :: 0 <= n < |ws| ==> OneLine(ws[n]) && |ws[n]| > 1 && ws[n][0] == SP
    ensures var t := Join(ws, CRLF); t != [] && CrlfLines(t) == ws && FoldSafe(t[1..])
  {
    CrlfLinesOfJoin(ws);
    JoinDropFirst(ws);
    CrlfLinesOfJoin([ws[0][1..]] + ws[1..]);
  }

  lemma {:induction false} NormalizeJoined(ws: seq<bytes>)
    requires ws != [] && AllOneLine(ws)
    ensures NormalizeBreaks(Join(ws, [LF]), CRLF) == Join(ws, CRLF)
  {
    NormalizeIsJoin(Join(ws, [LF]), CRLF);
    SegmentsOfJoin(ws, [LF]);
  }

  /** The whole tail of `encodeHeader`: lines of payload become a value that reads back to their texts. */
  lemma {:induction false} Assemble(charset: bytes, letter: byte, payloads: seq<bytes>, texts: seq<bytes>, utf8: bool,
                                    encoded: bytes, value: bytes)
    requires SafePayload(charset) && !IsBreak(letter) && Payloads(letter, payloads, texts, utf8)
    requires encoded == Join(payloads, [LF]) && value == WrapEachLine(charset, letter, encoded)
    ensures Represents(value, Flatten(texts), charset, utf8)
    ensures CrlfLines([SP] + value) == FoldedWords(charset, letter, payloads)
  {
    var ws := FoldedWords(charset, letter, payloads);
    SplitOfJoin(payloads, LF);
    forall n | 0 <= n < |ws|
      ensures OneLine(ws[n]) && |ws[n]| > 1 && ws[n][0] == SP && ws[n][1] == EQ && ws[n][|ws[n]| - 1] == EQ
    {
      FoldedWordShape(charset, letter, payloads[n]);
    }
    NormalizeJoined(ws);
    JoinEnds(ws);
    var t := Join(ws, CRLF);
    TrimFirstSpace(t);
    AssembledLines(ws);
    assert [SP] + t[1..] == t;
    ReadFoldedWords(charset, letter, payloads, texts, utf8);
  }

  // ----- choosing the encoding -----

  /** The bytes counted to decide between the encodings. */
  predicate Counted(b: byte, pos: Position) {
    match pos
    case Phrase => b < 32 || b == 34 || b == 92 || b > 126
    case Comment => TextCounted(b) || b == 40 || b == 41 || b == 34
    case Text => TextCounted(b)
  }

  predicate TextCounted(b: byte) { b <= 8 || b == 11 || b == 12 || 14 <= b <= 31 || b >= 127 }

  function MatchCount(s: bytes, pos: Position): nat {
    if s == [] then 0 else (if Counted(s[0], pos) then 1 else 0) + MatchCount(s[1..], pos)
  }

  function Label(cfg: Settings, str: bytes): bytes { if Has8Bit(str) then cfg.charSet else US_ASCII }

  function MaxLength(cfg: Settings, str: bytes): int {
    (if cfg.viaMail then 63 else 998) - (8 + |Label(cfg, str)|)
  }

  datatype Branch = Raw | Quoted | AsIs | EncodeB | EncodeQ

  function ChosenBranch(cfg: Settings, str: bytes, pos: Position): Branch {
    if cfg.smtpUtf8 && pos != Comment then Raw
    else if pos == Phrase && !Has8Bit(str) then Quoted
    else if 3 * MatchCount(str, pos) > |str| then EncodeB
    else if MatchCount(str, pos) > 0 || |str| > MaxLength(cfg, str) then EncodeQ
    else AsIs
  }

  /** `addcslashes($str, "\0..\37\177\\\"")`. */
  function AddCSlashes(s: bytes): bytes {
    if s == [] then []
    else
      var b := s[0];
      (if 7 <= b <= 13 then [92, Ascii("abtnvfr")[b - 7]]
       else if b < 32 || b == 127 then [92, 48 + b / 64, 48 + b / 8 % 8, 48 + b % 8]
       else if b == 92 || b == 34 then [92, b]
       else [b]) + AddCSlashes(s[1..])
  }

  /** The bytes a phrase may hold without quotes. */
  predicate AtomByte(b: byte) {
    IsAlnum(b) || b == 33 || 35 <= b <= 39 || b == 42 || b == 43 || b == 47 || b == EQ || b == QUESTION
    || b == 94 || b == 95 || b == 96 || 123 <= b <= 126 || b == SP || b == 45
  }

  function QuotedPhrase(str: bytes): bytes {
    var encoded := AddCSlashes(str);
    if str == encoded && forall i :: 0 <= i < |str| ==> AtomByte(str[i]) then encoded
    else [34] + encoded + [34]
  }
}
