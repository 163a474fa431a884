/** What a written header value is: raw text, a phrase, encoded-words or the text itself, told from the input alone. */
module HeaderModes {
  import opened Bytes
  import opened Utf8
  import opened LineBreaks
  import opened Folding
  import opened QEncoding
  import opened HeaderEncoding
  import opened EncodedText
  import opened HeaderWriter
  import opened HeaderParameter
  import opened NameReading
  import Base64
  import QWrap

  /** Lines of one encoded-word each, after a space: `=?charset?letter?payload?=`, the payload printable and free of
      question marks, and no line too long. */
  ghost predicate WordLines(lines: seq<bytes>, charset: bytes, letter: byte, payloads: seq<bytes>, limit: int) {
    && payloads != [] && |lines| == |payloads|
    && forall n :: 0 <= n < |lines| ==>
      && |lines[n]| <= limit
      && lines[n] == [32, 61, 63] + charset + [63, letter, 63] + payloads[n] + [63, 61]
      && forall i :: 0 <= i < |payloads[n]| ==> 33 <= payloads[n][i] <= 126 && payloads[n][i] != 63
  }

  /** The value is nothing but encoded-words with this charset and letter, in lines up to the limit. */
  ghost predicate IsWords(value: bytes, charset: bytes, letter: byte, limit: int) {
    exists payloads :: WordLines(CrlfLines([32] + value), charset, letter, payloads, limit)
  }

  /** The byte can stand in plain text at this place: printable, but no quote or backslash in a phrase and no quote or
      parenthesis in a comment; outside phrases also tabs and breaks. */
  ghost predicate Ordinary(b: byte, pos: Position) {
    match pos
    case Phrase => 32 <= b <= 126 && b !in {34, 92}
    case Comment => (32 <= b <= 126 && b !in {34, 40, 41}) || b in {9, 10, 13}
    case Text => 32 <= b <= 126 || b in {9, 10, 13}
  }

  /** How many bytes of the text cannot. */
  ghost function Odd(s: bytes, pos: Position): nat { |set i | 0 <= i < |s| && !Ordinary(s[i], pos)| }

  lemma {:induction false} CountedIsOdd(b: byte, pos: Position)
    ensures Counted(b, pos) <==> !Ordinary(b, pos)
  {
  }

  lemma {:induction false} CountLast(s: bytes, b: byte, pos: Position)
    ensures MatchCount(s + [b], pos) == MatchCount(s, pos) + (if Counted(b, pos) then 1 else 0)
  {
    if s == [] {
      assert (s + [b])[1..] == [];
    } else {
      assert (s + [b])[1..] == s[1..] + [b];
      CountLast(s[1..], b, pos);
    }
  }

  lemma {:induction false} OddLast(s: bytes, b: byte, pos: Position)
    ensures Odd(s + [b], pos) == Odd(s, pos) + (if Ordinary(b, pos) then 0 else 1)
  {
    hide Ordinary;
    var t := s + [b];
    var before := set i | 0 <= i < |s| && !Ordinary(s[i], pos);
    assert (set i | 0 <= i < |t| && !Ordinary(t[i], pos)) == before + (if Ordinary(b, pos) then {} else {|s|});
  }

  lemma {:induction false} CountIsOdd(s: bytes, pos: Position)
    ensures MatchCount(s, pos) == Odd(s, pos)
  {
    if s != [] {
      var n := |s| - 1;
      CountIsOdd(s[..n], pos);
      CountLast(s[..n], s[n], pos);
      OddLast(s[..n], s[n], pos);
      CountedIsOdd(s[n], pos);
      assert s == s[..n] + [s[n]];
    }
  }

  lemma {:induction false} OddIff(s: bytes, pos: Position)
    ensures Odd(s, pos) > 0 <==> exists i :: 0 <= i < |s| && !Ordinary(s[i], pos)
  {
    hide Ordinary;
    var places := set i | 0 <= i < |s| && !Ordinary(s[i], pos);
    if places != {} {
      var i :| i in places;
    }
    if i :| 0 <= i < |s| && !Ordinary(s[i], pos) {
      assert i in places;
    }
  }

  // ----- the encoded-words -----

  lemma {:induction false} WordLine(charset: bytes, letter: byte, payload: bytes)
    ensures FoldedWord(charset, letter, payload) == [32, 61, 63] + charset + [63, letter, 63] + payload + [63, 61]
  {
  }

  lemma {:induction false} MakeWordLines(value: bytes, charset: bytes, letter: byte, payloads: seq<bytes>, limit: int)
    requires CrlfLines([32] + value) == FoldedWords(charset, letter, payloads) && LinesWithin(value, limit)
    requires payloads != [] && forall n :: 0 <= n < |payloads| ==> SafePayload(payloads[n])
    ensures IsWords(value, charset, letter, limit)
  {
    var lines := CrlfLines([32] + value);
    hide CrlfLines, FoldedWord;
    forall n | 0 <= n < |lines|
      ensures lines[n] == [32, 61, 63] + charset + [63, letter, 63] + payloads[n] + [63, 61]
    {
      WordLine(charset, letter, payloads[n]);
    }
    assert WordLines(lines, charset, letter, payloads, limit);
  }

  lemma {:induction false} BIsWords(value: bytes, charset: bytes, str: bytes, limit: int)
    requires MadeOfB(value, charset, str) && LinesWithin(value, limit)
    ensures IsWords(value, charset, 66, limit)
  {
    var texts :| BValue(value, charset, str, texts);
    var codes := Codes(texts);
    hide CrlfLines, FoldedWord, Base64.Encode, SafePayload, LinesWithin, IsWords;
    forall n | 0 <= n < |codes| ensures SafePayload(codes[n]) {
      BPayload(texts[n]);
    }
    assert CrlfLines([32] + value) == FoldedWords(charset, 66, codes);
    MakeWordLines(value, charset, 66, codes, limit);
  }

  lemma {:induction false} QIsWords(value: bytes, charset: bytes, pos: Position, str: bytes, limit: int)
    requires MadeOfQ(value, charset, pos, str) && OneLine(str) && LinesWithin(value, limit)
    ensures IsWords(value, charset, 81, limit)
  {
    var groups :| QValue(value, charset, pos, str, groups);
    var texts, ts := QWrap.GroupTexts(groups, pos), GroupBytes(groups);
    FlattenGroups(groups);
    PiecesOneLine(ts);
    QDecoding(ts, texts, pos);
    hide CrlfLines, FoldedWord, Q, SafePayload, LinesWithin, IsWords, OneLine, DecodePayload;
    MakeWordLines(value, charset, 81, texts, limit);
  }

  // ----- the choice -----

  ghost predicate EightBit(s: bytes) { exists i :: 0 <= i < |s| && s[i] >= 128 }

  /** The charset the words are labelled with. */
  ghost function NamedCharset(cfg: Settings, str: bytes): bytes {
    if EightBit(str) then cfg.charSet else Ascii("us-ascii")
  }

  /** What is written where raw text is not allowed. */
  ghost predicate WrittenSafely(cfg: Settings, str: bytes, pos: Position, value: bytes) {
    var charset, limit := NamedCharset(cfg, str), if cfg.viaMail then 63 else 998;
    if pos == Phrase && !EightBit(str) then value == QuotedPhrase(str)
    else if 3 * Odd(str, pos) > |str| then
      IsWords(value, charset, 66, if IsUtf8(cfg) && EightBit(str) then 76 else limit) && ReadValue(value) == str
    else if Odd(str, pos) > 0 || |str| > limit - 8 - |charset| then
      IsWords(value, charset, 81, limit) && ReadValue(value) == NoBreaks(str)
    else value == str
  }

  lemma {:induction false} LabelIs(cfg: Settings, str: bytes)
    ensures Label(cfg, str) == NamedCharset(cfg, str)
    ensures MaxLength(cfg, str) == (if cfg.viaMail then 63 else 998) - 8 - |NamedCharset(cfg, str)|
  {
    assert Ascii("us-ascii") == US_ASCII;
  }

  /** With SMTPUTF8 agreed, everything but a comment goes out as it is, trimmed and with its breaks made CRLF. Otherwise:
      a phrase in ASCII becomes a quoted string or a bare phrase; text with more than a third of bytes that cannot stand
      there becomes base64 words; text with some of them, or too long for a line, becomes Q words; the rest is written
      as it is. No line is longer than the mailer takes, nor a base64 word of UTF-8 text longer than 75 bytes. All words
      name the charset, and reading them gives back the text, for Q words without its breaks. */
  lemma {:induction false} HowItIsWritten(cfg: Settings, str: bytes, pos: Position, value: bytes)
    requires Encodable(cfg) && Encodes(cfg, str, pos, value)
    ensures if cfg.smtpUtf8 && pos != Comment then value == Trim(Join(Segments(str), [13, 10]))
            else WrittenSafely(cfg, str, pos, value)
  {
    CountIsOdd(str, pos);
    LabelIs(cfg, str);
    LabelPlain(cfg, str);
    hide Represents, MadeOfB, MadeOfQ, LinesWithin, IsWords, ReadValue, SafePayload, NoSlash, MatchCount, Label, Odd,
         MaxLength, QuotedPhrase, NamedCharset;
    match ChosenBranch(cfg, str, pos)
    case EncodeB =>
      BIsWords(value, Label(cfg, str), str, if IsUtf8(cfg) && Has8Bit(str) then 76 else LineLimit(cfg));
      BValueReads(value, Label(cfg, str), str);
    case EncodeQ =>
      QIsWords(value, Label(cfg, str), pos, NoBreaks(str), LineLimit(cfg));
      QValueReads(value, Label(cfg, str), pos, NoBreaks(str));
    case _ =>
  }

  // ----- consequences -----

  lemma {:induction false} EightBitIsOdd(s: bytes, pos: Position)
    requires EightBit(s)
    ensures Odd(s, pos) > 0
  {
    var i :| 0 <= i < |s| && s[i] >= 128;
    assert !Ordinary(s[i], pos);
    OddIff(s, pos);
  }

  lemma {:induction false} IsWordsWider(value: bytes, charset: bytes, letter: byte, limit: int)
    requires IsWords(value, charset, letter, limit) && limit <= 998
    ensures IsWords(value, charset, letter, 998)
  {
    var lines := CrlfLines([32] + value);
    var payloads :| WordLines(lines, charset, letter, payloads, limit);
    hide CrlfLines;
    assert WordLines(lines, charset, letter, payloads, 998);
  }

  /** Without SMTPUTF8, and in comments always, 8-bit text is sent in encoded-words that name the mailer's charset, and
      reads back, in base64 whole and in Q words without its breaks. */
  lemma {:induction false} EightBitIsEncoded(cfg: Settings, str: bytes, pos: Position, value: bytes)
    requires Encodable(cfg) && Encodes(cfg, str, pos, value) && EightBit(str) && (!cfg.smtpUtf8 || pos == Comment)
    ensures (IsWords(value, cfg.charSet, 66, 998) && ReadValue(value) == str)
         || (IsWords(value, cfg.charSet, 81, 998) && ReadValue(value) == NoBreaks(str))
  {
    EightBitIsOdd(str, pos);
    hide Odd, IsWords, ReadValue, Encodes, EightBit, Encodable;
    HowItIsWritten(cfg, str, pos, value);
    var letter := if 3 * Odd(str, pos) > |str| then 66 else 81;
    var limit := if letter == 66 && IsUtf8(cfg) then 76 else if cfg.viaMail then 63 else 998;
    IsWordsWider(value, cfg.charSet, letter, limit);
  }

  /** In UTF-8 under any spelling of its name, each of those words names the charset and holds whole characters. */
  lemma {:induction false} WordsHoldCharacters(cfg: Settings, str: bytes, pos: Position, value: bytes)
    requires Lower(cfg.charSet) == Ascii("utf-8")
    requires Encodes(cfg, str, pos, value) && EightBit(str) && (!cfg.smtpUtf8 || pos == Comment)
    ensures ReadHeader(value).Some?
    ensures forall w :: w in ReadHeader(value).value ==> w.charset == cfg.charSet && Chars(w.text).Some?
  {
    assert Ascii("utf-8") == UTF_8;
    EightBitBranch(cfg, str, pos);
    InWordsRepresents(cfg, str, pos, value);
    assert IsUtf8(cfg);
    hide *;
    if Represents(value, str, cfg.charSet, true) {
      RepresentsWords(value, str, cfg.charSet);
    } else {
      RepresentsWords(value, NoBreaks(str), cfg.charSet);
    }
  }

  lemma {:induction false} InWordsRepresents(cfg: Settings, str: bytes, pos: Position, value: bytes)
    requires Encodes(cfg, str, pos, value) && InWords(ChosenBranch(cfg, str, pos))
    ensures Represents(value, str, Label(cfg, str), IsUtf8(cfg)) || Represents(value, NoBreaks(str), Label(cfg, str), IsUtf8(cfg))
  {
    hide ChosenBranch, Label, Represents, MadeOfB, MadeOfQ, LinesWithin, IsUtf8, LineLimit, Has8Bit, NoBreaks;
  }

  lemma {:induction false} EightBitBranch(cfg: Settings, str: bytes, pos: Position)
    requires EightBit(str) && (!cfg.smtpUtf8 || pos == Comment)
    ensures InWords(ChosenBranch(cfg, str, pos)) && Label(cfg, str) == cfg.charSet
  {
    EightBitIsOdd(str, pos);
    CountIsOdd(str, pos);
    hide MatchCount, Odd, MaxLength;
  }

  lemma {:induction false} RepresentsWords(value: bytes, text: bytes, charset: bytes)
    requires Represents(value, text, charset, true)
    ensures ReadHeader(value).Some?
    ensures forall w :: w in ReadHeader(value).value ==> w.charset == charset && Chars(w.text).Some?
  {
    hide ReadHeader, Chars, FoldSafe;
  }

  ghost predicate Below128(s: bytes) { forall i :: 0 <= i < |s| ==> s[i] < 128 }

  lemma {:induction false} JoinBelow(lines: seq<bytes>)
    requires forall n :: 0 <= n < |lines| ==> Below128(lines[n])
    ensures Below128(Join(lines, CRLF))
  {
    if |lines| > 1 {
      JoinBelow(lines[1..]);
    }
  }

  lemma {:induction false} WordsBelow(value: bytes, charset: bytes, letter: byte, limit: int)
    requires IsWords(value, charset, letter, limit) && Below128(charset) && letter < 128
    ensures Below128(value)
  {
    var lines := CrlfLines([32] + value);
    var payloads :| WordLines(lines, charset, letter, payloads, limit);
    JoinOfLines([32] + value);
    hide CrlfLines;
    forall n | 0 <= n < |lines| ensures Below128(lines[n]) {
      LineBelow(charset, letter, payloads[n]);
    }
    JoinBelow(lines);
    assert value == ([32] + value)[1..];
  }

  lemma {:induction false} LineBelow(charset: bytes, letter: byte, payload: bytes)
    requires Below128(charset) && letter < 128 && forall i :: 0 <= i < |payload| ==> 33 <= payload[i] <= 126
    ensures Below128([32, 61, 63] + charset + [63, letter, 63] + payload + [63, 61])
  {
  }

  lemma {:induction false} SlashesBelow(s: bytes)
    requires Below128(s)
    ensures Below128(AddCSlashes(s))
  {
    if s != [] {
      SlashesBelow(s[1..]);
    }
  }

  lemma {:induction false} QuotedBelow(s: bytes)
    requires !EightBit(s)
    ensures Below128(QuotedPhrase(s))
  {
    SlashesBelow(s);
    hide AddCSlashes, AtomByte;
  }

  lemma {:induction false} CharsetBelow(cfg: Settings, str: bytes)
    requires Encodable(cfg)
    ensures Below128(NamedCharset(cfg, str))
  {
    LabelIs(cfg, str);
    LabelSafe(cfg, str);
  }

  /** Without SMTPUTF8, and in comments always, no 8-bit byte is sent. */
  lemma {:induction false} NothingAbove127(cfg: Settings, str: bytes, pos: Position, value: bytes)
    requires Encodable(cfg) && Encodes(cfg, str, pos, value) && (!cfg.smtpUtf8 || pos == Comment)
    ensures forall i :: 0 <= i < |value| ==> value[i] < 128
  {
    HowItIsWritten(cfg, str, pos, value);
    CharsetBelow(cfg, str);
    OddIff(str, pos);
    var charset, limit := NamedCharset(cfg, str), if cfg.viaMail then 63 else 998;
    hide Encodes, IsWords, Odd, NamedCharset, Encodable, QuotedPhrase, ReadValue, NoBreaks;
    if pos == Phrase && !EightBit(str) {
      QuotedBelow(str);
    } else if 3 * Odd(str, pos) > |str| {
      WordsBelow(value, charset, 66, if IsUtf8(cfg) && EightBit(str) then 76 else limit);
    } else if Odd(str, pos) > 0 || |str| > limit - 8 - |charset| {
      WordsBelow(value, charset, 81, limit);
    }
  }

  // ----- phrases -----

  /** What a phrase may hold without quotes: letters, digits, blanks and the marks of an atom. */
  ghost predicate Bare(b: byte) {
    || 48 <= b <= 57 || 65 <= b <= 90 || 97 <= b <= 122
    || b in {32, 33, 35, 36, 37, 38, 39, 42, 43, 45, 47, 61, 63, 94, 95, 96, 123, 124, 125, 126}
  }

  /** An ASCII phrase of letters, digits, blanks and the marks of an atom is written as it is; any other is written
      between quotes, and taking it out of them gives it back when it holds no control byte. */
  lemma {:induction false} PhraseIsWritten(cfg: Settings, str: bytes, value: bytes)
    requires Encodes(cfg, str, Phrase, value) && !cfg.smtpUtf8 && !EightBit(str)
    ensures if forall i :: 0 <= i < |str| ==> Bare(str[i]) then value == str
            else |value| >= 2 && value[0] == 34 && value[|value| - 1] == 34
    ensures (forall i :: 0 <= i < |str| ==> 32 <= str[i] != 127) ==> Unquote(value) == Some(str)
  {
    assert AllAtoms(str) <==> forall i :: 0 <= i < |str| ==> Bare(str[i]);
    hide AtomByte, Bare, AddCSlashes, Unescape, SeenAll;
    if AllAtoms(str) {
      BarePhrase(str);
    } else {
      PhraseInQuotes(str);
      SeenIff(str);
    }
  }

}
