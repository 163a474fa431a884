/** Reading header text in which encoded-words may stand among plain words, section 6.2 of RFC 2047. */
module EncodedText {
  import opened Bytes
  import opened LineBreaks
  import opened QEncoding
  import opened HeaderEncoding
  import Base64

  predicate IsBlank(b: byte) { b == SP || b == TAB || IsBreak(b) }

  predicate AllBlank(s: bytes) { forall i :: 0 <= i < |s| ==> IsBlank(s[i]) }

  predicate NoBlank(s: bytes) { forall i :: 0 <= i < |s| ==> !IsBlank(s[i]) }

  /** How many bytes at the start are blank, or are not. */
  function Span(s: bytes, blank: bool): (n: nat)
    ensures n <= |s|
    ensures forall i :: 0 <= i < n ==> IsBlank(s[i]) == blank
    ensures n < |s| ==> IsBlank(s[n]) != blank
  {
    if s == [] || IsBlank(s[0]) != blank then 0 else 1 + Span(s[1..], blank)
  }

  lemma {:induction false} SpanIs(s: bytes, blank: bool, n: nat)
    requires n <= |s| && forall i :: 0 <= i < n ==> IsBlank(s[i]) == blank
    requires n < |s| ==> IsBlank(s[n]) != blank
    ensures Span(s, blank) == n
  {
    hide Span;
  }

  /** The text a reader shows: a word between blanks that is an encoded-word is decoded, everything else stays, and
      the blanks between two encoded-words go. `after` says that an encoded-word came just before. */
  function Read(s: bytes, after: bool): bytes
    decreases |s|
  {
    var k := Span(s, true);
    var n := Span(s[k..], false);
    if n == 0 then s
    else match ReadWord(s[k..k + n])
      case Some(w) => (if after then [] else s[..k]) + (w.text + Read(s[k + n..], true))
      case None => s[..k + n] + Read(s[k + n..], false)
  }

  function ReadValue(value: bytes): bytes { Read(value, false) }

  /** Some word between blanks is an encoded-word. */
  predicate HasWord(s: bytes)
    decreases |s|
  {
    var k := Span(s, true);
    var n := Span(s[k..], false);
    n != 0 && (ReadWord(s[k..k + n]).Some? || HasWord(s[k + n..]))
  }

  // ----- a decoded word is shorter than what was written -----

  lemma {:induction false} QDecodeShorter(t: bytes)
    ensures QDecode(t).Some? ==> |QDecode(t).value| <= |t|
    decreases |t|
  {
    if t != [] {
      if t[0] == EQ {
        if |t| >= 3 {
          QDecodeShorter(t[3..]);
        }
      } else {
        QDecodeShorter(t[1..]);
      }
    }
  }

  lemma {:induction false} WordShorter(w: bytes)
    ensures ReadWord(w).Some? ==> |ReadWord(w).value.text| < |w|
  {
    if ReadWord(w).Some? {
      var r := w[2..];
      var i := IndexOf(r, QUESTION);
      var t := r[i + 3..];
      var payload := t[..IndexOf(t, QUESTION)];
      Base64.DecodeShorter(payload);
      QDecodeShorter(payload);
    }
  }

  lemma {:induction false} ReadShorter(s: bytes, after: bool)
    ensures |Read(s, after)| <= |s|
    ensures HasWord(s) ==> |Read(s, after)| < |s|
    ensures !HasWord(s) ==> Read(s, after) == s
    decreases |s|
  {
    hide ReadWord, Span, IsBlank;
    var k := Span(s, true);
    var n := Span(s[k..], false);
    if n != 0 {
      WordShorter(s[k..k + n]);
      ReadShorter(s[k + n..], true);
      ReadShorter(s[k + n..], false);
      assert s[..k + n] + s[k + n..] == s;
    }
  }

  /** Plain text is shown as it is exactly when none of its words is an encoded-word. */
  lemma {:induction false} PlainReadsIff(s: bytes)
    ensures ReadValue(s) == s <==> !HasWord(s)
  {
    ReadShorter(s, false);
  }

  // ----- values made of encoded-words -----

  lemma {:induction false} TokenSpans(blank: bytes, token: bytes, rest: bytes)
    requires AllBlank(blank) && token != [] && NoBlank(token) && (rest == [] || IsBlank(rest[0]))
    ensures var s := blank + (token + rest);
      && Span(s, true) == |blank| && Span(s[|blank|..], false) == |token|
      && s[..|blank|] == blank && s[|blank|..|blank| + |token|] == token && s[|blank| + |token|..] == rest
  {
    hide Span, IsBlank;
    var s := blank + (token + rest);
    assert s[|blank|..] == token + rest;
    SpanIs(s, true, |blank|);
    SpanIs(token + rest, false, |token|);
  }

  lemma {:induction false} ReadStep(s: bytes, blank: bytes, token: bytes, rest: bytes, after: bool)
    requires Span(s, true) == |blank| && Span(s[|blank|..], false) == |token| && token != []
    requires |blank| + |token| <= |s| && s[..|blank|] == blank && s[|blank|..|blank| + |token|] == token
    requires s[|blank| + |token|..] == rest && ReadWord(token).Some?
    ensures Read(s, after) == (if after then [] else blank) + (ReadWord(token).value.text + Read(rest, true))
  {
    hide ReadWord, Span, IsBlank;
  }

  lemma {:induction false} ReadToken(blank: bytes, token: bytes, rest: bytes, after: bool)
    requires AllBlank(blank) && token != [] && NoBlank(token) && (rest == [] || IsBlank(rest[0]))
    requires ReadWord(token).Some?
    ensures Read(blank + (token + rest), after) ==
      (if after then [] else blank) + (ReadWord(token).value.text + Read(rest, true))
  {
    hide *;
    TokenSpans(blank, token, rest);
    ReadStep(blank + (token + rest), blank, token, rest, after);
  }

  /** Payloads in the words' alphabet, with what they decode to. */
  ghost predicate Decoding(letter: byte, payloads: seq<bytes>, texts: seq<bytes>) {
    && |payloads| == |texts|
    && forall n :: 0 <= n < |payloads| ==>
      SafePayload(payloads[n]) && DecodePayload(letter, payloads[n]) == Some(texts[n])
  }

  lemma {:induction false} SafeNoBlank(s: bytes)
    requires SafePayload(s)
    ensures NoBlank(s) && QUESTION !in s
  {
  }

  lemma {:induction false} WordNoBlank(charset: bytes, letter: byte, payload: bytes)
    requires NoBlank(charset) && NoBlank(payload) && !IsBlank(letter)
    ensures MakeWord(charset, letter, payload) != [] && NoBlank(MakeWord(charset, letter, payload))
  {
  }

  lemma {:induction false} WordReads(charset: bytes, letter: byte, payload: bytes, text: bytes)
    requires SafePayload(charset) && SafePayload(payload) && DecodePayload(letter, payload) == Some(text)
    requires !IsBlank(letter)
    ensures var w := MakeWord(charset, letter, payload);
      ReadWord(w).Some? && ReadWord(w).value.text == text && w != [] && NoBlank(w)
  {
    SafeNoBlank(charset);
    SafeNoBlank(payload);
    WordNoBlank(charset, letter, payload);
    hide ReadWord, MakeWord, DecodePayload, SafePayload, NoBlank, IsBlank;
    ReadMadeWord(charset, letter, payload);
  }

  lemma {:induction false} DecodingTail(letter: byte, payloads: seq<bytes>, texts: seq<bytes>)
    requires Decoding(letter, payloads, texts) && payloads != []
    ensures texts != [] && Decoding(letter, payloads[1..], texts[1..])
    ensures SafePayload(payloads[0]) && DecodePayload(letter, payloads[0]) == Some(texts[0])
  {
    hide SafePayload, DecodePayload;
  }

  /** The lines joined, as the first word and what follows it. */
  lemma {:induction false} WordsSplit(charset: bytes, letter: byte, payloads: seq<bytes>, rest: bytes)
    requires payloads != []
    requires rest == if |payloads| == 1 then [] else CRLF + Join(FoldedWords(charset, letter, payloads[1..]), CRLF)
    ensures Join(FoldedWords(charset, letter, payloads), CRLF) == [SP] + (MakeWord(charset, letter, payloads[0]) + rest)
    ensures rest == [] || IsBlank(rest[0])
  {
    var ws := FoldedWords(charset, letter, payloads);
    assert ws[1..] == FoldedWords(charset, letter, payloads[1..]);
    Assoc([SP], MakeWord(charset, letter, payloads[0]), rest);
    if |payloads| == 1 {
      assert ws[0] + [] == ws[0];
    } else {
      Assoc(ws[0], CRLF, Join(ws[1..], CRLF));
    }
  }

  /** The first word of the lines, behind the given blanks. */
  lemma {:induction false} ReadFirst(charset: bytes, letter: byte, payloads: seq<bytes>, texts: seq<bytes>, blank: bytes,
                                     rest: bytes, after: bool)
    requires SafePayload(charset) && !IsBlank(letter) && Decoding(letter, payloads, texts) && payloads != []
    requires AllBlank(blank) && (after || blank == []) && (rest == [] || IsBlank(rest[0]))
    ensures Read(blank + (MakeWord(charset, letter, payloads[0]) + rest), after) == texts[0] + Read(rest, true)
  {
    DecodingTail(letter, payloads, texts);
    WordReads(charset, letter, payloads[0], texts[0]);
    hide Read, ReadWord, MakeWord, NoBlank, IsBlank, SafePayload;
    ReadToken(blank, MakeWord(charset, letter, payloads[0]), rest, after);
    var t := texts[0] + Read(rest, true);
    assert [] + t == t;
  }

  lemma {:induction false} BlankSpace(blank: bytes)
    requires AllBlank(blank)
    ensures AllBlank(blank + [SP]) && AllBlank(CRLF) && AllBlank([])
  {
  }

  lemma {:induction false} ReadLinesOfWords(charset: bytes, letter: byte, payloads: seq<bytes>, texts: seq<bytes>,
                                            blank: bytes)
    requires SafePayload(charset) && !IsBlank(letter) && Decoding(letter, payloads, texts) && payloads != []
    requires AllBlank(blank)
    ensures Read(blank + Join(FoldedWords(charset, letter, payloads), CRLF), true) == Flatten(texts)
  {
    BlankSpace(blank);
    DecodingTail(letter, payloads, texts);
    DecodingLength(letter, payloads, texts);
    var w := MakeWord(charset, letter, payloads[0]);
    var rest := if |payloads| == 1 then [] else CRLF + Join(FoldedWords(charset, letter, payloads[1..]), CRLF);
    WordsSplit(charset, letter, payloads, rest);
    EmptyRead();
    hide Read, MakeWord, FoldedWords, Join, IsBlank, AllBlank, SafePayload, Decoding;
    Assoc(blank, [SP], w + rest);
    ReadFirst(charset, letter, payloads, texts, blank + [SP], rest, true);
    if |payloads| == 1 {
      OneText(texts);
    } else {
      ReadLinesOfWords(charset, letter, payloads[1..], texts[1..], CRLF);
    }
  }

  lemma {:induction false} EmptyRead()
    ensures Read([], true) == []
  {
  }

  lemma {:induction false} OneText(texts: seq<bytes>)
    requires |texts| == 1
    ensures Flatten(texts) == texts[0] + []
  {
    assert texts[1..] == [];
  }

  lemma {:induction false} DecodingLength(letter: byte, payloads: seq<bytes>, texts: seq<bytes>)
    requires Decoding(letter, payloads, texts)
    ensures |payloads| == |texts|
  {
  }

  /** A value that is encoded-words, one a line, is shown as the texts of the words. */
  lemma {:induction false} WordsRead(charset: bytes, letter: byte, payloads: seq<bytes>, texts: seq<bytes>, value: bytes)
    requires SafePayload(charset) && !IsBlank(letter) && Decoding(letter, payloads, texts) && payloads != []
    requires [SP] + value == Join(FoldedWords(charset, letter, payloads), CRLF)
    ensures ReadValue(value) == Flatten(texts)
  {
    BlankSpace([]);
    DecodingTail(letter, payloads, texts);
    DecodingLength(letter, payloads, texts);
    var w := MakeWord(charset, letter, payloads[0]);
    var rest := if |payloads| == 1 then [] else CRLF + Join(FoldedWords(charset, letter, payloads[1..]), CRLF);
    WordsSplit(charset, letter, payloads, rest);
    EmptyRead();
    hide Read, MakeWord, FoldedWords, Join, IsBlank, AllBlank, SafePayload, Decoding;
    assert value == ([SP] + value)[1..];
    assert value == ([SP] + (w + rest))[1..] == w + rest == [] + (w + rest);
    ReadFirst(charset, letter, payloads, texts, [], rest, false);
    if |payloads| == 1 {
      OneText(texts);
    } else {
      ReadLinesOfWords(charset, letter, payloads[1..], texts[1..], CRLF);
    }
  }
}
