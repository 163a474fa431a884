/** Reading header values, quoted names and phrases back. */
module NameReading {
  import opened Bytes
  import opened Utf8
  import opened LineBreaks
  import opened Folding
  import opened QEncoding
  import opened HeaderEncoding
  import opened EncodedText
  import opened HeaderWriter
  import opened HeaderParameter
  import Base64
  import QWrap

  /** What a receiver shows for a parameter: it takes off the quotes and decodes what looks like an encoded-word.
      (Standards ask for no decoding inside quotes; the writer relies on receivers that do it.) */
  function Received(parameter: bytes): Option<bytes> {
    match Unquote(parameter)
    case None => None
    case Some(v) => Some(ReadValue(v))
  }

  /** What a receiver shows for a phrase: a quoted one is taken out of its quotes, a bare one may hold encoded-words,
      section 5(3) of RFC 2047. */
  function ReadPhrase(p: bytes): Option<bytes> {
    if p != [] && p[0] == DQUOTE then Unescape(p[1..]) else Some(ReadValue(p))
  }

  // ----- what unquoting does to a value with backslashes -----

  /** The value a reader gets out of the quotes, where only quotes were escaped. */
  function Lost(s: bytes): Option<bytes>
    decreases |s|
  {
    if s == [] then Some([])
    else if s[0] == BACKSLASH then
      if |s| == 1 || s[1] == DQUOTE then None else Cons(s[1], Lost(s[2..]))
    else Cons(s[0], Lost(s[1..]))
  }

  function Cons(b: byte, r: Option<bytes>): Option<bytes> { Prepend([b], r) }

  function Prepend(a: bytes, r: Option<bytes>): Option<bytes> {
    match r
    case None => None
    case Some(t) => Some(a + t)
  }

  lemma {:induction false} UnescapeIsLost(s: bytes)
    ensures Unescape(Escape(s) + [DQUOTE]) == Lost(s)
    decreases |s|
  {
    if s != [] {
      EscapeTail(s);
      var e := Escape(s) + [DQUOTE];
      var rest := Escape(s[1..]) + [DQUOTE];
      if s[0] == DQUOTE {
        UnescapeIsLost(s[1..]);
        assert e[2..] == rest && e[1] == DQUOTE;
      } else if s[0] == BACKSLASH {
        LostBackslash(s, e, rest);
      } else {
        UnescapeIsLost(s[1..]);
        assert e[1..] == rest;
      }
    }
  }

  lemma {:induction false} LostBackslash(s: bytes, e: bytes, rest: bytes)
    requires s != [] && s[0] == BACKSLASH && rest == Escape(s[1..]) + [DQUOTE] && e == [BACKSLASH] + rest
    ensures Unescape(e) == Lost(s)
    decreases |s|, 0
  {
    if |s| == 1 {
      assert rest == [DQUOTE] && e[2..] == [];
    } else {
      var t := s[1..];
      EscapeTail(t);
      var more := Escape(t[1..]) + [DQUOTE];
      assert t[1..] == s[2..];
      if t[0] == DQUOTE {
        assert rest == [BACKSLASH, DQUOTE] + more;
        assert e[2..] == [DQUOTE] + more;
      } else {
        UnescapeIsLost(s[2..]);
        assert e[2..] == more;
      }
    }
  }

  predicate NoSlash(s: bytes) { BACKSLASH !in s }

  lemma {:induction false} PrependTwice(a: bytes, b: bytes, r: Option<bytes>)
    ensures Prepend(a, Prepend(b, r)) == Prepend(a + b, r)
  {
    if r.Some? {
      Assoc(a, b, r.value);
    }
  }

  lemma {:induction false} LostPlain(a: bytes, b: bytes)
    requires NoSlash(a)
    ensures Lost(a + b) == Prepend(a, Lost(b))
  {
    if a == [] {
      assert a + b == b;
      assert Lost(b).Some? ==> [] + Lost(b).value == Lost(b).value;
    } else {
      assert a[0] in a;
      LostPlain(a[1..], b);
      assert (a + b)[1..] == a[1..] + b && (a + b)[0] == a[0];
      assert [a[0]] + a[1..] == a;
      PrependTwice([a[0]], a[1..], Lost(b));
    }
  }

  /** What is left of a text written in Q form. */
  function Left(t: bytes): (r: Option<bytes>)
    ensures r.Some? ==> |r.value| <= |t|
    ensures r.Some? && BACKSLASH in t ==> |r.value| < |t|
    ensures r.Some? && OneLine(t) ==> OneLine(r.value)
    decreases |t|
  {
    if t == [] then Some([])
    else if t[0] == BACKSLASH then
      if |t| == 1 then Some([]) else if t[1] == DQUOTE then None else Cons(t[1], Left(t[2..]))
    else Cons(t[0], Left(t[1..]))
  }

  lemma {:induction false} TokenPlain(c: byte, rest: bytes)
    requires c != BACKSLASH
    ensures Lost(Token(c, Text) + rest) == Prepend(Token(c, Text), Lost(rest))
  {
    LostPlain(Token(c, Text), rest);
  }

  /** After a backslash the whole token of the next byte survives. */
  lemma {:induction false} TokenBehind(c: byte, rest: bytes)
    requires c != DQUOTE
    ensures Lost([BACKSLASH] + (Token(c, Text) + rest)) == Prepend(Token(c, Text), Lost(rest))
  {
    var t := Token(c, Text);
    var s := [BACKSLASH] + (t + rest);
    assert t[0] != DQUOTE;
    assert s[1] == t[0] && s[2..] == t[1..] + rest;
    LostPlain(t[1..], rest);
    assert [t[0]] + t[1..] == t;
    assert Lost(rest).Some? ==> [t[0]] + (t[1..] + Lost(rest).value) == t + Lost(rest).value;
  }

  lemma {:induction false} LostOfQ(t: bytes, rest: bytes)
    requires rest != [] && rest[0] == QUESTION
    ensures Lost(Q(t, Text) + rest) ==
      match Left(t) case None => None case Some(u) => Prepend(Q(u, Text), Lost(rest))
    decreases |t|
  {
    if t == [] {
      assert Q(t, Text) + rest == rest;
      assert Lost(rest).Some? ==> [] + Lost(rest).value == Lost(rest).value;
    } else if t[0] == BACKSLASH {
      LostOfSlash(t, rest);
    } else {
      var c, q := t[0], Q(t[1..], Text);
      LostOfQ(t[1..], rest);
      TokenPlain(c, q + rest);
      Assoc(Token(c, Text), q, rest);
      if Left(t[1..]).Some? {
        LeftHead(c, Left(t[1..]).value);
        PrependTwice(Token(c, Text), Q(Left(t[1..]).value, Text), Lost(rest));
      }
    }
  }

  lemma {:induction false} LeftHead(c: byte, u: bytes)
    ensures Q([c] + u, Text) == Token(c, Text) + Q(u, Text)
  {
    assert ([c] + u)[1..] == u;
  }

  lemma {:induction false} LostOfSlash(t: bytes, rest: bytes)
    requires t != [] && t[0] == BACKSLASH && rest != [] && rest[0] == QUESTION
    ensures Lost(Q(t, Text) + rest) ==
      match Left(t) case None => None case Some(u) => Prepend(Q(u, Text), Lost(rest))
    decreases |t|, 0
  {
    assert Token(BACKSLASH, Text) == [BACKSLASH];
    if |t| == 1 {
      assert t[1..] == [];
      assert Q(t, Text) == [BACKSLASH];
      var s := [BACKSLASH] + rest;
      assert s[1] == QUESTION && s[2..] == rest[1..];
      assert Lost(rest).Some? ==> [] + Lost(rest).value == Lost(rest).value;
    } else {
      var c, q := t[1], Q(t[2..], Text);
      assert t[1..][1..] == t[2..];
      assert Q(t, Text) == [BACKSLASH] + (Token(c, Text) + q);
      assert Q(t, Text) + rest == [BACKSLASH] + (Token(c, Text) + (q + rest));
      if c == DQUOTE {
        assert Token(c, Text) == [DQUOTE];
      } else {
        LostOfQ(t[2..], rest);
        TokenBehind(c, q + rest);
        if Left(t[2..]).Some? {
          LeftHead(c, Left(t[2..]).value);
          PrependTwice(Token(c, Text), Q(Left(t[2..]).value, Text), Lost(rest));
        }
      }
    }
  }

  // ----- whole values -----

  function QTexts(ts: seq<bytes>): (r: seq<bytes>)
    ensures |r| == |ts| && forall i :: 0 <= i < |r| ==> r[i] == Q(ts[i], Text)
  {
    seq(|ts|, i requires 0 <= i < |ts| => Q(ts[i], Text))
  }

  function LeftAll(ts: seq<bytes>): (r: Option<seq<bytes>>)
    ensures r.Some? ==> |r.value| == |ts|
  {
    if ts == [] then Some([])
    else match (Left(ts[0]), LeftAll(ts[1..]))
      case (Some(u), Some(us)) => Some([u] + us)
      case _ => None
  }

  lemma {:induction false} LeftAllLength(ts: seq<bytes>)
    requires LeftAll(ts).Some?
    ensures |Flatten(LeftAll(ts).value)| <= |Flatten(ts)|
    ensures (exists i :: 0 <= i < |ts| && BACKSLASH in ts[i]) ==> |Flatten(LeftAll(ts).value)| < |Flatten(ts)|
    ensures AllOneLine(ts) ==> AllOneLine(LeftAll(ts).value)
  {
    if ts != [] {
      LeftAllLength(ts[1..]);
      var us := LeftAll(ts).value;
      assert us[1..] == LeftAll(ts[1..]).value;
      if i :| 0 <= i < |ts| && BACKSLASH in ts[i] {
        assert i > 0 ==> BACKSLASH in ts[1..][i - 1];
      }
    }
  }

  /** One folded word in front of a rest, all unquoted. */
  lemma {:induction false} LostWord(charset: bytes, t: bytes, rest: bytes)
    requires NoSlash(charset)
    ensures Lost(FoldedWord(charset, LETTER_Q, Q(t, Text)) + rest) ==
      match Left(t)
      case None => None
      case Some(u) => Prepend(FoldedWord(charset, LETTER_Q, Q(u, Text)), Lost(rest))
  {
    var head := [SP, EQ, QUESTION] + charset + [QUESTION, LETTER_Q, QUESTION];
    var tail: bytes := [QUESTION, EQ];
    WordSplit(charset, Q(t, Text), head, tail);
    Assoc(head, Q(t, Text) + tail, rest);
    Assoc(Q(t, Text), tail, rest);
    assert NoSlash(head);
    LostPlain(head, Q(t, Text) + (tail + rest));
    LostOfQ(t, tail + rest);
    LostPlain(tail, rest);
    if Left(t).Some? {
      var q := Q(Left(t).value, Text);
      WordSplit(charset, q, head, tail);
      PrependTwice(q, tail, Lost(rest));
      PrependTwice(head, q + tail, Lost(rest));
    }
  }

  lemma {:induction false} WordSplit(charset: bytes, payload: bytes, head: bytes, tail: bytes)
    requires head == [SP, EQ, QUESTION] + charset + [QUESTION, LETTER_Q, QUESTION] && tail == [QUESTION, EQ]
    ensures FoldedWord(charset, LETTER_Q, payload) == head + (payload + tail)
  {
  }

  lemma {:induction false} LostWords(charset: bytes, ts: seq<bytes>)
    requires NoSlash(charset) && ts != []
    ensures Lost(Join(FoldedWords(charset, LETTER_Q, QTexts(ts)), CRLF)) ==
      match LeftAll(ts)
      case None => None
      case Some(us) => Some(Join(FoldedWords(charset, LETTER_Q, QTexts(us)), CRLF))
  {
    var ws := FoldedWords(charset, LETTER_Q, QTexts(ts));
    if |ts| == 1 {
      assert Join(ws, CRLF) == ws[0] == ws[0] + [];
      LostWord(charset, ts[0], []);
      assert ts[1..] == [] && LeftAll(ts[1..]) == Some([]);
      if Left(ts[0]).Some? {
        OneLeft(charset, ts);
      }
    } else {
      var more := Join(ws[1..], CRLF);
      assert ws[1..] == FoldedWords(charset, LETTER_Q, QTexts(ts[1..]));
      LostWords(charset, ts[1..]);
      Assoc(ws[0], CRLF, more);
      LostWord(charset, ts[0], CRLF + more);
      assert NoSlash(CRLF);
      LostPlain(CRLF, more);
      if Left(ts[0]).Some? && LeftAll(ts[1..]).Some? {
        ConsLeft(charset, Left(ts[0]).value, LeftAll(ts[1..]).value);
      }
    }
  }

  lemma {:induction false} OneLeft(charset: bytes, ts: seq<bytes>)
    requires |ts| == 1 && Left(ts[0]).Some?
    ensures LeftAll(ts) == Some([Left(ts[0]).value])
    ensures var w := FoldedWord(charset, LETTER_Q, Q(Left(ts[0]).value, Text));
      w + [] == Join(FoldedWords(charset, LETTER_Q, QTexts([Left(ts[0]).value])), CRLF)
  {
    assert ts[1..] == [] && LeftAll(ts[1..]) == Some([]);
    assert [Left(ts[0]).value] + [] == [Left(ts[0]).value];
  }

  lemma {:induction false} ConsLeft(charset: bytes, u: bytes, us: seq<bytes>)
    requires us != []
    ensures FoldedWord(charset, LETTER_Q, Q(u, Text)) + (CRLF + Join(FoldedWords(charset, LETTER_Q, QTexts(us)), CRLF))
      == Join(FoldedWords(charset, LETTER_Q, QTexts([u] + us)), CRLF)
  {
    var all := FoldedWords(charset, LETTER_Q, QTexts([u] + us));
    assert all[1..] == FoldedWords(charset, LETTER_Q, QTexts(us));
    assert all[0] == FoldedWord(charset, LETTER_Q, Q(u, Text));
    Assoc(all[0], CRLF, Join(all[1..], CRLF));
  }

  // ----- when a name reads back -----

  lemma {:induction false} QSlash(t: bytes)
    ensures BACKSLASH in Q(t, Text) ==> BACKSLASH in t
  {
    if t != [] {
      QSlash(t[1..]);
      assert t[0] != BACKSLASH ==> NoSlash(Token(t[0], Text));
      assert Q(t, Text) == Token(t[0], Text) + Q(t[1..], Text);
    }
  }

  lemma {:induction false} WordsSlash(charset: bytes, ts: seq<bytes>)
    requires NoSlash(charset)
    requires BACKSLASH in Join(FoldedWords(charset, LETTER_Q, QTexts(ts)), CRLF)
    ensures exists i :: 0 <= i < |ts| && BACKSLASH in ts[i]
  {
    var ws := FoldedWords(charset, LETTER_Q, QTexts(ts));
    if ts != [] {
      QSlash(ts[0]);
      assert BACKSLASH in ws[0] ==> BACKSLASH in Q(ts[0], Text);
      if |ts| > 1 && BACKSLASH !in ws[0] {
        var more := Join(ws[1..], CRLF);
        assert Join(ws, CRLF) == ws[0] + CRLF + more;
        assert BACKSLASH in more;
        assert ws[1..] == FoldedWords(charset, LETTER_Q, QTexts(ts[1..]));
        WordsSlash(charset, ts[1..]);
        var i :| 0 <= i < |ts[1..]| && BACKSLASH in ts[1..][i];
        assert BACKSLASH in ts[i + 1];
      } else {
        assert BACKSLASH in ws[0];
      }
    }
  }

  lemma {:induction false} PiecesOneLine(ts: seq<bytes>)
    requires OneLine(Flatten(ts))
    ensures AllOneLine(ts)
  {
    if ts != [] {
      var a, b := ts[0], Flatten(ts[1..]);
      assert forall i :: 0 <= i < |a| ==> (a + b)[i] == a[i];
      assert forall i :: 0 <= i < |b| ==> (a + b)[|a| + i] == b[i];
      PiecesOneLine(ts[1..]);
    }
  }

  lemma {:induction false} QDecoding(ts: seq<bytes>, payloads: seq<bytes>, pos: Position)
    requires AllOneLine(ts) && |payloads| == |ts| && forall i :: 0 <= i < |ts| ==> payloads[i] == Q(ts[i], pos)
    ensures Decoding(LETTER_Q, payloads, ts)
  {
    forall i | 0 <= i < |ts| ensures SafePayload(payloads[i]) && DecodePayload(LETTER_Q, payloads[i]) == Some(ts[i]) {
      QAlphabet(ts[i], pos);
      QDecodeQ(ts[i], pos);
    }
  }

  lemma {:induction false} QTextsRead(charset: bytes, us: seq<bytes>, value: bytes)
    requires SafePayload(charset) && AllOneLine(us) && us != []
    requires [SP] + value == Join(FoldedWords(charset, LETTER_Q, QTexts(us)), CRLF)
    ensures ReadValue(value) == Flatten(us)
  {
    QDecoding(us, QTexts(us), Text);
    hide *;
    LettersShow();
    WordsRead(charset, LETTER_Q, QTexts(us), us, value);
  }

  lemma {:induction false} LettersShow()
    ensures !IsBlank(LETTER_Q) && !IsBlank(LETTER_B)
  {
  }

  lemma {:induction false} FirstByte(ws: seq<bytes>)
    requires ws != [] && ws[0] != []
    ensures Join(ws, CRLF) != [] && Join(ws, CRLF)[0] == ws[0][0]
  {
  }

  /** A value made of Q words, as its lines. */
  lemma {:induction false} QValueTexts(value: bytes, charset: bytes, pos: Position, str: bytes)
    returns (ts: seq<bytes>, payloads: seq<bytes>)
    requires MadeOfQ(value, charset, pos, str)
    ensures ts != [] && Flatten(ts) == str && |payloads| == |ts|
    ensures forall i :: 0 <= i < |ts| ==> payloads[i] == Q(ts[i], pos)
    ensures [SP] + value == Join(FoldedWords(charset, LETTER_Q, payloads), CRLF)
  {
    var groups :| QValue(value, charset, pos, str, groups);
    ts, payloads := GroupBytes(groups), QWrap.GroupTexts(groups, pos);
    FlattenGroups(groups);
    JoinOfLines([SP] + value);
  }

  lemma {:induction false} QValueReads(value: bytes, charset: bytes, pos: Position, str: bytes)
    requires MadeOfQ(value, charset, pos, str) && OneLine(str) && SafePayload(charset)
    ensures ReadValue(value) == str
  {
    var ts, payloads := QValueTexts(value, charset, pos, str);
    PiecesOneLine(ts);
    QDecoding(ts, payloads, pos);
    hide *;
    LettersShow();
    WordsRead(charset, LETTER_Q, payloads, ts, value);
  }

  lemma {:induction false} SlashInFlatten(ts: seq<bytes>)
    ensures BACKSLASH in Flatten(ts) <==> exists i :: 0 <= i < |ts| && BACKSLASH in ts[i]
  {
    if ts != [] {
      SlashInFlatten(ts[1..]);
      assert forall i :: 0 <= i < |ts[1..]| ==> ts[1..][i] == ts[i + 1];
      if i :| 0 <= i < |ts| && BACKSLASH in ts[i] {
        assert i > 0 ==> BACKSLASH in ts[1..][i - 1];
      }
    }
  }

  /** Q text keeps every backslash. */
  lemma {:induction false} QKeepsSlash(t: bytes)
    requires BACKSLASH in t
    ensures BACKSLASH in Q(t, Text)
  {
    assert Q(t, Text) == Token(t[0], Text) + Q(t[1..], Text);
    if t[0] == BACKSLASH {
      assert Token(BACKSLASH, Text)[0] == BACKSLASH;
      assert BACKSLASH in Token(t[0], Text);
    } else {
      assert t == [t[0]] + t[1..];
      QKeepsSlash(t[1..]);
    }
  }

  lemma {:induction false} WordsKeepSlash(charset: bytes, ts: seq<bytes>, i: nat)
    requires i < |ts| && BACKSLASH in ts[i]
    ensures BACKSLASH in Join(FoldedWords(charset, LETTER_Q, QTexts(ts)), CRLF)
  {
    var ws := FoldedWords(charset, LETTER_Q, QTexts(ts));
    if i == 0 {
      QKeepsSlash(ts[0]);
      var p := Q(ts[0], Text);
      var head := [SP, EQ, QUESTION] + charset + [QUESTION, LETTER_Q, QUESTION];
      WordSplit(charset, p, head, [QUESTION, EQ]);
      assert BACKSLASH in p + [QUESTION, EQ];
      assert BACKSLASH in ws[0];
    } else {
      assert ws[1..] == FoldedWords(charset, LETTER_Q, QTexts(ts[1..]));
      WordsKeepSlash(charset, ts[1..], i - 1);
    }
  }

  /** The value holds a backslash exactly when the text does, and it starts with an equals sign. */
  lemma {:induction false} QValueSlashIff(value: bytes, charset: bytes, str: bytes)
    requires MadeOfQ(value, charset, Text, str) && NoSlash(charset)
    ensures BACKSLASH in value <==> BACKSLASH in str
    ensures NeedsQuotes(value)
  {
    var ts, payloads := QValueTexts(value, charset, Text, str);
    assert payloads == QTexts(ts);
    SlashInFlatten(ts);
    var t := [SP] + value;
    assert BACKSLASH in value <==> BACKSLASH in t;
    if BACKSLASH in t {
      WordsSlash(charset, ts);
    }
    if i :| 0 <= i < |ts| && BACKSLASH in ts[i] {
      WordsKeepSlash(charset, ts, i);
    }
    WordsNeedQuotes(value, charset, LETTER_Q, payloads);
  }

  lemma {:induction false} WordsNeedQuotes(value: bytes, charset: bytes, letter: byte, payloads: seq<bytes>)
    requires payloads != [] && [SP] + value == Join(FoldedWords(charset, letter, payloads), CRLF)
    ensures NeedsQuotes(value)
  {
    var ws := FoldedWords(charset, letter, payloads);
    SecondByte(ws);
    assert value[0] == ([SP] + value)[1] == EQ;
    assert Special(value[0]);
  }

  lemma {:induction false} SecondByte(ws: seq<bytes>)
    requires ws != [] && |ws[0]| > 1
    ensures |Join(ws, CRLF)| > 1 && Join(ws, CRLF)[1] == ws[0][1]
  {
  }

  /** A backslash in a value made of Q words costs the reader at least that byte. */
  lemma {:induction false} QValueLoses(value: bytes, charset: bytes, str: bytes)
    requires MadeOfQ(value, charset, Text, str) && OneLine(str) && NoSlash(charset) && SafePayload(charset)
    requires BACKSLASH in value
    ensures match Lost(value) case None => true case Some(v) => |ReadValue(v)| < |str|
  {
    var ts, payloads := QValueTexts(value, charset, Text, str);
    assert payloads == QTexts(ts);
    assert BACKSLASH in [SP] + value;
    WordsSlash(charset, ts);
    PiecesOneLine(ts);
    LostWords(charset, ts);
    assert NoSlash([SP]);
    LostPlain([SP], value);
    if Lost(value).Some? {
      LeftAllLength(ts);
      hide Lost, QTexts, FoldedWords, Join, LeftAll, SafePayload;
      QTextsRead(charset, LeftAll(ts).value, Lost(value).value);
    }
  }

  /** A value made of base64 words reads back and holds no backslash. */
  lemma {:induction false} BValueReads(value: bytes, charset: bytes, str: bytes)
    requires MadeOfB(value, charset, str) && SafePayload(charset)
    ensures ReadValue(value) == str
  {
    var texts :| BValue(value, charset, str, texts);
    var codes := Codes(texts);
    forall i | 0 <= i < |texts| ensures SafePayload(codes[i]) && DecodePayload(LETTER_B, codes[i]) == Some(texts[i]) {
      BPayload(texts[i]);
    }
    assert CrlfLines([SP] + value) == FoldedWords(charset, LETTER_B, codes);
    JoinOfLines([SP] + value);
    LettersShow();
    assert Decoding(LETTER_B, codes, texts);
    hide *;
    WordsRead(charset, LETTER_B, codes, texts, value);
  }

  function Codes(texts: seq<bytes>): (r: seq<bytes>)
    ensures |r| == |texts| && forall i :: 0 <= i < |r| ==> r[i] == Base64.Encode(texts[i])
  {
    seq(|texts|, i requires 0 <= i < |texts| => Base64.Encode(texts[i]))
  }

  lemma {:induction false} BValuePlain(value: bytes, charset: bytes, str: bytes)
    requires MadeOfB(value, charset, str) && NoSlash(charset)
    ensures NoSlash(value)
  {
    var texts :| BValue(value, charset, str, texts);
    var ws := CrlfLines([SP] + value);
    forall i | 0 <= i < |ws| ensures NoSlash(ws[i]) {
      Base64.EncodeAlphabet(texts[i]);
      BWordPlain(charset, Base64.Encode(texts[i]));
    }
    JoinOfLines([SP] + value);
    JoinPlain(ws);
    assert value == ([SP] + value)[1..];
  }

  lemma {:induction false} BWordPlain(charset: bytes, code: bytes)
    requires NoSlash(charset) && forall i :: 0 <= i < |code| ==> code[i] != BACKSLASH
    ensures NoSlash(FoldedWord(charset, LETTER_B, code))
  {
  }

  lemma {:induction false} JoinPlain(ws: seq<bytes>)
    requires forall i :: 0 <= i < |ws| ==> NoSlash(ws[i])
    ensures NoSlash(Join(ws, CRLF))
  {
    if |ws| > 1 {
      JoinPlain(ws[1..]);
    }
  }

  lemma {:induction false} LabelPlain(cfg: Settings, str: bytes)
    requires Encodable(cfg)
    ensures NoSlash(Label(cfg, str)) && SafePayload(Label(cfg, str))
  {
    LabelSafe(cfg, str);
  }

  lemma {:induction false} QuotedReads(value: bytes)
    requires NeedsQuotes(value)
    ensures Unquote(QuotedString(value)) == Lost(value)
  {
    UnescapeIsLost(value);
    assert QuotedString(value)[1..] == Escape(value) + [DQUOTE];
  }

  lemma {:induction false} LostShorter(s: bytes)
    ensures Lost(s).Some? ==> |Lost(s).value| <= |s|
    ensures Lost(s).Some? && BACKSLASH in s ==> |Lost(s).value| < |s|
    decreases |s|
  {
    if s != [] {
      assert s == [s[0]] + s[1..];
      if s[0] != BACKSLASH {
        LostShorter(s[1..]);
      } else if |s| > 1 {
        LostShorter(s[2..]);
      }
    }
  }

  /** The condition on a name: always in base64; without a backslash in Q words; and left plain, when no word of it looks
      like an encoded-word and it needs no quotes or holds no backslash. */
  predicate ReadsBack(cfg: Settings, str: bytes) {
    match ChosenBranch(cfg, str, Text)
    case EncodeB => true
    case EncodeQ => BACKSLASH !in str
    case _ => !HasWord(str) && (!NeedsQuotes(str) || BACKSLASH !in str)
  }

  lemma {:induction false} PlainNameIff(str: bytes)
    ensures Received(QuotedString(str)) == Some(str) <==> !HasWord(str) && (!NeedsQuotes(str) || BACKSLASH !in str)
  {
    QuotedStringReadsBackIff(str);
    PlainReadsIff(str);
    if NeedsQuotes(str) && BACKSLASH in str {
      QuotedReads(str);
      LostShorter(str);
      if Lost(str).Some? {
        ReadShorter(Lost(str).value, false);
      }
    }
  }

  lemma {:induction false} BNameReads(value: bytes, charset: bytes, str: bytes)
    requires MadeOfB(value, charset, str) && SafePayload(charset) && NoSlash(charset)
    ensures Received(QuotedString(value)) == Some(str)
  {
    BValuePlain(value, charset, str);
    BValueReads(value, charset, str);
    QuotedStringReadsBackIff(value);
  }

  lemma {:induction false} QNameIff(value: bytes, charset: bytes, str: bytes)
    requires MadeOfQ(value, charset, Text, str) && OneLine(str) && SafePayload(charset) && NoSlash(charset)
    ensures Received(QuotedString(value)) == Some(str) <==> BACKSLASH !in str
  {
    QValueSlashIff(value, charset, str);
    if BACKSLASH in str {
      QValueLoses(value, charset, str);
      QuotedReads(value);
    } else {
      QuotedStringReadsBackIff(value);
      QValueReads(value, charset, Text, str);
    }
  }

  /** A receiver of the parameter gets the name back exactly under that condition, which can be checked before writing. */
  lemma {:induction false} NameReadsBackIff(cfg: Settings, name: bytes, value: bytes)
    requires Encodable(cfg) && IsSecured(cfg, name, value)
    ensures var str := SecureHeader(name); Received(QuotedString(value)) == Some(str) <==> ReadsBack(cfg, str)
  {
    var str := SecureHeader(name);
    SecuredOneLine(name);
    NoBreaksOfOneLine(str);
    LabelPlain(cfg, str);
    SecuredValue(cfg, name, value);
    hide Represents, MadeOfB, MadeOfQ, LinesWithin, Received, SafePayload, NoSlash, MatchCount, Label, HasWord;
    match ChosenBranch(cfg, str, Text)
    case EncodeB => BNameReads(value, Label(cfg, str), str);
    case EncodeQ => QNameIff(value, Label(cfg, str), str);
    case _ => PlainNameIff(str);
  }

  lemma {:induction false} SecuredOneLine(name: bytes)
    ensures OneLine(SecureHeader(name))
  {
    StripBreaksIsNoBreaks(name);
    TrimOneLine(NoBreaks(name));
  }

  // ----- header values in general -----

  /** What the encoder means to keep of a text. */
  function Kept(cfg: Settings, str: bytes, pos: Position): bytes {
    match ChosenBranch(cfg, str, pos)
    case Raw => Trim(Join(Segments(str), CRLF))
    case EncodeQ => NoBreaks(str)
    case _ => str
  }

  /** Reading a written value gives back what was kept, unless it was left plain and a word of it looks like an
      encoded-word. */
  lemma {:induction false} HeaderReadsBackIff(cfg: Settings, str: bytes, pos: Position, value: bytes)
    requires Encodable(cfg) && Encodes(cfg, str, pos, value) && ChosenBranch(cfg, str, pos) != Quoted
    ensures ReadValue(value) == Kept(cfg, str, pos)
      <==> InWords(ChosenBranch(cfg, str, pos)) || !HasWord(Kept(cfg, str, pos))
  {
    LabelPlain(cfg, str);
    PlainReadsIff(value);
    hide Represents, MadeOfB, MadeOfQ, LinesWithin, ReadValue, SafePayload, NoSlash, MatchCount, Label, HasWord;
    match ChosenBranch(cfg, str, pos)
    case EncodeB => BValueReads(value, Label(cfg, str), str);
    case EncodeQ => QValueReads(value, Label(cfg, str), pos, NoBreaks(str));
    case _ =>
  }

  // ----- phrases -----

  predicate NoControl(s: bytes) { forall i :: 0 <= i < |s| ==> !Control(s[i]) }

  predicate AllAtoms(s: bytes) { forall i :: 0 <= i < |s| ==> AtomByte(s[i]) }

  lemma {:induction false} AtomsUnchanged(s: bytes)
    requires AllAtoms(s)
    ensures AddCSlashes(s) == s
  {
    if s != [] {
      assert AtomByte(s[0]);
      AtomsUnchanged(s[1..]);
      assert s == [s[0]] + s[1..];
    }
  }

  lemma {:induction false} BarePhrase(s: bytes)
    requires AllAtoms(s)
    ensures QuotedPhrase(s) == s && NoControl(s) && ReadPhrase(s) == Some(ReadValue(s))
  {
    AtomsUnchanged(s);
    hide ReadValue, AddCSlashes;
  }

  lemma {:induction false} PhraseInQuotes(s: bytes)
    requires !AllAtoms(s)
    ensures ReadPhrase(QuotedPhrase(s)) == Some(SeenAll(s))
  {
    SlashesRead(s);
    hide AddCSlashes, Unescape, SeenAll, AtomByte;
    assert QuotedPhrase(s) == [DQUOTE] + AddCSlashes(s) + [DQUOTE];
    assert QuotedPhrase(s)[1..] == AddCSlashes(s) + [DQUOTE];
  }

  /** A phrase in plain ASCII reads back exactly when it holds no control byte (those are written as C escapes, which a
      receiver takes for the characters they are spelled with) and, where it is written bare, no word of it looks like
      an encoded-word. */
  lemma {:induction false} PhraseReadsBackIff(s: bytes)
    ensures ReadPhrase(QuotedPhrase(s)) == Some(s) <==> NoControl(s) && (AllAtoms(s) ==> !HasWord(s))
  {
    hide ReadPhrase, QuotedPhrase, AllAtoms, HasWord, ReadValue;
    if AllAtoms(s) {
      BarePhrase(s);
      PlainReadsIff(s);
    } else {
      SeenIff(s);
      PhraseInQuotes(s);
    }
  }

  // ----- concrete inputs -----

  /** A phrase with a tab inside does not read back. */
  lemma {:induction false} TabIsSpelledOut(s: bytes)
    requires s == [97, TAB, 98]
    ensures ReadPhrase(QuotedPhrase(s)) != Some(s)
  {
    assert Control(s[1]);
    PhraseReadsBackIff(s);
  }

  /** The text `=?x?Q?A?=` is an encoded-word to its reader. */
  lemma {:induction false} LookalikeWord(s: bytes)
    requires s == MakeWord([120], LETTER_Q, [65])
    ensures HasWord(s) && ReadValue(s) == [65]
  {
    LettersShow();
    OneLetter();
    Spelled(s);
    assert Decoding(LETTER_Q, [[65]], [[65]]);
    var ws := FoldedWords([120], LETTER_Q, [[65]]);
    assert ws == [[SP] + s];
    assert [SP] + s == Join(ws, CRLF);
    WordsRead([120], LETTER_Q, [[65]], [[65]], s);
    assert Flatten([[65]]) == [65] + Flatten([[65]][1..]);
    ReadShorter(s, false);
  }

  lemma {:induction false} OneLetter()
    ensures SafePayload([120]) && SafePayload([65]) && DecodePayload(LETTER_Q, [65]) == Some([65])
  {
    var a: bytes := [65];
    assert a[1..] == [];
    assert QDecode(a[1..]) == Some([]);
    assert [a[0]] + [] == a;
    assert QDecode(a) == Some(a);
  }

  lemma {:induction false} Spelled(s: bytes)
    requires s == MakeWord([120], LETTER_Q, [65])
    ensures s == [EQ, QUESTION, 120, QUESTION, LETTER_Q, QUESTION, 65, QUESTION, EQ]
  {
  }

  lemma {:induction false} LookalikeBytes(s: bytes)
    requires s == MakeWord([120], LETTER_Q, [65])
    ensures |s| == 9 && AllAtoms(s) && OneLine(s) && !IsTrimmed(s[0]) && !IsTrimmed(s[8])
    ensures !Has8Bit(s) && forall i :: 0 <= i < |s| ==> !Counted(s[i], Text)
  {
    Spelled(s);
    hide MakeWord;
    forall i | 0 <= i < |s| ensures AtomByte(s[i]) && !IsBreak(s[i]) && s[i] < 128 && !Counted(s[i], Text) {
      assert s[i] == EQ || s[i] == QUESTION || s[i] == 120 || s[i] == LETTER_Q || s[i] == 65;
    }
  }

  /** As a phrase, it reads back as the single letter it spells. */
  lemma {:induction false} LookalikePhrase(s: bytes)
    requires s == MakeWord([120], LETTER_Q, [65])
    ensures ReadPhrase(QuotedPhrase(s)) != Some(s)
  {
    LookalikeWord(s);
    LookalikeBytes(s);
    hide *;
    PhraseReadsBackIff(s);
  }

  lemma {:induction false} NothingCounted(s: bytes, pos: Position)
    requires forall i :: 0 <= i < |s| ==> !Counted(s[i], pos)
    ensures MatchCount(s, pos) == 0
  {
    if s != [] {
      NothingCounted(s[1..], pos);
    }
  }

  lemma {:induction false} SecureKeeps(s: bytes)
    requires OneLine(s) && s != [] && !IsTrimmed(s[0]) && !IsTrimmed(s[|s| - 1])
    ensures SecureHeader(s) == s
  {
    StripBreaksIsNoBreaks(s);
    NoBreaksOfOneLine(s);
  }

  lemma {:induction false} LookalikeIsPlain(cfg: Settings, s: bytes)
    requires Encodable(cfg) && s == MakeWord([120], LETTER_Q, [65])
    ensures !InWords(ChosenBranch(cfg, s, Text))
  {
    LookalikeBytes(s);
    NothingCounted(s, Text);
    LabelSafe(cfg, s);
    hide MakeWord, Counted, Label, Has8Bit;
  }

  /** As an attachment's name, in any mailer, it does not read back either. */
  lemma {:induction false} LookalikeName(cfg: Settings, name: bytes, value: bytes)
    requires Encodable(cfg) && IsSecured(cfg, name, value) && name == MakeWord([120], LETTER_Q, [65])
    ensures Received(QuotedString(value)) != Some(name)
  {
    LookalikeBytes(name);
    SecureKeeps(name);
    LookalikeWord(name);
    LookalikeIsPlain(cfg, name);
    hide MakeWord, Received, HasWord, IsSecured, ChosenBranch, Encodable, NeedsQuotes, ReadValue, AllAtoms, OneLine;
    NameReadsBackIff(cfg, name, value);
  }
}
