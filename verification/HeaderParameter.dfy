/** Header parameters: `quotedString(encodeHeader(secureHeader($name)))`, the form of an attachment's file name. */
module HeaderParameter {
  import opened Bytes
  import opened Utf8
  import opened LineBreaks
  import opened QEncoding
  import opened HeaderEncoding
  import opened HeaderWriter
  import opened Folding

  const DQUOTE: byte := 34
  const BACKSLASH: byte := 92

  predicate Special(b: byte) {
    b == SP || b == 40 || b == 41 || b == 60 || b == 62 || b == 64 || b == 44 || b == 59 || b == 58 || b == DQUOTE
    || b == 47 || b == 91 || b == 93 || b == QUESTION || b == EQ
  }

  predicate NeedsQuotes(s: bytes) { exists i :: 0 <= i < |s| && Special(s[i]) }

  /** `str_replace('"', '\\"', $str)`. */
  function Escape(s: bytes): (r: bytes)
    ensures |r| >= |s|
    ensures s != [] && s[0] != DQUOTE ==> r != [] && r[0] == s[0]
    ensures OneLine(s) ==> OneLine(r)
  {
    if s == [] then [] else (if s[0] == DQUOTE then [BACKSLASH, DQUOTE] else [s[0]]) + Escape(s[1..])
  }

  function QuotedString(s: bytes): bytes {
    if NeedsQuotes(s) then [DQUOTE] + (Escape(s) + [DQUOTE]) else s
  }

  /** A value is put between quotes exactly when it holds a blank or a mark that would end a token. */
  lemma {:induction false} QuotedIff(s: bytes)
    ensures var special := {32, 34, 40, 41, 44, 47, 58, 59, 60, 61, 62, 63, 64, 91, 93};
      if exists i :: 0 <= i < |s| && s[i] in special
      then |QuotedString(s)| >= 2 && QuotedString(s)[0] == 34 && QuotedString(s)[|QuotedString(s)| - 1] == 34
      else QuotedString(s) == s
  {
    var special: set<int> := {32, 34, 40, 41, 44, 47, 58, 59, 60, 61, 62, 63, 64, 91, 93};
    assert forall b: byte :: Special(b) <==> b in special;
    hide Special, Escape;
    assert NeedsQuotes(s) <==> exists i :: 0 <= i < |s| && s[i] in special;
  }

  // ----- reading a parameter value, section 3.2.4 of RFC 5322 -----

  /** Up to the closing quote, which must be the last byte; a backslash stands for the byte behind it. */
  function Unescape(t: bytes): Option<bytes>
    decreases |t|
  {
    if t == [] then None
    else if t[0] == DQUOTE then (if |t| == 1 then Some([]) else None)
    else if t[0] == BACKSLASH then
      if |t| == 1 then None
      else match Unescape(t[2..])
        case Some(r) => Some([t[1]] + r)
        case None => None
    else match Unescape(t[1..])
      case Some(r) => Some([t[0]] + r)
      case None => None
  }

  function Unquote(p: bytes): Option<bytes> {
    if p != [] && p[0] == DQUOTE then Unescape(p[1..]) else Some(p)
  }

  lemma {:induction false} EscapeTail(s: bytes)
    requires s != []
    ensures var e := Escape(s) + [DQUOTE]; var rest := Escape(s[1..]) + [DQUOTE];
      e == (if s[0] == DQUOTE then [BACKSLASH, DQUOTE] else [s[0]]) + rest
  {
  }

  lemma {:induction false} UnescapeShorter(s: bytes)
    ensures var r := Unescape(Escape(s) + [DQUOTE]); r.Some? ==> |r.value| <= |s|
    decreases |s|, 1
  {
    if s != [] {
      EscapeTail(s);
      var e := Escape(s) + [DQUOTE];
      if s[0] == DQUOTE {
        assert e[2..] == Escape(s[1..]) + [DQUOTE];
        UnescapeShorter(s[1..]);
      } else if s[0] == BACKSLASH {
        UnescapeBackslash(s);
      } else {
        assert e[1..] == Escape(s[1..]) + [DQUOTE];
        UnescapeShorter(s[1..]);
      }
    }
  }

  /** A backslash of the value itself swallows the byte behind it, so something is lost. */
  lemma {:induction false} UnescapeBackslash(s: bytes)
    requires s != [] && s[0] == BACKSLASH
    ensures var r := Unescape(Escape(s) + [DQUOTE]); r.Some? ==> |r.value| < |s|
    decreases |s|, 0
  {
    var e := Escape(s) + [DQUOTE];
    EscapeTail(s);
    if |s| == 1 {
      assert e == [BACKSLASH, DQUOTE];
      assert e[2..] == [];
    } else {
      var t := s[1..];
      EscapeTail(t);
      var rest := Escape(t[1..]) + [DQUOTE];
      if t[0] == DQUOTE {
        assert e[2..] == [DQUOTE] + rest;
      } else {
        assert e[2..] == rest;
        UnescapeShorter(t[1..]);
      }
    }
  }

  lemma {:induction false} UnescapeIff(s: bytes)
    ensures Unescape(Escape(s) + [DQUOTE]) == Some(s) <==> BACKSLASH !in s
  {
    if s != [] {
      EscapeTail(s);
      var e := Escape(s) + [DQUOTE];
      var rest := Escape(s[1..]) + [DQUOTE];
      UnescapeIff(s[1..]);
      assert s == [s[0]] + s[1..];
      if s[0] == DQUOTE {
        assert e[2..] == rest && e[1] == DQUOTE;
      } else if s[0] == BACKSLASH {
        UnescapeBackslash(s);
      } else {
        assert e[1..] == rest;
      }
    }
  }

  /** A quoted value reads back exactly when it was not quoted or holds no backslash: only quotes are escaped. */
  lemma {:induction false} QuotedStringReadsBackIff(s: bytes)
    ensures Unquote(QuotedString(s)) == Some(s) <==> !NeedsQuotes(s) || BACKSLASH !in s
  {
    if NeedsQuotes(s) {
      assert QuotedString(s)[1..] == Escape(s) + [DQUOTE];
      UnescapeIff(s);
    }
  }

  /** A name with a blank and a backslash does not read back. */
  lemma {:induction false} BackslashIsLost(s: bytes)
    requires s == [97, SP, BACKSLASH, 98]
    ensures Unquote(QuotedString(s)) != Some(s)
  {
    assert Special(s[1]) && s[2] == BACKSLASH;
    QuotedStringReadsBackIff(s);
  }

  // ----- quoted phrases -----

  predicate Control(b: byte) { b < 32 || b == 127 }

  /** What a reader of the quoted string sees for a byte written by `addcslashes`. */
  function Seen(b: byte): (r: bytes)
    ensures r != [] && (forall i :: 0 <= i < |r| ==> !Control(r[i]))
    ensures !Control(b) ==> r == [b]
  {
    if 7 <= b <= 13 then [Letter(b)]
    else if Control(b) then [48 + b / 64, 48 + b / 8 % 8, 48 + b % 8]
    else [b]
  }

  function Letter(b: byte): (c: byte)
    requires 7 <= b <= 13
    ensures 97 <= c <= 122 && c == Ascii("abtnvfr")[b - 7]
  {
    Ascii("abtnvfr")[b - 7]
  }

  function SeenAll(s: bytes): (r: bytes)
    ensures forall i :: 0 <= i < |r| ==> !Control(r[i])
  {
    if s == [] then [] else Seen(s[0]) + SeenAll(s[1..])
  }

  lemma {:induction false} UnescapePair(c: byte, rest: bytes)
    requires Unescape(rest).Some?
    ensures Unescape([BACKSLASH, c] + rest) == Some([c] + Unescape(rest).value)
  {
    assert ([BACKSLASH, c] + rest)[2..] == rest;
  }

  lemma {:induction false} UnescapePlain(c: byte, rest: bytes)
    requires c != DQUOTE && c != BACKSLASH && Unescape(rest).Some?
    ensures Unescape([c] + rest) == Some([c] + Unescape(rest).value)
  {
    assert ([c] + rest)[1..] == rest;
  }

  lemma {:induction false} UnescapeOctal(a: byte, b: byte, c: byte, rest: bytes)
    requires b != DQUOTE && b != BACKSLASH && c != DQUOTE && c != BACKSLASH && Unescape(rest).Some?
    ensures Unescape([BACKSLASH, a, b, c] + rest) == Some([a, b, c] + Unescape(rest).value)
  {
    hide Unescape;
    UnescapePlain(c, rest);
    UnescapePlain(b, [c] + rest);
    UnescapePair(a, [b] + ([c] + rest));
    assert [BACKSLASH, a, b, c] + rest == [BACKSLASH, a] + ([b] + ([c] + rest));
    assert [a] + ([b] + ([c] + Unescape(rest).value)) == [a, b, c] + Unescape(rest).value;
  }

  /** A control byte is written as its C escape letter or in three octal digits. */
  lemma {:induction false} ControlIsSpelled(b: byte)
    requires b < 32 || b == 127
    ensures var q := AddCSlashes([b]); var letters := [97, 98, 116, 110, 118, 102, 114];
      if 7 <= b <= 13 then q == [92, letters[b - 7]]
      else
        && |q| == 4 && q[0] == 92 && 48 <= q[1] <= 55 && 48 <= q[2] <= 55 && 48 <= q[3] <= 55
        && b == 64 * (q[1] - 48) + 8 * (q[2] - 48) + (q[3] - 48)
  {
    assert [b][1..] == [];
    assert AddCSlashes([]) == [];
  }

  lemma {:induction false} SlashesRead(s: bytes)
    ensures Unescape(AddCSlashes(s) + [DQUOTE]) == Some(SeenAll(s))
  {
    if s != [] {
      var b, rest := s[0], AddCSlashes(s[1..]) + [DQUOTE];
      SlashesRead(s[1..]);
      if 7 <= b <= 13 {
        UnescapePair(Letter(b), rest);
        assert AddCSlashes(s) + [DQUOTE] == [BACKSLASH, Letter(b)] + rest;
      } else if Control(b) {
        UnescapeOctal(48 + b / 64, 48 + b / 8 % 8, 48 + b % 8, rest);
        assert AddCSlashes(s) + [DQUOTE] == [BACKSLASH, 48 + b / 64, 48 + b / 8 % 8, 48 + b % 8] + rest;
      } else if b == BACKSLASH || b == DQUOTE {
        UnescapePair(b, rest);
        assert AddCSlashes(s) + [DQUOTE] == [BACKSLASH, b] + rest;
      } else {
        assert AddCSlashes(s) + [DQUOTE] == [b] + rest;
      }
    }
  }

  lemma {:induction false} SeenIff(s: bytes)
    ensures SeenAll(s) == s <==> forall i :: 0 <= i < |s| ==> !Control(s[i])
  {
    if forall i :: 0 <= i < |s| ==> !Control(s[i]) {
      SeenPlain(s);
    }
  }

  lemma {:induction false} SeenPlain(s: bytes)
    requires forall i :: 0 <= i < |s| ==> !Control(s[i])
    ensures SeenAll(s) == s
  {
    if s != [] {
      SeenPlain(s[1..]);
      assert s == [s[0]] + s[1..];
    }
  }

  // ----- quoting keeps a folded value well folded -----

  lemma {:induction false} EscapeConcat(a: bytes, b: bytes)
    ensures Escape(a + b) == Escape(a) + Escape(b)
  {
    if a == [] {
      assert a + b == b;
    } else {
      assert (a + b)[1..] == a[1..] + b;
      EscapeConcat(a[1..], b);
    }
  }

  function EscapedLines(lines: seq<bytes>): (r: seq<bytes>)
    ensures |r| == |lines| && forall i :: 0 <= i < |r| ==> r[i] == Escape(lines[i])
  {
    seq(|lines|, i requires 0 <= i < |lines| => Escape(lines[i]))
  }

  lemma {:induction false} EscapeBreak()
    ensures Escape(CRLF) == CRLF
  {
    assert CRLF[1..] == [LF] && [LF][1..] == [];
    assert Escape([LF]) == [LF] + Escape([]);
  }

  lemma {:induction false} EscapeOfJoin(lines: seq<bytes>)
    ensures Escape(Join(lines, CRLF)) == Join(EscapedLines(lines), CRLF)
  {
    if |lines| > 1 {
      var rest := Join(lines[1..], CRLF);
      EscapeOfJoin(lines[1..]);
      EscapeBreak();
      EscapeConcat(lines[0] + CRLF, rest);
      EscapeConcat(lines[0], CRLF);
      assert EscapedLines(lines)[1..] == EscapedLines(lines[1..]);
    }
  }

  lemma {:induction false} QuotedStringFoldSafe(v: bytes)
    requires FoldSafe(v)
    ensures FoldSafe(QuotedString(v))
  {
    var lines := CrlfLines(v);
    JoinOfLines(v);
    EscapeOfJoin(lines);
    CrlfLinesOfJoin(EscapedLines(lines));
    FoldSafeSuffix(Escape(v), [DQUOTE]);
    FoldSafePrefix([DQUOTE], Escape(v) + [DQUOTE]);
  }

  // ----- securing a value -----

  /** `secureHeader`. */
  function SecureHeader(str: bytes): bytes { Trim(StripBreaks(str)) }

  lemma {:induction false} TrimLeftUtf8(cs: seq<bytes>) returns (kept: seq<bytes>)
    requires AllChars(cs)
    ensures AllChars(kept) && Flatten(kept) == TrimLeft(Flatten(cs))
  {
    kept := cs;
    if cs != [] && IsTrimmed(Flatten(cs)[0]) {
      assert IsChar(cs[0]);
      assert Flatten(cs)[0] == cs[0][0];
      assert Flatten(cs)[1..] == Flatten(cs[1..]);
      kept := TrimLeftUtf8(cs[1..]);
    }
  }

  lemma {:induction false} TrimRightUtf8(cs: seq<bytes>) returns (kept: seq<bytes>)
    requires AllChars(cs)
    ensures AllChars(kept) && Flatten(kept) == TrimRight(Flatten(cs))
  {
    kept := cs;
    if cs != [] {
      var n := |cs| - 1;
      assert cs == cs[..n] + [cs[n]];
      FlattenConcat(cs[..n], [cs[n]]);
      assert Flatten([cs[n]]) == cs[n];
      var s := Flatten(cs);
      assert IsChar(cs[n]);
      assert s[|s| - 1] == cs[n][|cs[n]| - 1];
      if IsTrimmed(s[|s| - 1]) {
        assert s[..|s| - 1] == Flatten(cs[..n]);
        kept := TrimRightUtf8(cs[..n]);
      }
    }
  }

  lemma {:induction false} TrimRightOneLine(s: bytes)
    requires OneLine(s)
    ensures OneLine(TrimRight(s))
  {
    if s != [] && IsTrimmed(s[|s| - 1]) {
      TrimRightOneLine(s[..|s| - 1]);
    }
  }

  lemma {:induction false} TrimLeftOneLine(s: bytes)
    requires OneLine(s)
    ensures OneLine(TrimLeft(s))
  {
    if s != [] && IsTrimmed(s[0]) {
      TrimLeftOneLine(s[1..]);
    }
  }

  lemma {:induction false} TrimOneLine(s: bytes)
    requires OneLine(s)
    ensures OneLine(Trim(s))
  {
    TrimLeftOneLine(s);
    TrimRightOneLine(TrimLeft(s));
  }

  /** Securing UTF-8 text gives UTF-8 text without line breaks. */
  lemma {:induction false} SecureHeaderUtf8(str: bytes)
    requires Chars(str).Some?
    ensures Chars(SecureHeader(str)).Some? && OneLine(SecureHeader(str))
  {
    StripBreaksIsNoBreaks(str);
    TrimOneLine(NoBreaks(str));
    var kept := NoBreaksUtf8(Chars(str).value);
    var left := TrimLeftUtf8(kept);
    var both := TrimRightUtf8(left);
    CharsOfFlatten(both);
  }

  lemma {:induction false} SecureHeaderUnits(str: bytes, utf8: bool)
    requires CharsIn(str, utf8).Some?
    ensures CharsIn(SecureHeader(str), utf8).Some? && OneLine(SecureHeader(str))
  {
    StripBreaksIsNoBreaks(str);
    TrimOneLine(NoBreaks(str));
    if utf8 {
      SecureHeaderUtf8(str);
    }
  }

  lemma {:induction false} TrimTwice(s: bytes)
    ensures Trim(Trim(s)) == Trim(s)
  {
    TrimLeftStart(s);
    TrimRightTwice(TrimLeft(s));
  }

  lemma {:induction false} TrimLeftStart(s: bytes)
    ensures TrimLeft(s) != [] ==> !IsTrimmed(TrimLeft(s)[0])
  {
    if s != [] && IsTrimmed(s[0]) {
      TrimLeftStart(s[1..]);
    }
  }

  lemma {:induction false} TrimRightTwice(s: bytes)
    ensures var r := TrimRight(s); r <= s && TrimRight(r) == r
  {
    if s != [] && IsTrimmed(s[|s| - 1]) {
      TrimRightTwice(s[..|s| - 1]);
    }
  }

  lemma {:induction false} OneLineRaw(s: bytes)
    requires OneLine(s)
    ensures Trim(Join(Segments(Trim(s)), CRLF)) == Trim(s)
  {
    TrimOneLine(s);
    TrimTwice(s);
    SegmentsStep(Trim(s), []);
    assert Trim(s) + [] == Trim(s);
  }

  /** `value` is `encodeHeader(secureHeader($text))`. */
  ghost predicate IsSecured(cfg: Settings, text: bytes, value: bytes) { Encodes(cfg, SecureHeader(text), Text, value) }

  predicate InWords(branch: Branch) { branch == EncodeB || branch == EncodeQ }

  /** A secured value is well folded, and where it is not made of encoded-words it is the text itself. */
  lemma {:induction false} SecuredValue(cfg: Settings, text: bytes, value: bytes)
    requires IsSecured(cfg, text, value)
    ensures FoldSafe(value)
    ensures !InWords(ChosenBranch(cfg, SecureHeader(text), Text)) ==> value == SecureHeader(text)
  {
    StripBreaksIsNoBreaks(text);
    TrimOneLine(NoBreaks(text));
    OneLineRaw(NoBreaks(text));
    OneLineIsFoldSafe(SecureHeader(text));
  }

  /** The encoded form of an attachment's content id: whatever the id, it cannot break the part's header. */
  method EncodeSecured(cfg: Settings, text: bytes) returns (value: bytes)
    requires Encodable(cfg) && CharsIn(text, IsUtf8(cfg)).Some?
    ensures IsSecured(cfg, text, value) && FoldSafe(value)
  {
    SecureHeaderUnits(text, IsUtf8(cfg));
    value := EncodeHeader(cfg, SecureHeader(text), Text);
    SecuredValue(cfg, text, value);
  }

  /** The parameter written for a name: whatever the name, it cannot break the part's header. */
  method EncodeParameter(cfg: Settings, name: bytes) returns (parameter: bytes, value: bytes)
    requires Encodable(cfg) && CharsIn(name, IsUtf8(cfg)).Some?
    ensures IsSecured(cfg, name, value)
    ensures FoldSafe(parameter) && parameter == QuotedString(value)
  {
    value := EncodeSecured(cfg, name);
    QuotedStringFoldSafe(value);
    parameter := QuotedString(value);
  }
}
