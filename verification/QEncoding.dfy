/** The Q encoding of RFC 2047 as the library builds it: global replacements, and cuts at character boundaries. */
module QEncoding {
  import opened Bytes
  import opened Utf8

  const EQ: byte := 61
  const QUESTION: byte := 63
  const UNDERSCORE: byte := 95

  /** Where an encoded-word is going to stand. */
  datatype Position = Phrase | Comment | Text

  predicate IsAlnum(b: byte) { 48 <= b <= 57 || 65 <= b <= 90 || 97 <= b <= 122 }

  /** The character class `encodeQ` matches for each position. */
  predicate Escaped(b: byte, pos: Position) {
    match pos
    case Phrase => !(IsAlnum(b) || b == 33 || b == 42 || b == 43 || b == 47 || b == SP || b == 45)
    case Comment => TextEscaped(b) || b == 40 || b == 41 || b == 34
    case Text => TextEscaped(b)
  }

  predicate TextEscaped(b: byte) {
    b <= 9 || b == 11 || b == 12 || 14 <= b <= 31 || b == EQ || b == QUESTION || b == UNDERSCORE || b >= 127
  }

  function HexDigit(d: int): byte
    requires 0 <= d < 16
  {
    if d < 10 then 48 + d else 55 + d
  }

  function HexValue(c: byte): (r: Option<int>)
    ensures r.Some? ==> 0 <= r.value < 16
  {
    if 48 <= c <= 57 then Some(c - 48)
    else if 65 <= c <= 70 then Some(c - 55)
    else if 97 <= c <= 102 then Some(c - 87)
    else None
  }

  /** `'=' . sprintf('%02X', ord($b))`. */
  function HexToken(b: byte): (r: bytes)
    ensures |r| == 3 && r[0] == EQ && r[1] != EQ && r[2] != EQ
    ensures HexValue(r[1]) == Some(b / 16) && HexValue(r[2]) == Some(b % 16)
  {
    [EQ, HexDigit(b / 16), HexDigit(b % 16)]
  }

  // ----- encodeQ -----

  /** Reference definition: every byte is encoded on its own, all at once. */
  function Token(b: byte, pos: Position): (r: bytes)
    ensures |r| == if Escaped(b, pos) then 3 else 1
    ensures r[0] == EQ <==> Escaped(b, pos)
  {
    if Escaped(b, pos) then HexToken(b) else if b == SP then [UNDERSCORE] else [b]
  }

  function Q(s: bytes, pos: Position): bytes {
    if s == [] then [] else Token(s[0], pos) + Q(s[1..], pos)
  }

  /** The bytes that stand for themselves; a space becomes an underscore, any other byte an equals sign and two
      capital hexadecimal digits. */
  ghost predicate StandsForItself(b: byte, pos: Position) {
    match pos
    case Phrase => 48 <= b <= 57 || 65 <= b <= 90 || 97 <= b <= 122 || b in {33, 42, 43, 45, 47}
    case Comment => (33 <= b <= 126 && b !in {34, 40, 41, 61, 63, 95}) || b in {10, 13}
    case Text => (33 <= b <= 126 && b !in {61, 63, 95}) || b in {10, 13}
  }

  ghost predicate HexDigits(h: byte, l: byte, b: byte) {
    && (48 <= h <= 57 || 65 <= h <= 70) && (48 <= l <= 57 || 65 <= l <= 70)
    && b == 16 * (if h <= 57 then h - 48 else h - 55) + (if l <= 57 then l - 48 else l - 55)
  }

  lemma {:induction false} QOfByte(b: byte, pos: Position)
    ensures var q := Q([b], pos);
      if b == 32 then q == [95]
      else if StandsForItself(b, pos) then q == [b]
      else |q| == 3 && q[0] == 61 && HexDigits(q[1], q[2], b)
  {
    assert [b][1..] == [];
    assert Q([b], pos) == Token(b, pos) + [];
  }

  lemma {:induction false} QConcat(a: bytes, b: bytes, pos: Position)
    ensures Q(a + b, pos) == Q(a, pos) + Q(b, pos)
  {
    if a == [] {
      assert a + b == b;
    } else {
      assert (a + b)[1..] == a[1..] + b;
      QConcat(a[1..], b, pos);
      Assoc(Token(a[0], pos), Q(a[1..], pos), Q(b, pos));
    }
  }

  /** `s` with the bytes in `done` replaced by their hex tokens. */
  function Subst(s: bytes, done: seq<byte>): bytes {
    if s == [] then [] else (if s[0] in done then HexToken(s[0]) else [s[0]]) + Subst(s[1..], done)
  }

  /** `array_unique`: first occurrences, in order. */
  function Unique(s: seq<byte>): (r: seq<byte>)
    ensures forall b :: b in r <==> b in s
    ensures forall i, j :: 0 <= i < j < |r| ==> r[i] != r[j]
    decreases |s|
  {
    if s == [] then []
    else
      var init, x := s[..|s| - 1], s[|s| - 1];
      assert s == init + [x];
      var u := Unique(init);
      if x in init then u else u + [x]
  }

  lemma {:induction false} UniqueHead(s: seq<byte>)
    requires s != []
    ensures Unique(s) != [] && Unique(s)[0] == s[0]
    decreases |s|
  {
    if |s| > 1 {
      UniqueHead(s[..|s| - 1]);
    }
  }

  /** `preg_match_all` of the class. */
  function Matched(s: bytes, pos: Position): (r: seq<byte>)
    ensures forall b :: b in r <==> b in s && Escaped(b, pos)
  {
    if s == [] then []
    else
      assert s == [s[0]] + s[1..];
      (if Escaped(s[0], pos) then [s[0]] else []) + Matched(s[1..], pos)
  }

  /** The matched bytes, with one '=' moved to the front when there is any. */
  function ReplacementOrder(s: bytes, pos: Position): (r: seq<byte>)
    ensures forall b :: b in r <==> b in s && Escaped(b, pos)
    ensures EQ in s ==> r != [] && r[0] == EQ
    ensures forall i, j :: 0 <= i < j < |r| ==> r[i] != r[j]
  {
    var m := Matched(s, pos);
    var i := IndexOf(m, EQ);
    if i == |m| then Unique(m)
    else
      var moved := [EQ] + m[..i] + m[i + 1..];
      UniqueHead(moved);
      Unique(moved)
  }

  /** One global replacement extends the substitution, as long as it cannot hit an earlier token. */
  lemma {:induction false} ReplaceExtendsSubst(s: bytes, done: seq<byte>, c: byte)
    requires c !in done
    requires done != [] ==> c != EQ && HexValue(c).None?
    ensures Replace(Subst(s, done), [c], HexToken(c)) == Subst(s, done + [c])
  {
    if s != [] {
      ReplaceExtendsSubst(s[1..], done, c);
      var t := Subst(s[1..], done);
      if s[0] in done {
        ReplaceSkip(HexToken(s[0]), t, c, HexToken(c));
      } else if s[0] == c {
        assert ([c] + t)[1..] == t;
      } else {
        ReplaceSkip([s[0]], t, c, HexToken(c));
      }
    }
  }

  lemma {:induction false} SubstNone(s: bytes)
    ensures Subst(s, []) == s
  {
    if s != [] {
      SubstNone(s[1..]);
    }
  }

  /** Once all escaped bytes are replaced, turning spaces into underscores gives the reference definition. */
  lemma {:induction false} SpacesLast(s: bytes, done: seq<byte>, pos: Position)
    requires forall b :: b in s ==> (b in done <==> Escaped(b, pos))
    ensures Replace(Subst(s, done), [SP], [UNDERSCORE]) == Q(s, pos)
  {
    if s != [] {
      assert forall b :: b in s[1..] ==> b in s;
      SpacesLast(s[1..], done, pos);
      var t := Subst(s[1..], done);
      assert s[0] in s;
      if s[0] in done {
        ReplaceSkip(HexToken(s[0]), t, SP, [UNDERSCORE]);
      } else if s[0] == SP {
        assert ([SP] + t)[1..] == t;
      } else {
        ReplaceSkip([s[0]], t, SP, [UNDERSCORE]);
      }
    }
  }

  /** `str_replace(["\r", "\n"], '', $str)`. */
  function StripBreaks(s: bytes): bytes { Replace(Replace(s, [CR], []), [LF], []) }

  /** The text without its line-break bytes. */
  function NoBreaks(s: bytes): (r: bytes)
    ensures OneLine(r)
  {
    if s == [] then [] else (if IsBreak(s[0]) then [] else [s[0]]) + NoBreaks(s[1..])
  }

  lemma {:induction false} StripBreaksIsNoBreaks(s: bytes)
    ensures StripBreaks(s) == NoBreaks(s)
  {
    if s != [] {
      StripBreaksIsNoBreaks(s[1..]);
      var t := Replace(s[1..], [CR], []);
      if s[0] != CR {
        assert ([s[0]] + t)[1..] == t;
        assert ([s[0]] + t)[0] == s[0];
      } else {
        assert [] + t == t;
      }
    }
  }

  lemma {:induction false} NoBreaksOfOneLine(s: bytes)
    requires OneLine(s)
    ensures NoBreaks(s) == s
  {
    if s != [] {
      NoBreaksOfOneLine(s[1..]);
    }
  }

  /** No byte is replaced twice, and none after the first can occur in a token. */
  lemma {:induction false} OrderIsSafe(s: bytes, pos: Position, n: nat)
    requires n < |ReplacementOrder(s, pos)|
    ensures var order := ReplacementOrder(s, pos);
      && order[n] !in order[..n]
      && (n > 0 ==> order[n] != EQ && HexValue(order[n]).None?)
  {
    hide ReplacementOrder;
    var order := ReplacementOrder(s, pos);
    assert order[n] in order;
    assert n > 0 ==> order[0] != order[n];
  }

  lemma {:induction false} NextReplacement(s: bytes, pos: Position, n: nat)
    requires n < |ReplacementOrder(s, pos)|
    ensures var order := ReplacementOrder(s, pos);
      Replace(Subst(s, order[..n]), [order[n]], HexToken(order[n])) == Subst(s, order[..n + 1])
  {
    hide ReplacementOrder, HexValue;
    var order := ReplacementOrder(s, pos);
    OrderIsSafe(s, pos, n);
    ReplaceExtendsSubst(s, order[..n], order[n]);
    assert order[..n + 1] == order[..n] + [order[n]];
  }

  /** `PHPMailer::encodeQ`: the sequence of global replacements is the simultaneous substitution. */
  method EncodeQ(str: bytes, pos: Position) returns (encoded: bytes)
    ensures encoded == Q(NoBreaks(str), pos)
  {
    var s := StripBreaks(str);
    encoded := s;
    var order := ReplacementOrder(s, pos);
    assert encoded == Subst(s, order[..0]) by { SubstNone(s); }
    for n := 0 to |order|
      invariant encoded == Subst(s, order[..n])
    {
      NextReplacement(s, pos, n);
      encoded := Replace(encoded, [order[n]], HexToken(order[n]));
    }
    assert order[..|order|] == order;
    SpacesLast(s, order, pos);
    encoded := Replace(encoded, [SP], [UNDERSCORE]);
    StripBreaksIsNoBreaks(str);
  }

  /** Q decoding, section 4.2 of RFC 2047. */
  function QDecode(t: bytes): Option<bytes>
    decreases |t|
  {
    if t == [] then Some([])
    else if t[0] == EQ then
      if |t| < 3 then None
      else match (HexValue(t[1]), HexValue(t[2]), QDecode(t[3..]))
        case (Some(h), Some(l), Some(rest)) => Some([16 * h + l] + rest)
        case _ => None
    else match QDecode(t[1..])
      case Some(rest) => Some([if t[0] == UNDERSCORE then SP else t[0]] + rest)
      case None => None
  }

  lemma {:induction false} QDecodeQ(s: bytes, pos: Position)
    ensures QDecode(Q(s, pos)) == Some(s)
  {
    if s != [] {
      QDecodeQ(s[1..], pos);
      var t, rest := Token(s[0], pos), Q(s[1..], pos);
      assert (t + rest)[|t|..] == rest;
      assert (t + rest)[0] == t[0];
      if Escaped(s[0], pos) {
        assert (t + rest)[1] == t[1] && (t + rest)[2] == t[2];
      }
      assert [s[0]] + s[1..] == s;
    }
  }

  /** What Q text is made of: never a space, a break or a question mark. */
  predicate QSafe(b: byte) { 33 <= b <= 126 && b != QUESTION }

  /** The alphabet of section 5 (3) of RFC 2047 for words inside a phrase. */
  predicate PhraseSafe(b: byte) {
    IsAlnum(b) || b == 33 || b == 42 || b == 43 || b == 45 || b == 47 || b == EQ || b == UNDERSCORE
  }

  lemma {:induction false} QAlphabet(s: bytes, pos: Position)
    requires OneLine(s)
    ensures forall i :: 0 <= i < |Q(s, pos)| ==> QSafe(Q(s, pos)[i])
    ensures pos == Phrase ==> forall i :: 0 <= i < |Q(s, pos)| ==> PhraseSafe(Q(s, pos)[i])
  {
    if s != [] {
      QAlphabet(s[1..], pos);
    }
  }

}
