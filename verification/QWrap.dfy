/** Cutting Q text at character boundaries: `utf8CharBoundary` and the word loop of `wrapText`. */
module QWrap {
  import opened Bytes
  import opened Utf8
  import opened QEncoding

  /** `hexdec` of at most two characters; what is not a hexadecimal digit is ignored. */
  function HexDec(s: bytes): nat
    requires |s| <= 2
  {
    var high := if |s| > 0 then HexValue(s[0]) else None;
    var low := if |s| > 1 then HexValue(s[1]) else None;
    match (high, low)
    case (Some(h), Some(l)) => 16 * h + l
    case (Some(h), None) => h
    case (None, Some(l)) => l
    case (None, None) => 0
  }

  /** The Q text in front of character `j`. */
  ghost function TextBefore(cs: seq<bytes>, pos: Position, j: nat): bytes
    requires j <= |cs|
  {
    Q(Flatten(cs[..j]), pos)
  }

  /** Where the token of byte `i` of character `j` starts. */
  ghost function TokenStart(cs: seq<bytes>, pos: Position, j: nat, i: nat): nat
    requires j < |cs| && i < |cs[j]|
  {
    |TextBefore(cs, pos, j)| + |Q(cs[j][..i], pos)|
  }

  lemma {:induction false} CutAtChar(cs: seq<bytes>, pos: Position, j: nat)
    requires j <= |cs|
    ensures Q(Flatten(cs), pos) == TextBefore(cs, pos, j) + Q(Flatten(cs[j..]), pos)
  {
    assert cs == cs[..j] + cs[j..];
    FlattenConcat(cs[..j], cs[j..]);
    QConcat(Flatten(cs[..j]), Flatten(cs[j..]), pos);
  }

  lemma {:induction false} NextChar(cs: seq<bytes>, pos: Position, j: nat)
    requires j < |cs|
    ensures TextBefore(cs, pos, j + 1) == TextBefore(cs, pos, j) + Q(cs[j], pos)
  {
    assert cs[..j + 1] == cs[..j] + [cs[j]];
    FlattenConcat(cs[..j], [cs[j]]);
    assert Flatten([cs[j]]) == cs[j];
    QConcat(Flatten(cs[..j]), cs[j], pos);
  }

  /** An equals sign in Q text is always followed by its two digits. */
  lemma {:induction false} EqNeedsThree(s: bytes, pos: Position, p: nat)
    requires p < |Q(s, pos)| && Q(s, pos)[p] == EQ
    ensures p + 3 <= |Q(s, pos)|
  {
    var t := Token(s[0], pos);
    if p >= |t| {
      EqNeedsThree(s[1..], pos, p - |t|);
    }
  }

  /** The character whose text covers position `p`. */
  lemma {:induction false} FindChar(cs: seq<bytes>, pos: Position, p: nat, n: nat) returns (j: nat)
    requires n <= |cs| && p < |TextBefore(cs, pos, n)|
    ensures j < n && |TextBefore(cs, pos, j)| <= p < |TextBefore(cs, pos, j + 1)|
  {
    if p < |TextBefore(cs, pos, n - 1)| {
      j := FindChar(cs, pos, p, n - 1);
    } else {
      j := n - 1;
    }
  }

  /** All bytes of a multi-byte character are escaped, three characters each. */
  lemma {:induction false} MultiByteLength(c: bytes, pos: Position)
    requires forall i :: 0 <= i < |c| ==> c[i] >= 128
    ensures |Q(c, pos)| == 3 * |c|
  {
    if c != [] {
      MultiByteLength(c[1..], pos);
    }
  }

  lemma {:induction false} TokenAfter(pre: bytes, b: byte, rest: bytes, pos: Position)
    ensures Q(pre + ([b] + rest), pos) == Q(pre, pos) + (Token(b, pos) + Q(rest, pos))
  {
    QConcat(pre, [b] + rest, pos);
    assert ([b] + rest)[1..] == rest;
  }

  lemma {:induction false} SplitAtByte(cs: seq<bytes>, j: nat, i: nat)
    requires j < |cs| && i < |cs[j]|
    ensures Flatten(cs) == (Flatten(cs[..j]) + cs[j][..i]) + ([cs[j][i]] + (cs[j][i + 1..] + Flatten(cs[j + 1..])))
  {
    assert cs == cs[..j] + cs[j..];
    FlattenConcat(cs[..j], cs[j..]);
    assert cs[j..][1..] == cs[j + 1..];
    assert cs[j] == cs[j][..i] + ([cs[j][i]] + cs[j][i + 1..]);
  }

  /** Start of the token of byte `i` of character `j`, and the text around it. */
  lemma {:induction false} TokenAt(cs: seq<bytes>, pos: Position, j: nat, i: nat) returns (a: nat)
    requires j < |cs| && i < |cs[j]|
    ensures a == TokenStart(cs, pos, j, i)
    ensures var text := Q(Flatten(cs), pos); var t := Token(cs[j][i], pos);
      && a + |t| <= |text| && text[a..a + |t|] == t
      && text[..a] == Q(Flatten(cs[..j]) + cs[j][..i], pos)
  {
    var pre, rest := Flatten(cs[..j]) + cs[j][..i], cs[j][i + 1..] + Flatten(cs[j + 1..]);
    SplitAtByte(cs, j, i);
    TokenAfter(pre, cs[j][i], rest, pos);
    QConcat(Flatten(cs[..j]), cs[j][..i], pos);
    a := |Q(pre, pos)|;
  }

  /** An equals sign in front of a token has its digits in front of it too. */
  lemma {:induction false} EqBeforeToken(s: bytes, pos: Position, text: bytes, a: nat, p: nat)
    requires p < a <= |text| && text[..a] == Q(s, pos) && text[p] == EQ
    ensures p + 3 <= a
  {
    assert text[..a][p] == EQ;
    EqNeedsThree(s, pos, p);
  }

  /** The first equals sign of a window that starts at most two positions before a token. */
  lemma {:induction false} WindowIndex(text: bytes, low: nat, a: nat, max: nat)
    requires low <= a <= low + 2 && a < max <= |text| && text[a] == EQ
    requires forall p :: 0 <= p < a && text[p] == EQ ==> p + 3 <= a
    ensures var w := Substr(text, low, max - low); |w| == max - low && IndexOf(w, EQ) == a - low
  {
    var w := Substr(text, low, max - low);
    assert w == text[low..max];
    var d := a - low;
    assert w[d] == EQ;
    forall p | 0 <= p < d ensures w[p] != EQ {
      assert w[p] == text[low + p];
    }
    assert IndexOf(w, EQ) == d;
  }

  /** The two bytes after an escaped token's equals sign spell the byte. */
  lemma {:induction false} DigitsSpell(text: bytes, a: nat, b: byte, pos: Position)
    requires Escaped(b, pos) && a + 3 <= |text| && text[a..a + 3] == Token(b, pos)
    ensures text[a] == EQ && HexDec(Substr(text, a + 1, 2)) == b
  {
    var t := Token(b, pos);
    assert text[a] == t[0] && text[a + 1] == t[1] && text[a + 2] == t[2];
  }

  /** In a look-back window whose first three positions hold the start of an escaped byte,
      the first equals sign is that start, and the digits after it spell the byte. */
  lemma {:induction false} WindowFinds(cs: seq<bytes>, pos: Position, j: nat, i: nat, max: nat, lookBack: nat)
    requires AllChars(cs) && j < |cs| && i < |cs[j]| && Escaped(cs[j][i], pos)
    requires lookBack <= max <= |Q(Flatten(cs), pos)|
    requires var a := TokenStart(cs, pos, j, i);
      max - lookBack <= a <= max - lookBack + 2 && a < max
    ensures var text := Q(Flatten(cs), pos); var a := TokenStart(cs, pos, j, i);
      && |Substr(text, max - lookBack, lookBack)| == lookBack
      && IndexOf(Substr(text, max - lookBack, lookBack), EQ) == a - (max - lookBack)
      && HexDec(Substr(text, a + 1, 2)) == cs[j][i]
  {
    var text := Q(Flatten(cs), pos);
    var a := TokenAt(cs, pos, j, i);
    hide Q, Flatten, Escaped, IndexOf, TextBefore, HexDec, Substr, AllChars;
    DigitsSpell(text, a, cs[j][i], pos);
    forall p | 0 <= p < a && text[p] == EQ ensures p + 3 <= a {
      EqBeforeToken(Flatten(cs[..j]) + cs[j][..i], pos, text, a, p);
    }
    WindowIndex(text, max - lookBack, a, max);
  }

  /** A window reaching past the end of the text holds no equals sign. */
  lemma {:induction false} TailHasNoEq(s: bytes, pos: Position, max: nat)
    requires |Q(s, pos)| < max && 3 <= max
    ensures var w := Substr(Q(s, pos), max - 3, 3); IndexOf(w, EQ) == |w|
  {
    var text := Q(s, pos);
    forall p | max - 3 <= p < |text| && text[p] == EQ ensures false {
      EqNeedsThree(s, pos, p);
    }
  }

  /** Bytes of a character and the room they take: one literal, or three for each escaped byte. */
  lemma {:induction false} CharShape(cs: seq<bytes>, pos: Position, j: nat, i: nat)
    requires AllChars(cs) && j < |cs| && i < |cs[j]|
    ensures var c := cs[j];
      && |c| <= 4
      && (!Escaped(c[i], pos) ==> |c| == 1)
      && (c[i] < 128 ==> |c| == 1)
      && (c[i] >= 192 ==> i == 0)
      && (i > 0 ==> 128 <= c[i - 1] && Escaped(c[i - 1], pos))
      && TokenStart(cs, pos, j, i) == |TextBefore(cs, pos, j)| + 3 * i
      && |TextBefore(cs, pos, j + 1)| == |TextBefore(cs, pos, j)| + (if Escaped(c[i], pos) then 3 * |c| else 1)
  {
    var c := cs[j];
    assert IsChar(c);
    NextChar(cs, pos, j);
    if |c| == 1 {
      assert c[..i] == [] && c[1..] == [];
      assert |Q(c, pos)| == |Token(c[0], pos)|;
    } else {
      assert c[0] >= 128;
      MultiByteLength(c, pos);
      MultiByteLength(c[..i], pos);
    }
  }

  /** The search stands at byte `i` of character `j`: its token starts in the first three positions of the window. */
  ghost predicate Probing(cs: seq<bytes>, pos: Position, j: nat, i: nat, max: nat, lookBack: nat) {
    && j < |cs| && i < |cs[j]|
    && max <= |Q(Flatten(cs), pos)|
    && 3 <= lookBack && lookBack % 3 == 0 && i + lookBack / 3 <= |cs[j]|
    && var t := |TextBefore(cs, pos, j)|;
      if Escaped(cs[j][i], pos) then max - lookBack <= t + 3 * i <= max - lookBack + 2
      else lookBack == 3 && max == t + 1
  }

  /** A cut at `r` is good: past the end, or just before character `k`. */
  ghost predicate GoodCut(cs: seq<bytes>, pos: Position, r: nat, k: nat) {
    r >= |Q(Flatten(cs), pos)| || (k <= |cs| && r == |TextBefore(cs, pos, k)|)
  }

  lemma {:induction false} ProbeStart(cs: seq<bytes>, pos: Position, max: nat) returns (j: nat, i: nat)
    requires AllChars(cs) && 1 <= max
    ensures max <= |Q(Flatten(cs), pos)| ==> Probing(cs, pos, j, i, max, 3)
  {
    if max > |Q(Flatten(cs), pos)| {
      return 0, 0;
    }
    assert cs[..|cs|] == cs;
    j := FindChar(cs, pos, max - 1, |cs|);
    assert IsChar(cs[j]);
    CharShape(cs, pos, j, 0);
    i := (max - 1 - |TextBefore(cs, pos, j)|) / 3;
    if Escaped(cs[j][0], pos) {
      CharShape(cs, pos, j, i);
    }
  }

  /** The search goes on: either the cut lies past the end, or it stands at a byte. */
  ghost predicate Searching(cs: seq<bytes>, pos: Position, j: nat, i: nat, max: nat, lookBack: nat, text: bytes) {
    lookBack <= 12 && if max > |text| then lookBack == 3 else Probing(cs, pos, j, i, max, lookBack)
  }

  /** What a round of the search may conclude from the first equals sign at `p` of `n` and the byte after it. */
  ghost predicate RoundOutcome(cs: seq<bytes>, pos: Position, j: nat, i: nat, max: nat, lookBack: nat,
                               p: nat, n: nat, dec: nat)
    requires p <= n <= lookBack < max
  {
    if p == n || (dec < 128 && p == 0) then GoodCut(cs, pos, max, j + 1)
    else if dec < 128 || dec >= 192 then GoodCut(cs, pos, max - (lookBack - p), j)
    else i > 0 && Searching(cs, pos, j, i - 1, max, lookBack + 3, Q(Flatten(cs), pos))
  }

  lemma {:induction false} ProbeEscaped(cs: seq<bytes>, pos: Position, j: nat, i: nat, max: nat, lookBack: nat)
    requires AllChars(cs) && max >= 13 && Probing(cs, pos, j, i, max, lookBack) && Escaped(cs[j][i], pos)
    ensures lookBack <= 12
    ensures var p := |TextBefore(cs, pos, j)| + 3 * i - (max - lookBack);
      p < lookBack && RoundOutcome(cs, pos, j, i, max, lookBack, p, lookBack, cs[j][i])
  {
    assert IsChar(cs[j]);
    CharShape(cs, pos, j, i);
  }

  /** One round of the search. */
  lemma {:induction false} ProbeStep(cs: seq<bytes>, pos: Position, j: nat, i: nat, max: nat, lookBack: nat, text: bytes,
                  chunk: bytes, p: nat, dec: nat)
    requires AllChars(cs) && max >= 13 && text == Q(Flatten(cs), pos)
    requires Searching(cs, pos, j, i, max, lookBack, text)
    requires chunk == Substr(text, max - lookBack, lookBack) && p == IndexOf(chunk, EQ)
    requires p < |chunk| ==> dec == HexDec(Substr(text, max - lookBack + p + 1, 2))
    ensures RoundOutcome(cs, pos, j, i, max, lookBack, p, |chunk|, dec)
  {
    if max > |text| {
      TailHasNoEq(Flatten(cs), pos, max);
    } else if Escaped(cs[j][i], pos) {
      ProbeEscaped(cs, pos, j, i, max, lookBack);
      CharShape(cs, pos, j, i);
      WindowFinds(cs, pos, j, i, max, lookBack);
    } else {
      CharShape(cs, pos, j, i);
      NothingInWindow(cs, pos, j, max);
    }
  }

  /** Where a literal character stands there is no equals sign. */
  lemma {:induction false} LiteralAt(cs: seq<bytes>, pos: Position, j: nat, text: bytes, a: nat)
    requires j < |cs| && |cs[j]| == 1 && !Escaped(cs[j][0], pos)
    requires text == Q(Flatten(cs), pos) && a == |TextBefore(cs, pos, j)|
    ensures a < |text| && text[a] != EQ && text[..a] == Q(Flatten(cs[..j]), pos)
  {
    var b := TokenAt(cs, pos, j, 0);
    assert cs[j][..0] == [];
    assert Flatten(cs[..j]) + [] == Flatten(cs[..j]);
    assert text[b..b + 1][0] == text[b];
  }

  lemma {:induction false} NoEqBefore(s: bytes, pos: Position, text: bytes, a: nat)
    requires 2 <= a < |text| && text[..a] == Q(s, pos) && text[a] != EQ
    ensures IndexOf(text[a - 2..a + 1], EQ) == 3
  {
    forall p | a - 2 <= p <= a ensures text[p] != EQ {
      if p < a && text[p] == EQ {
        EqBeforeToken(s, pos, text, a, p);
      }
    }
  }

  /** After a literal character the window of three holds no equals sign. */
  lemma {:induction false} NothingInWindow(cs: seq<bytes>, pos: Position, j: nat, max: nat)
    requires j < |cs| && |cs[j]| == 1 && !Escaped(cs[j][0], pos)
    requires 3 <= max == |TextBefore(cs, pos, j)| + 1 <= |Q(Flatten(cs), pos)|
    ensures var w := Substr(Q(Flatten(cs), pos), max - 3, 3); IndexOf(w, EQ) == |w|
  {
    hide Q, Flatten, TextBefore, Escaped, IndexOf, Substr;
    var text := Q(Flatten(cs), pos);
    LiteralAt(cs, pos, j, text, max - 1);
    NoEqBefore(Flatten(cs[..j]), pos, text, max - 1);
  }

  /** `PHPMailer::utf8CharBoundary`. On the Q text of characters `cs` the cut leaves whole characters on both
      sides, `k` of them on the left, and moves back by at most twelve positions. */
  method Utf8CharBoundary(text: bytes, maxLength: nat, ghost cs: seq<bytes>, ghost pos: Position)
    returns (r: nat, ghost k: nat)
    requires AllChars(cs) && text == Q(Flatten(cs), pos) && maxLength >= 13
    ensures maxLength - 12 <= r <= maxLength
    ensures k <= |cs|
    ensures if r >= |text| then k == |cs| else r == |TextBefore(cs, pos, k)|
  {
    r := maxLength;
    var lookBack := 3;
    var found := false;
    ghost var j, i := ProbeStart(cs, pos, maxLength);
    k := j;
    while !found
      invariant if found then maxLength - 12 <= r <= maxLength && GoodCut(cs, pos, r, k)
                else r == maxLength && Searching(cs, pos, j, i, maxLength, lookBack, text)
      decreases if found then 0 else 1 + i
    {
      hide Q, Flatten, AllChars, Searching, GoodCut, Substr, HexDec, IndexOf, TextBefore, Escaped;
      var chunk := Substr(text, maxLength - lookBack, lookBack);
      var p := IndexOf(chunk, EQ);
      k := j;
      if p < |chunk| {
        var dec := HexDec(Substr(text, maxLength - lookBack + p + 1, 2));
        ProbeStep(cs, pos, j, i, maxLength, lookBack, text, chunk, p, dec);
        if dec < 128 {
          if p > 0 {
            r := maxLength - (lookBack - p);
          } else {
            k := j + 1;
          }
          found := true;
        } else if dec >= 192 {
          r := maxLength - (lookBack - p);
          found := true;
        } else {
          lookBack, i := lookBack + 3, i - 1;
        }
      } else {
        ProbeStep(cs, pos, j, i, maxLength, lookBack, text, chunk, p, 0);
        k := j + 1;
        found := true;
      }
    }
    if r >= |text| {
      k := |cs|;
    }
  }

  /** The Q texts of groups of characters. */
  ghost function GroupTexts(groups: seq<seq<bytes>>, pos: Position): (r: seq<bytes>)
    ensures |r| == |groups|
    ensures forall n :: 0 <= n < |r| ==> r[n] == Q(Flatten(groups[n]), pos)
  {
    seq(|groups|, n requires 0 <= n < |groups| => Q(Flatten(groups[n]), pos))
  }

  const SOFT_BREAK: bytes := [EQ, CR, LF]

  /** One cut of a word: the left part is the text of `cs[..k]`, the rest that of `cs[k..]`. */
  lemma {:induction false} CutWord(cs: seq<bytes>, pos: Position, word: bytes, len: nat, k: nat)
    requires k <= |cs| && word == Q(Flatten(cs), pos)
    requires if len >= |word| then k == |cs| else len == |TextBefore(cs, pos, k)|
    ensures Substr(word, 0, len) == Q(Flatten(cs[..k]), pos)
    ensures Substr(word, len, |word|) == Q(Flatten(cs[k..]), pos)
  {
    CutAtChar(cs, pos, k);
    if k == |cs| {
      assert cs[..k] == cs && cs[k..] == [];
    }
  }

  /** The characters are cut into groups whose texts are short enough. */
  ghost predicate Grouped(cs: seq<bytes>, pos: Position, length: nat, groups: seq<seq<bytes>>) {
    && Flatten(groups) == cs
    && forall n :: 0 <= n < |groups| ==> |Q(Flatten(groups[n]), pos)| <= length
  }

  /** State of the loop: the message holds the finished groups, made of the first `n` characters; `rest` is left. */
  ghost predicate WrappingAt(cs: seq<bytes>, pos: Position, length: nat, message: bytes, groups: seq<seq<bytes>>,
                             n: nat, rest: seq<bytes>) {
    && n <= |cs| && rest == cs[n..]
    && Grouped(cs[..n], pos, length, groups)
    && message == Terminated(GroupTexts(groups, pos), SOFT_BREAK)
    && AllNonEmpty(groups)
  }

  ghost predicate Wrapping(cs: seq<bytes>, pos: Position, length: nat, message: bytes, groups: seq<seq<bytes>>,
                           rest: seq<bytes>) {
    exists n: nat :: WrappingAt(cs, pos, length, message, groups, n, rest)
  }

  ghost predicate AllNonEmpty(groups: seq<seq<bytes>>) { forall n :: 0 <= n < |groups| ==> groups[n] != [] }

  lemma {:induction false} PushGroup(cs: seq<bytes>, pos: Position, length: nat, groups: seq<seq<bytes>>, n: nat, k: nat)
    requires n <= k <= |cs| && Grouped(cs[..n], pos, length, groups) && |Q(Flatten(cs[n..k]), pos)| <= length
    ensures Grouped(cs[..k], pos, length, groups + [cs[n..k]])
    ensures GroupTexts(groups + [cs[n..k]], pos) == GroupTexts(groups, pos) + [Q(Flatten(cs[n..k]), pos)]
  {
    FlattenPush(groups, cs[n..k]);
    hide Flatten, Q;
    assert cs[..k] == cs[..n] + cs[n..k];
  }

  lemma {:induction false} WrapBegin(cs: seq<bytes>, pos: Position, length: nat)
    ensures Wrapping(cs, pos, length, [], [], cs)
  {
    assert cs == cs[0..] && Grouped(cs[..0], pos, length, []);
    assert WrappingAt(cs, pos, length, [], [], 0, cs);
  }

  lemma {:induction false} WrapStepAt(cs: seq<bytes>, pos: Position, length: nat, message: bytes, groups: seq<seq<bytes>>,
                   n: nat, rest: seq<bytes>, k: nat, part: bytes)
    requires WrappingAt(cs, pos, length, message, groups, n, rest)
    requires k <= |rest| && part == Q(Flatten(rest[..k]), pos) && 0 < |part| <= length
    ensures WrappingAt(cs, pos, length, message + (part + SOFT_BREAK), groups + [rest[..k]], n + k, rest[k..])
  {
    assert rest[..k] == cs[n..n + k] && rest[k..] == cs[n + k..];
    PushGroup(cs, pos, length, groups, n, n + k);
    TerminatedPush(GroupTexts(groups, pos), part, SOFT_BREAK);
  }

  lemma {:induction false} WrapStep(cs: seq<bytes>, pos: Position, length: nat, message: bytes, groups: seq<seq<bytes>>,
                 rest: seq<bytes>, k: nat, part: bytes)
    requires Wrapping(cs, pos, length, message, groups, rest)
    requires k <= |rest| && part == Q(Flatten(rest[..k]), pos) && 0 < |part| <= length
    ensures Wrapping(cs, pos, length, message + (part + SOFT_BREAK), groups + [rest[..k]], rest[k..])
  {
    var n: nat :| WrappingAt(cs, pos, length, message, groups, n, rest);
    WrapStepAt(cs, pos, length, message, groups, n, rest, k, part);
  }

  lemma {:induction false} WrapEnd(cs: seq<bytes>, pos: Position, length: nat, message: bytes, groups: seq<seq<bytes>>,
                rest: seq<bytes>, buf: bytes)
    requires Wrapping(cs, pos, length, message, groups, rest)
    requires buf == Q(Flatten(rest), pos) && |buf| <= length && (buf != [] || groups == [])
    ensures Grouped(cs, pos, length, groups + [rest])
    ensures AllNonEmpty(groups + [rest]) || |groups + [rest]| == 1
    ensures message + buf == Join(GroupTexts(groups + [rest], pos), SOFT_BREAK)
  {
    var n: nat :| WrappingAt(cs, pos, length, message, groups, n, rest);
    assert cs[n..] == cs[n..|cs|] && cs[..|cs|] == cs;
    PushGroup(cs, pos, length, groups, n, |cs|);
    JoinLast(GroupTexts(groups, pos), buf, SOFT_BREAK);
  }

  /** The message is the Q texts of these groups, joined by soft breaks, and a final break. */
  ghost predicate WrapsInto(cs: seq<bytes>, pos: Position, length: nat, message: bytes, groups: seq<seq<bytes>>) {
    && Grouped(cs, pos, length, groups) && groups != [] && (AllNonEmpty(groups) || |groups| == 1)
    && message == Join(GroupTexts(groups, pos), SOFT_BREAK) + CRLF
  }

  ghost predicate WrapsWord(cs: seq<bytes>, pos: Position, length: nat, message: bytes) {
    exists groups :: WrapsInto(cs, pos, length, message, groups)
  }

  /** Where in a token a position lies. */
  lemma {:induction false} InToken(text: bytes, a: nat, p: nat, b: byte, pos: Position)
    requires a <= p < a + |Token(b, pos)| <= |text| && text[a..a + |Token(b, pos)|] == Token(b, pos)
    ensures text[p] == EQ ==> p == a
    ensures p > a ==> p <= a + 2 && text[a] == EQ
  {
    var t := Token(b, pos);
    assert text[p] == text[a..a + |t|][p - a] == t[p - a];
    assert text[a] == text[a..a + |t|][0] == t[0];
    assert Escaped(b, pos) ==> t == HexToken(b);
  }

  /** Every equals sign of Q text starts a token. */
  lemma {:induction false} EqStartsToken(cs: seq<bytes>, pos: Position, p: nat) returns (k: nat)
    requires Units(cs, false) && p < |Q(Flatten(cs), pos)|
    ensures k < |cs| && |TextBefore(cs, pos, k)| <= p < |TextBefore(cs, pos, k + 1)|
    ensures var text := Q(Flatten(cs), pos); text[p] == EQ ==> p == |TextBefore(cs, pos, k)|
    ensures var text := Q(Flatten(cs), pos); var a := |TextBefore(cs, pos, k)|; p > a ==> p <= a + 2 && text[a] == EQ
  {
    assert cs[..|cs|] == cs;
    k := FindChar(cs, pos, p, |cs|);
    var a := TokenAt(cs, pos, k, 0);
    SingleStart(cs, pos, k);
    hide Q, Flatten, TextBefore, Token;
    InToken(Q(Flatten(cs), pos), a, p, cs[k][0], pos);
  }

  lemma {:induction false} SingleStart(cs: seq<bytes>, pos: Position, k: nat)
    requires k < |cs| && |cs[k]| == 1
    ensures TokenStart(cs, pos, k, 0) == |TextBefore(cs, pos, k)|
    ensures |TextBefore(cs, pos, k + 1)| == |TextBefore(cs, pos, k)| + |Token(cs[k][0], pos)|
  {
    NextChar(cs, pos, k);
    assert cs[k] == [cs[k][0]] && cs[k][..0] == [] && cs[k][1..] == [];
    assert |Q(cs[k], pos)| == |Token(cs[k][0], pos)|;
  }

  /** The cut for single-byte charsets: one or two positions back when an equals sign stands there. */
  function ByteBoundary(word: bytes, length: nat): (len: nat)
    requires length >= 3
    ensures length - 2 <= len <= length
  {
    if Substr(word, length - 1, 1) == [EQ] then length - 1
    else if Substr(word, length - 2, 1) == [EQ] then length - 2
    else length
  }

  /** That cut never splits a token. */
  lemma {:induction false} ByteBoundaryCuts(cs: seq<bytes>, pos: Position, word: bytes, length: nat) returns (k: nat)
    requires Units(cs, false) && word == Q(Flatten(cs), pos) && length >= 3
    ensures var len := ByteBoundary(word, length);
      k <= |cs| && if len >= |word| then k == |cs| else len == |TextBefore(cs, pos, k)|
  {
    var len := ByteBoundary(word, length);
    if len >= |word| {
      k := |cs|;
    } else {
      if length <= |word| && len < length {
        EqNeedsThree(Flatten(cs), pos, len);
      }
      k := EqStartsToken(cs, pos, len);
    }
  }

  lemma {:induction false} UnitsSuffix(cs: seq<bytes>, utf8: bool, k: nat)
    requires Units(cs, utf8) && k <= |cs|
    ensures Units(cs[k..], utf8)
  {
  }

  lemma {:induction false} SubstrSplit(word: bytes, len: nat)
    requires word != [] && len > 0
    ensures var part := Substr(word, 0, len);
      0 < |part| <= len && word == part + Substr(word, len, |word|)
  {
  }

  /** One cut of the word, at the place the charset allows. */
  method TakePart(word: bytes, length: nat, utf8: bool, ghost cs: seq<bytes>, ghost pos: Position)
    returns (part: bytes, rest: bytes, ghost k: nat)
    requires Units(cs, utf8) && word == Q(Flatten(cs), pos) && word != [] && length >= (if utf8 then 13 else 3)
    ensures 0 < |part| <= length && word == part + rest && k <= |cs| && Units(cs[k..], utf8)
    ensures part == Q(Flatten(cs[..k]), pos) && rest == Q(Flatten(cs[k..]), pos)
  {
    var len := length;
    if utf8 {
      len, k := Utf8CharBoundary(word, len, cs, pos);
    } else {
      len := ByteBoundary(word, length);
      k := ByteBoundaryCuts(cs, pos, word, length);
    }
    CutWord(cs, pos, word, len, k);
    UnitsSuffix(cs, utf8, k);
    SubstrSplit(word, len);
    hide Q, Flatten, Units, ByteBoundary, Substr, TextBefore;
    part, rest := Substr(word, 0, len), Substr(word, len, |word|);
  }

  /** `PHPMailer::wrapText` in quoted-printable mode on one long word of Q text: the pieces, cut between characters,
      are joined by soft breaks. The loop terminates because every cut is at least one position in. */
  method WrapEncoded(text: bytes, length: nat, utf8: bool, ghost cs: seq<bytes>, ghost pos: Position)
    returns (message: bytes)
    requires Units(cs, utf8) && text == Q(Flatten(cs), pos) && length >= (if utf8 then 13 else 3)
    ensures WrapsWord(cs, pos, length, message)
  {
    hide Q, Flatten, Wrapping, Grouped, Units;
    message := [];
    ghost var groups: seq<seq<bytes>> := [];
    var buf, word := text, text;
    ghost var rest := cs;
    WrapBegin(cs, pos, length);
    if |text| > length {
      while word != []
        invariant Units(rest, utf8) && Wrapping(cs, pos, length, message, groups, rest)
        invariant (if word != [] then word else buf) == Q(Flatten(rest), pos)
        invariant word == [] ==> 0 < |buf| <= length
        decreases |word|
      {
        ghost var whole := word;
        var part;
        ghost var k;
        part, word, k := TakePart(word, length, utf8, rest, pos);
        if word != [] {
          WrapStep(cs, pos, length, message, groups, rest, k, part);
          message := message + (part + SOFT_BREAK);
          groups, rest := groups + [rest[..k]], rest[k..];
        } else {
          buf := part;
          assert whole == part + [] == part;
        }
      }
    }
    WrapEnd(cs, pos, length, message, groups, rest, buf);
    message := message + buf + CRLF;
    assert WrapsInto(cs, pos, length, message, groups + [rest]);
  }
}
