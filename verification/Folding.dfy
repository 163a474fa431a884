/** Header values folded over several lines. */
module Folding {
  import opened Bytes

  /** No bare break, and every line after the first starts with a space followed by something. */
  ghost predicate FoldSafe(value: bytes) { WellFolded(CrlfLines(value)) }

  ghost predicate WellFolded(lines: seq<bytes>) {
    forall n :: 0 <= n < |lines| ==> OneLine(lines[n]) && (n > 0 ==> |lines[n]| > 1 && lines[n][0] == SP)
  }

  lemma {:induction false} JoinOfLines(s: bytes)
    ensures Join(CrlfLines(s), CRLF) == s
    decreases |s|
  {
    var i := FindCrlf(s);
    if i == |s| {
      assert CrlfLines(s) == [s];
    } else {
      var rest := CrlfLines(s[i + 2..]);
      assert CrlfLines(s) == [s[..i]] + rest;
      hide Join, FindCrlf, CrlfLines;
      JoinOfLines(s[i + 2..]);
      JoinCons(s[..i], rest, CRLF);
      CrlfSplit(s, i);
    }
  }

  lemma {:induction false} CrlfSplit(s: bytes, i: nat)
    requires i + 1 < |s| && s[i] == CR && s[i + 1] == LF
    ensures s == s[..i] + CRLF + s[i + 2..]
  {
  }

  lemma {:induction false} OneLineIsFoldSafe(v: bytes)
    requires OneLine(v)
    ensures FoldSafe(v) && CrlfLines(v) == [v]
  {
  }

  /** Text put in front of a folded value lands on its first line. */
  lemma {:induction false} FoldSafePrefix(p: bytes, v: bytes)
    requires OneLine(p) && FoldSafe(v)
    ensures FoldSafe(p + v) && CrlfLines(p + v)[0] == p + CrlfLines(v)[0]
  {
    var l := CrlfLines(v);
    var l' := [p + l[0]] + l[1..];
    JoinOfLines(v);
    if |l| == 1 {
      assert Join(l', CRLF) == p + v;
    } else {
      assert l'[1..] == l[1..];
      assert (p + l[0]) + CRLF + Join(l[1..], CRLF) == p + (l[0] + CRLF + Join(l[1..], CRLF));
    }
    CrlfLinesOfJoin(l');
  }

  lemma {:induction false} FoldedLast(lines: seq<bytes>, s: bytes)
    requires OneLine(s) && lines != [] && WellFolded(lines)
    ensures WellFolded(lines[..|lines| - 1] + [lines[|lines| - 1] + s])
  {
  }

  /** Text put behind a folded value lands on its last line. */
  lemma {:induction false} FoldSafeSuffix(v: bytes, s: bytes)
    requires OneLine(s) && FoldSafe(v)
    ensures FoldSafe(v + s)
  {
    var l := CrlfLines(v);
    var n := |l| - 1;
    var l' := l[..n] + [l[n] + s];
    JoinOfLines(v);
    FoldedLast(l, s);
    hide Join, Terminated;
    assert l == l[..n] + [l[n]];
    JoinLast(l[..n], l[n], CRLF);
    JoinLast(l[..n], l[n] + s, CRLF);
    Assoc(Terminated(l[..n], CRLF), l[n], s);
    CrlfLinesOfJoin(l');
  }
}
