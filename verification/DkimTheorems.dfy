/** Header canonicalisation is stable and does not see folding or spacing. */
module DkimTheorems {
  import opened Bytes
  import opened LineBreaks
  import opened Dkim

  // ----- trimming and words, byte by byte -----

  lemma {:induction false} SkipFacts(s: bytes)
    ensures forall i :: 0 <= i < |SkipWsp(s)| ==> SkipWsp(s)[i] in s
  {
    if s != [] && IsWsp(s[0]) {
      SkipFacts(s[1..]);
    }
  }

  lemma {:induction false} TrimRightFacts(s: bytes)
    ensures var r := TrimRightWsp(s); r <= s && (r != [] ==> !IsWsp(r[|r| - 1]))
  {
    if s != [] && IsWsp(s[|s| - 1]) {
      TrimRightFacts(s[..|s| - 1]);
    }
  }

  lemma {:induction false} TrimFacts(s: bytes)
    ensures var r := TrimWsp(s);
      && (forall i :: 0 <= i < |r| ==> r[i] in s)
      && (r != [] ==> !IsWsp(r[0]) && !IsWsp(r[|r| - 1]))
      && TrimWsp(r) == r
  {
    SkipFacts(s);
    TrimRightFacts(SkipWsp(s));
  }

  lemma {:induction false} WordsOneLine(s: bytes)
    requires OneLine(s)
    ensures AllOneLine(Words(s))
  {
    if s != [] {
      WordsOneLine(s[1..]);
    }
  }

  lemma {:induction false} SpacedOneLine(ws: seq<bytes>)
    requires AllOneLine(ws)
    ensures OneLine(Join(ws, [SP]))
  {
    if |ws| > 1 {
      SpacedOneLine(ws[1..]);
    }
  }

  lemma {:induction false} WordsOfWord(w: bytes)
    requires Visible(w)
    ensures Words(w) == [w]
  {
    if |w| > 1 {
      WordsOfWord(w[1..]);
      assert [w[0]] + w[1..] == w;
    } else {
      assert w == [w[0]];
      assert w[1..] == [];
    }
  }

  lemma {:induction false} WordsOfJoin(ws: seq<bytes>)
    requires forall i :: 0 <= i < |ws| ==> Visible(ws[i])
    ensures Words(Join(ws, [SP])) == ws
  {
    if ws == [] {
    } else if |ws| == 1 {
      WordsOfWord(ws[0]);
    } else {
      var rest := Join(ws[1..], [SP]);
      WordsOfJoin(ws[1..]);
      WordsOfWord(ws[0]);
      Assoc(ws[0], [SP], rest);
      WordsAppend(ws[0], [SP] + rest);
      WordsAfterBlanks([SP], rest);
    }
  }

  // ----- one logical line -----

  ghost predicate IsField(line: bytes) { COLON in line }

  ghost function Name(line: bytes): bytes { TrimWsp(Lower(line[..IndexOf(line, COLON)])) }

  ghost function Value(line: bytes): bytes
    requires IsField(line)
  {
    line[IndexOf(line, COLON) + 1..]
  }

  lemma {:induction false} NameFacts(line: bytes)
    ensures COLON !in Name(line)
    ensures TrimWsp(Lower(Name(line))) == Name(line)
    ensures !Folded(Name(line))
    ensures OneLine(line) ==> OneLine(Name(line))
  {
    var h := line[..IndexOf(line, COLON)];
    TrimFacts(Lower(h));
    var n := Name(line);
    forall i | 0 <= i < |n| ensures n[i] != COLON && LowerByte(n[i]) == n[i] && (OneLine(line) ==> !IsBreak(n[i])) {
      assert n[i] in Lower(h);
      var k :| 0 <= k < |h| && Lower(h)[k] == n[i];
      assert h[k] == line[k];
    }
    assert Lower(n) == n;
  }

  /** A field in canonical form. */
  lemma {:induction false} CanonField(line: bytes)
    requires IsField(line)
    ensures CanonLine(line) == Name(line) + ([COLON] + Join(Words(Value(line)), [SP]))
  {
  }

  lemma {:induction false} FieldTwice(n: bytes, ws: seq<bytes>)
    requires COLON !in n && TrimWsp(Lower(n)) == n && forall i :: 0 <= i < |ws| ==> Visible(ws[i])
    ensures var c := n + ([COLON] + Join(ws, [SP])); IsField(c) && CanonLine(c) == c
  {
    var j := Join(ws, [SP]);
    var c := n + ([COLON] + j);
    WordsOfJoin(ws);
    hide TrimWsp, Lower, Words, Join, IndexOf, Visible;
    IndexAfter(n, COLON, j);
    assert c[|n|] == COLON;
    assert c[..|n|] == n && c[|n| + 1..] == j;
  }

  lemma {:induction false} CanonOneLine(line: bytes)
    requires OneLine(line)
    ensures OneLine(CanonLine(line))
  {
    if IsField(line) {
      CanonField(line);
      NameFacts(line);
      WordsOneLine(Value(line));
      SpacedOneLine(Words(Value(line)));
    }
  }

  /** A canonical line is its own canonical form. */
  lemma {:induction false} CanonTwice(line: bytes)
    ensures CanonLine(CanonLine(line)) == CanonLine(line)
    ensures OneLine(line) ==> OneLine(CanonLine(line))
    ensures Folded(CanonLine(line)) <==> Folded(line) && !IsField(line)
  {
    if OneLine(line) {
      CanonOneLine(line);
    }
    if IsField(line) {
      CanonField(line);
      NameFacts(line);
      WordsVisible(Value(line));
      FieldTwice(Name(line), Words(Value(line)));
    }
  }

  // ----- idempotence -----

  /** Some logical line after the first starts with a blank and is no field. */
  ghost predicate Stray(lines: seq<bytes>) {
    exists i :: 1 <= i < |lines| && Folded(lines[i]) && !IsField(lines[i])
  }

  ghost predicate Unfolded(lines: seq<bytes>) { forall i :: 1 <= i < |lines| ==> !Folded(lines[i]) }

  lemma {:induction false} MergeLength(segs: seq<bytes>)
    ensures Unfolded(segs) ==> Merge(segs) == segs
    ensures !Unfolded(segs) ==> |Merge(segs)| < |segs|
    decreases |segs|
  {
    if |segs| > 1 && !Folded(segs[1]) {
      MergeLength(segs[1..]);
      if Unfolded(segs) {
        forall i | 1 <= i < |segs[1..]| ensures !Folded(segs[1..][i]) {
          assert !Folded(segs[i + 1]);
        }
      } else {
        var i :| 1 <= i < |segs| && Folded(segs[i]);
        assert Folded(segs[1..][i - 1]);
      }
    }
  }

  lemma {:induction false} CanonLinesFacts(lines: seq<bytes>)
    requires AllOneLine(lines)
    ensures AllOneLine(CanonLines(lines))
    ensures CanonLines(CanonLines(lines)) == CanonLines(lines)
    ensures Unfolded(CanonLines(lines)) <==> !Stray(lines)
  {
    var c := CanonLines(lines);
    forall i | 0 <= i < |lines|
      ensures OneLine(c[i]) && CanonLine(c[i]) == c[i] && (Folded(c[i]) <==> Folded(lines[i]) && !IsField(lines[i]))
    {
      CanonTwice(lines[i]);
    }
    if Stray(lines) {
      var i :| 1 <= i < |lines| && Folded(lines[i]) && !IsField(lines[i]);
      assert Folded(c[i]);
    }
  }

  /** Canonicalising a second time changes nothing exactly when no logical line is stray. */
  lemma {:induction false} HeaderCIdempotentIff(block: bytes)
    ensures HeaderC(HeaderC(block)) == HeaderC(block) <==> !Stray(Merge(Segments(block)))
  {
    var lines := Merge(Segments(block));
    var c := CanonLines(lines);
    LogicalLines(block);
    CanonLinesFacts(lines);
    SegmentsOfJoin(c, CRLF);
    MergeLength(c);
    if Stray(lines) {
      LogicalLines(HeaderC(block));
      CanonLinesFacts(Merge(c));
      SegmentsOfJoin(CanonLines(Merge(c)), CRLF);
    }
  }

  lemma {:induction false} MergeHead(segs: seq<bytes>)
    requires segs != []
    ensures segs[0] <= Merge(segs)[0]
    decreases |segs|
  {
    if |segs| > 1 && Folded(segs[1]) {
      MergeHead([segs[0] + ([SP] + SkipWsp(segs[1]))] + segs[2..]);
    }
  }

  ghost predicate NoInteriorBlank(segs: seq<bytes>) { forall i :: 1 <= i < |segs| - 1 ==> segs[i] != [] }

  lemma {:induction false} MergeUnfolds(segs: seq<bytes>)
    requires NoInteriorBlank(segs)
    ensures Unfolded(Merge(segs))
    decreases |segs|
  {
    if |segs| > 1 && Folded(segs[1]) {
      MergeUnfolds([segs[0] + ([SP] + SkipWsp(segs[1]))] + segs[2..]);
    } else if |segs| > 1 {
      var t := segs[1..];
      forall i | 1 <= i < |t| - 1 ensures t[i] != [] {
        assert t[i] == segs[i + 1];
      }
      MergeUnfolds(t);
      MergeHead(t);
    }
  }

  /** On a header block without interior blank lines canonicalisation is idempotent. */
  lemma {:induction false} HeaderCIdempotent(block: bytes)
    requires NoInteriorBlank(Segments(block))
    ensures HeaderC(HeaderC(block)) == HeaderC(block)
  {
    MergeUnfolds(Segments(block));
    HeaderCIdempotentIff(block);
  }

  /** A field, a blank line and an indented line: a second pass changes the result. */
  lemma {:induction false} InteriorBlankBreaksIdempotence(block: bytes)
    requires block == Join([[65, COLON, 66], [], [SP, 67]], CRLF)
    ensures HeaderC(HeaderC(block)) != HeaderC(block)
  {
    var segs: seq<bytes> := [[65, COLON, 66], [], [SP, 67]];
    SegmentsOfJoin(segs, CRLF);
    var tail: seq<bytes> := [[], [SP, 67]];
    assert segs[1..] == tail;
    var one: bytes := [] + ([SP] + SkipWsp(tail[1]));
    assert [SP, 67][1..] == [67];
    assert SkipWsp(tail[1]) == [67];
    assert Merge(tail) == [one];
    assert Merge(segs)[1] == [SP, 67];
    assert Stray(Merge(segs));
    HeaderCIdempotentIff(block);
  }

  // ----- refolding -----

  /** Two lines that read the same: equal, or fields of one name and the same words. */
  ghost predicate Alike(x: bytes, y: bytes) {
    x == y || (IsField(x) && IsField(y) && Name(x) == Name(y) && Words(Value(x)) == Words(Value(y)))
  }

  lemma {:induction false} FieldAppend(line: bytes, more: bytes)
    requires IsField(line)
    ensures IsField(line + more) && Name(line + more) == Name(line) && Value(line + more) == Value(line) + more
  {
    var i := IndexOf(line, COLON);
    var t := line + more;
    assert t[i] == COLON && IndexOf(t, COLON) == i by {
      assert forall k :: 0 <= k < |line| ==> t[k] == line[k];
    }
    assert t[..i] == line[..i] && t[i + 1..] == line[i + 1..] + more;
  }

  /** Continuing a field in two ways that start blank and hold the same words. */
  lemma {:induction false} ContinueAlike(x: bytes, y: bytes, more: bytes, other: bytes)
    requires Alike(x, y) && IsField(x)
    requires Folded(more) && Folded(other) && Words(more) == Words(other)
    ensures Alike(x + more, y + other)
  {
    FieldAppend(x, more);
    FieldAppend(y, other);
    WordsAppend(Value(x), more);
    WordsAppend(Value(y), other);
  }

  function Continued(s: bytes): bytes { [SP] + SkipWsp(s) }

  lemma {:induction false} ContinuedWords(s: bytes)
    ensures Folded(Continued(s)) && Words(Continued(s)) == Words(s)
  {
    WordsSkip(s);
    WordsAfterBlanks([SP], SkipWsp(s));
  }

  function Front(lines: seq<bytes>): seq<bytes>
    requires lines != []
  {
    lines[..|lines| - 1]
  }

  function Last(lines: seq<bytes>): bytes
    requires lines != []
  {
    lines[|lines| - 1]
  }

  /** A further physical line either continues the last logical line or starts a new one. */
  lemma {:induction false} MergePush(segs: seq<bytes>, s: bytes)
    requires segs != []
    ensures Merge(segs + [s]) ==
      if Folded(s) then Front(Merge(segs)) + [Last(Merge(segs)) + Continued(s)] else Merge(segs) + [s]
    decreases |segs|
  {
    var all := segs + [s];
    if |segs| == 1 {
      assert all[1] == s && all[2..] == [] && all[1..] == [s];
    } else if Folded(segs[1]) {
      var next := [segs[0] + ([SP] + SkipWsp(segs[1]))] + segs[2..];
      assert all[2..] == segs[2..] + [s];
      assert [segs[0] + ([SP] + SkipWsp(segs[1]))] + all[2..] == next + [s];
      MergePush(next, s);
    } else {
      assert all[1..] == segs[1..] + [s];
      MergePush(segs[1..], s);
    }
  }

  /** Same canonical lines but for the last one, and the last ones read the same. */
  ghost predicate SameSoFar(a: seq<bytes>, b: seq<bytes>) {
    a != [] && b != [] && CanonLines(Front(a)) == CanonLines(Front(b)) && Alike(Last(a), Last(b))
  }

  lemma {:induction false} CanonSplit(a: seq<bytes>)
    requires a != []
    ensures CanonLines(a) == CanonLines(Front(a)) + [CanonLine(Last(a))]
  {
    hide CanonLine;
  }

  lemma {:induction false} AlikeCanon(x: bytes, y: bytes)
    requires Alike(x, y)
    ensures CanonLine(x) == CanonLine(y)
  {
  }

  lemma {:induction false} SameSoFarCanon(a: seq<bytes>, b: seq<bytes>)
    requires SameSoFar(a, b)
    ensures CanonLines(a) == CanonLines(b)
  {
    AlikeCanon(Last(a), Last(b));
    CanonSplit(a);
    CanonSplit(b);
  }

  lemma {:induction false} SamePush(a: seq<bytes>, b: seq<bytes>, s: bytes)
    requires SameSoFar(a, b)
    ensures SameSoFar(a + [s], b + [s])
    ensures SameSoFar(Front(a) + [Last(a) + Continued(s)], Front(b) + [Last(b) + Continued(s)])
  {
    SameSoFarCanon(a, b);
    assert Front(a + [s]) == a && Front(b + [s]) == b;
    ContinuedWords(s);
    if Last(a) != Last(b) {
      ContinueAlike(Last(a), Last(b), Continued(s), Continued(s));
    }
    assert Front(Front(a) + [Last(a) + Continued(s)]) == Front(a);
    assert Front(Front(b) + [Last(b) + Continued(s)]) == Front(b);
  }

  lemma {:induction false} SameMergePush(a: seq<bytes>, b: seq<bytes>, s: bytes)
    requires a != [] && b != [] && SameSoFar(Merge(a), Merge(b))
    ensures SameSoFar(Merge(a + [s]), Merge(b + [s]))
  {
    MergePush(a, s);
    MergePush(b, s);
    SamePush(Merge(a), Merge(b), s);
  }

  lemma {:induction false} SameTail(a: seq<bytes>, b: seq<bytes>, tail: seq<bytes>)
    requires a != [] && b != [] && SameSoFar(Merge(a), Merge(b))
    ensures CanonLines(Merge(a + tail)) == CanonLines(Merge(b + tail))
    decreases |tail|
  {
    hide Merge, CanonLines, SameSoFar;
    if tail == [] {
      assert a + tail == a && b + tail == b;
      SameSoFarCanon(Merge(a), Merge(b));
    } else {
      SameMergePush(a, b, tail[0]);
      assert a + tail == (a + [tail[0]]) + tail[1..];
      assert b + tail == (b + [tail[0]]) + tail[1..];
      SameTail(a + [tail[0]], b + [tail[0]], tail[1..]);
    }
  }

  /** Growing the last physical line by a text that starts blank grows the last logical line alike. */
  lemma {:induction false} MergeGrow(segs: seq<bytes>, x: bytes)
    requires segs != [] && Last(segs) != [] && IsField(Last(Merge(segs)))
    requires x == [] || Folded(x)
    ensures var m := Merge(Front(segs) + [Last(segs) + x]);
      && m != [] && Front(m) == Front(Merge(segs))
      && Alike(Last(m), Last(Merge(segs)) + x)
  {
    var front, l := Front(segs), Last(segs);
    assert segs == front + [l];
    if front == [] {
      assert front + [l + x] == [l + x];
    } else {
      MergePush(front, l);
      MergePush(front, l + x);
      hide Merge, SkipWsp;
      if Folded(l) {
        var m := Last(Merge(front));
        assert Last(Merge(segs)) == m + Continued(l);
        GrowContinued(m, l, x);
      }
    }
  }

  lemma {:induction false} GrowContinued(m: bytes, l: bytes, x: bytes)
    requires Folded(l) && IsField(m + Continued(l))
    requires x == [] || Folded(x)
    ensures Alike(m + Continued(l + x), (m + Continued(l)) + x)
  {
    if SkipWsp(l) != [] || x == [] {
      SkipVisible(l, x);
      Assoc([SP], SkipWsp(l), x);
      Assoc(m, Continued(l), x);
    } else {
      SkipAll(l, x);
      assert Continued(l) == [SP] && Continued(l + x) == Continued(x);
      assert (m + [SP]) + x == m + ([SP] + x);
      assert IsField(m) by {
        assert COLON in m + [SP];
      }
      ContinuedWords(x);
      WordsAfterBlanks([SP], x);
      ContinueAlike(m, m, Continued(x), [SP] + x);
    }
  }

  lemma {:induction false} SkipVisible(l: bytes, x: bytes)
    requires SkipWsp(l) != [] || x == []
    ensures SkipWsp(l + x) == SkipWsp(l) + x
  {
    if l == [] || x == [] {
      assert l + x == l;
    } else {
      assert (l + x)[1..] == l[1..] + x;
      if IsWsp(l[0]) {
        SkipVisible(l[1..], x);
      }
    }
  }

  lemma {:induction false} SkipAll(l: bytes, x: bytes)
    requires SkipWsp(l) == []
    ensures SkipWsp(l + x) == SkipWsp(x)
  {
    if l == [] {
      assert l + x == x;
    } else {
      assert (l + x)[1..] == l[1..] + x;
      SkipAll(l[1..], x);
    }
  }

  // ----- the text around a gap -----

  /** Folding white space: blanks, perhaps a line break, and blanks. */
  datatype Gap = Gap(before: bytes, br: bytes, after: bytes)

  predicate IsGap(g: Gap) {
    AllWsp(g.before) && AllWsp(g.after) && g.after != [] && (g.br == [] || BreakStyle(g.br))
  }

  function GapText(g: Gap): bytes { g.before + (g.br + g.after) }

  /** Two lists of segments glued at the ends that meet. */
  function Spliced(a: seq<bytes>, b: seq<bytes>): (r: seq<bytes>)
    requires a != [] && b != []
    ensures r != []
  {
    Front(a) + ([Last(a) + b[0]] + b[1..])
  }

  lemma {:induction false} SplicePrepend(x: bytes, a: seq<bytes>, b: seq<bytes>)
    requires a != [] && b != []
    ensures Spliced([x] + a, b) == [x] + Spliced(a, b)
  {
    assert Front([x] + a) == [x] + Front(a);
    Assoc([x], Front(a), [Last(a) + b[0]] + b[1..]);
  }

  lemma {:induction false} SpliceGrow(c: byte, a: seq<bytes>, b: seq<bytes>)
    requires a != [] && b != []
    ensures Spliced([[c] + a[0]] + a[1..], b) == [[c] + Spliced(a, b)[0]] + Spliced(a, b)[1..]
  {
    if |a| == 1 {
      Assoc([c], a[0], b[0]);
    } else {
      var t := [Last(a) + b[0]] + b[1..];
      var grown := [[c] + a[0]] + a[1..];
      assert Front(grown) == [[c] + a[0]] + Front(a)[1..];
      assert (Front(a) + t)[1..] == Front(a)[1..] + t;
    }
  }

  lemma {:induction false} SegmentsConcatStep(a: bytes, b: bytes)
    requires a != [] && !(CRLF <= a) && !(CRLF <= a + b)
    requires Segments(a[1..] + b) == Spliced(Segments(a[1..]), Segments(b))
    ensures Segments(a + b) == Spliced(Segments(a), Segments(b))
  {
    hide Spliced;
    assert (a + b)[1..] == a[1..] + b;
    assert (a + b)[0] == a[0];
    if IsBreak(a[0]) {
      SplicePrepend([], Segments(a[1..]), Segments(b));
    } else {
      SpliceGrow(a[0], Segments(a[1..]), Segments(b));
    }
  }

  lemma {:induction false} SegmentsConcat(a: bytes, b: bytes)
    requires a == [] || a[|a| - 1] != CR || b == [] || b[0] != LF
    ensures Segments(a + b) == Spliced(Segments(a), Segments(b))
    decreases |a|
  {
    if a == [] {
      assert a + b == b;
      assert [] + Segments(b)[0] == Segments(b)[0];
    } else if CRLF <= a {
      hide Spliced;
      assert (a + b)[2..] == a[2..] + b;
      SegmentsConcat(a[2..], b);
      SplicePrepend([], Segments(a[2..]), Segments(b));
    } else {
      hide Segments, Spliced;
      SegmentsConcat(a[1..], b);
      var t := a + b;
      assert |t| < 2 || t[0] != CR || t[1] != LF;
      SegmentsConcatStep(a, b);
    }
  }

  /** The last logical line went on with the given words. */
  ghost predicate Grown(lines: seq<bytes>, was: seq<bytes>, ws: seq<bytes>)
    requires was != [] && IsField(Last(was))
  {
    && lines != [] && Front(lines) == Front(was) && IsField(Last(lines))
    && Name(Last(lines)) == Name(Last(was))
    && Words(Value(Last(lines))) == Words(Value(Last(was))) + ws
  }

  lemma {:induction false} GrownBy(lines: seq<bytes>, was: seq<bytes>, x: bytes)
    requires lines != [] && was != [] && IsField(Last(was)) && Front(lines) == Front(was)
    requires Folded(x) && Alike(Last(lines), Last(was) + x)
    ensures Grown(lines, was, Words(x))
  {
    FieldAppend(Last(was), x);
    WordsAppend(Value(Last(was)), x);
  }

  lemma {:induction false} LastSegment(a: bytes)
    requires a != [] && IsBreak(a[|a| - 1])
    ensures Last(Segments(a)) == []
    decreases |a|
  {
    if |a| == 1 || a == CRLF {
    } else if CRLF <= a {
      LastSegment(a[2..]);
    } else {
      LastSegment(a[1..]);
      if |Segments(a[1..])| == 1 {
        OneSegment(a[1..]);
      }
    }
  }

  /** The text reaches into the value of a field. */
  ghost predicate InValue(a: bytes) { Last(Segments(a)) != [] && IsField(Last(Merge(Segments(a)))) }

  lemma {:induction false} BlankOneLine(w: bytes, b: bytes)
    requires AllWsp(w)
    ensures Segments(w + b) == [w + Segments(b)[0]] + Segments(b)[1..]
  {
    if w == [] {
      assert w + b == b;
      assert w + Segments(b)[0] == Segments(b)[0];
    } else {
      assert (w + b)[1..] == w[1..] + b;
      BlankOneLine(w[1..], b);
      Assoc([w[0]], w[1..], Segments(b)[0]);
      assert [w[0]] + w[1..] == w;
      assert !(CRLF <= w + b) && !IsBreak((w + b)[0]);
    }
  }

  /** The physical lines of a text with a gap, up to the end of the line after the gap. */
  ghost function GapLines(a: seq<bytes>, g: Gap, next: bytes): (r: seq<bytes>)
    requires a != []
    ensures r != []
  {
    if g.br == [] then Front(a) + [Last(a) + (g.before + g.after + next)]
    else (Front(a) + [Last(a) + g.before]) + [g.after + next]
  }

  /** The physical lines of a gap and what follows it. */
  ghost function AfterGap(g: Gap, b: seq<bytes>): (r: seq<bytes>)
    requires b != []
    ensures r != []
  {
    if g.br == [] then [g.before + g.after + b[0]] + b[1..] else [g.before] + ([g.after + b[0]] + b[1..])
  }

  lemma {:induction false} AfterGapSegments(g: Gap, b: bytes)
    requires IsGap(g)
    ensures Segments(GapText(g) + b) == AfterGap(g, Segments(b))
  {
    if g.br == [] {
      assert g.br + g.after == g.after;
      BlankOneLine(g.before + g.after, b);
    } else {
      assert GapText(g) + b == g.before + (g.br + (g.after + b));
      SegmentsOfBreak(g.before, g.br, g.after + b);
      BlankOneLine(g.after, b);
    }
  }

  lemma {:induction false} SpliceGap(a: seq<bytes>, g: Gap, b: seq<bytes>)
    requires a != [] && b != []
    ensures Spliced(a, AfterGap(g, b)) == GapLines(a, g, b[0]) + b[1..]
  {
    if g.br == [] {
      assert AfterGap(g, b)[1..] == b[1..];
    } else {
      assert AfterGap(g, b)[1..] == [g.after + b[0]] + b[1..];
    }
  }

  lemma {:induction false} GapSegments(a: bytes, g: Gap, b: bytes)
    requires InValue(a) && IsGap(g)
    ensures Segments(a + (GapText(g) + b)) == GapLines(Segments(a), g, Segments(b)[0]) + Segments(b)[1..]
  {
    if a != [] && IsBreak(a[|a| - 1]) {
      LastSegment(a);
    }
    hide Segments, AfterGap, GapLines, Spliced;
    SegmentsConcat(a, GapText(g) + b);
    AfterGapSegments(g, b);
    SpliceGap(Segments(a), g, Segments(b));
  }

  lemma {:induction false} GapGrows(sa: seq<bytes>, g: Gap, next: bytes)
    requires sa != [] && Last(sa) != [] && IsField(Last(Merge(sa))) && IsGap(g)
    ensures Grown(Merge(GapLines(sa, g, next)), Merge(sa), Words(next))
  {
    var m := Merge(sa);
    if g.br == [] {
      var x := g.before + g.after + next;
      MergeGrow(sa, x);
      WordsAfterBlanks(g.before + g.after, next);
      GrownBy(Merge(GapLines(sa, g, next)), m, x);
    } else {
      MergeGrow(sa, g.before);
      GapBreak(Merge(Front(sa) + [Last(sa) + g.before]), m, g, next);
      MergePush(Front(sa) + [Last(sa) + g.before], g.after + next);
    }
  }

  lemma {:induction false} GapBreak(lines: seq<bytes>, was: seq<bytes>, g: Gap, next: bytes)
    requires was != [] && lines != [] && IsField(Last(was)) && IsGap(g)
    requires Front(lines) == Front(was) && Alike(Last(lines), Last(was) + g.before)
    ensures Grown(Front(lines) + [Last(lines) + Continued(g.after + next)], was, Words(next))
  {
    var more := Continued(g.after + next);
    var x := g.before + more;
    ContinuedWords(g.after + next);
    WordsAfterBlanks(g.after, next);
    WordsAfterBlanks(g.before, more);
    FieldAppend(Last(was), g.before);
    ContinueAlike(Last(lines), Last(was) + g.before, more, more);
    Assoc(Last(was), g.before, more);
    var grown := Front(lines) + [Last(lines) + more];
    assert Front(grown) == Front(lines);
    GrownBy(grown, was, x);
  }

  /** Refolding a value, or changing the blanks between two of its words, does not change the canonical header. */
  lemma {:induction false} HeaderCIgnoresFolding(a: bytes, g: Gap, h: Gap, b: bytes)
    requires InValue(a) && IsGap(g) && IsGap(h)
    ensures HeaderC(a + (GapText(g) + b)) == HeaderC(a + (GapText(h) + b))
  {
    var sa, sb := Segments(a), Segments(b);
    GapSegments(a, g, b);
    GapSegments(a, h, b);
    GapGrows(sa, g, sb[0]);
    GapGrows(sa, h, sb[0]);
    SameTail(GapLines(sa, g, sb[0]), GapLines(sa, h, sb[0]), sb[1..]);
  }

  // ----- ordinary fields -----

  /** A field on one line: a name, then blanks, a colon, and words one space apart between blanks. */
  datatype Ordinary = Ordinary(name: bytes, before: bytes, lead: bytes, words: seq<bytes>, trail: bytes)

  ghost predicate IsOrdinary(f: Ordinary) {
    && f.name != [] && (forall i :: 0 <= i < |f.name| ==> f.name[i] !in {9, 10, 13, 32, 58})
    && (forall i :: 0 <= i < |f.before| ==> f.before[i] in {9, 32})
    && (forall i :: 0 <= i < |f.lead| ==> f.lead[i] in {9, 32})
    && (forall i :: 0 <= i < |f.trail| ==> f.trail[i] in {9, 32})
    && forall k :: 0 <= k < |f.words| ==>
      f.words[k] != [] && forall i :: 0 <= i < |f.words[k]| ==> f.words[k][i] !in {9, 10, 13, 32}
  }

  function Given(f: Ordinary): bytes {
    f.name + f.before + ([58] + (f.lead + (Join(f.words, [32]) + f.trail)))
  }

  function Signed(f: Ordinary): bytes { Lower(f.name) + ([58] + Join(f.words, [32])) }

  lemma {:induction false} LowerBlank(name: bytes, before: bytes)
    requires name != [] && forall i :: 0 <= i < |name| ==> name[i] !in {9, 32}
    requires forall i :: 0 <= i < |before| ==> before[i] in {9, 32}
    ensures TrimWsp(Lower(name + before)) == Lower(name)
  {
    LowerConcat(name, before);
    assert AllWsp(Lower(before));
    var l := Lower(name);
    assert !IsWsp(l[0]) && !IsWsp(l[|l| - 1]);
    assert (l + Lower(before))[0] == l[0];
    hide Lower;
    TrimBlanks(l, Lower(before));
  }

  lemma {:induction false} WordsBetween(lead: bytes, ws: seq<bytes>, trail: bytes)
    requires AllWsp(lead) && AllWsp(trail) && forall k :: 0 <= k < |ws| ==> Visible(ws[k])
    ensures Words(lead + (Join(ws, [SP]) + trail)) == ws
  {
    WordsAfterBlanks(lead, Join(ws, [SP]) + trail);
    WordsAppend(Join(ws, [SP]), trail);
    WordsOfJoin(ws);
    WordsAfterBlanks(trail, []);
    assert trail + [] == trail;
    assert ws + [] == ws;
  }

  lemma {:induction false} SignedIsCanon(f: Ordinary)
    requires IsOrdinary(f)
    ensures CanonLine(Given(f)) == Signed(f)
  {
    var left, right := f.name + f.before, f.lead + (Join(f.words, [32]) + f.trail);
    LowerBlank(f.name, f.before);
    assert COLON !in left;
    forall k | 0 <= k < |f.words| ensures Visible(f.words[k]) {
      assert f.words[k] != [];
    }
    WordsBetween(f.lead, f.words, f.trail);
    hide IsOrdinary, TrimWsp, Words, Join, Lower, Visible;
    IndexAfter(left, COLON, right);
    var line := left + ([58] + right);
    assert line[..|left|] == left && line[|left| + 1..] == right;
  }

  lemma {:induction false} GivenOneLine(f: Ordinary)
    requires IsOrdinary(f)
    ensures OneLine(Given(f)) && !Folded(Given(f))
  {
    forall k | 0 <= k < |f.words| ensures OneLine(f.words[k]) {
      assert f.words[k] != [];
    }
    SpacedOneLine(f.words);
    assert Given(f)[0] == f.name[0];
  }

  /** Any block of ordinary fields, in any break style: names in small letters with nothing before the colon, words one
      space apart, nothing at either end. */
  lemma {:induction false} OrdinaryFields(fs: seq<Ordinary>, given: seq<bytes>, signed: seq<bytes>, br: bytes)
    requires fs != [] && br in {[10], [13], [13, 10]} && |given| == |signed| == |fs|
    requires forall i :: 0 <= i < |fs| ==> IsOrdinary(fs[i]) && given[i] == Given(fs[i]) && signed[i] == Signed(fs[i])
    ensures HeaderC(Join(given, br)) == Join(signed, [13, 10])
  {
    forall i | 0 <= i < |fs| ensures OneLine(given[i]) && !Folded(given[i]) && CanonLine(given[i]) == signed[i] {
      GivenOneLine(fs[i]);
      SignedIsCanon(fs[i]);
    }
    hide Given, Signed, IsOrdinary, CanonLine, OneLine;
    SegmentsOfJoin(given, br);
    MergeLength(given);
    assert CanonLines(given) == signed;
  }
}
