/** DKIM header canonicalisation ("relaxed") and body canonicalisation ("simple"). */
module Dkim {
  import opened Bytes
  import opened LineBreaks

  const COLON: byte := 58

  predicate IsWsp(b: byte) { b == SP || b == TAB }

  predicate AllWsp(s: bytes) { forall i :: 0 <= i < |s| ==> IsWsp(s[i]) }

  // ----- the string operations used -----

  /** `ltrim($s, " \t")`. */
  function SkipWsp(s: bytes): (r: bytes)
    ensures |r| <= |s|
    ensures r != [] ==> !IsWsp(r[0])
  {
    if s != [] && IsWsp(s[0]) then SkipWsp(s[1..]) else s
  }

  function TrimRightWsp(s: bytes): bytes {
    if s != [] && IsWsp(s[|s| - 1]) then TrimRightWsp(s[..|s| - 1]) else s
  }

  /** `trim($s, " \t")`. */
  function TrimWsp(s: bytes): bytes { TrimRightWsp(SkipWsp(s)) }

  /** Each run of blanks becomes one space. */
  function Collapse(s: bytes): bytes
    decreases |s|
  {
    if s == [] then []
    else if IsWsp(s[0]) then [SP] + Collapse(SkipWsp(s[1..]))
    else [s[0]] + Collapse(s[1..])
  }

  /** A CRLF with the blanks after it becomes one space. */
  function UnfoldText(s: bytes): bytes
    decreases |s|
  {
    if s == [] then []
    else if |s| >= 3 && CRLF <= s && IsWsp(s[2]) then [SP] + UnfoldText(SkipWsp(s[2..]))
    else [s[0]] + UnfoldText(s[1..])
  }

  // ----- reading a header block -----

  predicate Folded(s: bytes) { s != [] && IsWsp(s[0]) }

  /** The logical lines of a block given by its physical lines. */
  function Merge(segs: seq<bytes>): (r: seq<bytes>)
    ensures |r| <= |segs|
    ensures segs != [] ==> r != []
    decreases |segs|
  {
    if |segs| <= 1 then segs
    else if Folded(segs[1]) then Merge([segs[0] + ([SP] + SkipWsp(segs[1]))] + segs[2..])
    else [segs[0]] + Merge(segs[1..])
  }

  /** The blank-separated words of a text. */
  function Words(s: bytes): (r: seq<bytes>)
    ensures s != [] && !IsWsp(s[0]) ==> r != []
  {
    if s == [] then []
    else if IsWsp(s[0]) then Words(s[1..])
    else if |s| == 1 || IsWsp(s[1]) then [[s[0]]] + Words(s[1..])
    else
      var t := Words(s[1..]);
      [[s[0]] + t[0]] + t[1..]
  }

  /** A logical line in canonical form: lower-case trimmed name, the value's words one space apart. */
  function CanonLine(line: bytes): bytes {
    var i := IndexOf(line, COLON);
    if i == |line| then line
    else TrimWsp(Lower(line[..i])) + ([COLON] + Join(Words(line[i + 1..]), [SP]))
  }

  function CanonLines(lines: seq<bytes>): (r: seq<bytes>)
    ensures |r| == |lines|
    ensures forall i :: 0 <= i < |lines| ==> r[i] == CanonLine(lines[i])
  {
    seq(|lines|, i requires 0 <= i < |lines| => CanonLine(lines[i]))
  }

  /** What section 3.4.2 of RFC 6376 asks for, from the logical lines. */
  function HeaderC(block: bytes): bytes { Join(CanonLines(Merge(Segments(block))), CRLF) }

  // ----- collapsing and trimming leaves the words -----

  lemma {:induction false} WordsAppend(a: bytes, b: bytes)
    requires b == [] || IsWsp(b[0])
    ensures Words(a + b) == Words(a) + Words(b)
  {
    if a == [] {
      assert a + b == b;
    } else {
      WordsAppend(a[1..], b);
      assert (a + b)[1..] == a[1..] + b;
    }
  }

  lemma {:induction false} WordsSkip(s: bytes)
    ensures Words(SkipWsp(s)) == Words(s)
  {
    if s != [] && IsWsp(s[0]) {
      WordsSkip(s[1..]);
    }
  }

  lemma {:induction false} WordsAfterBlanks(w: bytes, s: bytes)
    requires AllWsp(w)
    ensures Words(w + s) == Words(s)
  {
    if w == [] {
      assert w + s == s;
    } else {
      WordsAfterBlanks(w[1..], s);
      assert (w + s)[1..] == w[1..] + s;
    }
  }

  /** One word, a run of blanks, and what follows it. */
  lemma {:induction false} CollapseRun(s: bytes, r: bytes)
    requires |s| > 1 && !IsWsp(s[0]) && IsWsp(s[1]) && r == SkipWsp(s[2..])
    ensures Collapse(s) == [s[0]] + ([SP] + Collapse(r))
    ensures Words(s) == [[s[0]]] + Words(r)
  {
    assert s[1..][1..] == s[2..];
    WordsSkip(s[2..]);
  }

  /** Collapsing puts the words one space apart, but for blanks at the end. */
  lemma {:induction false} CollapseForm(s: bytes) returns (trail: bytes)
    requires !Folded(s)
    ensures Collapse(s) == Join(Words(s), [SP]) + trail
    ensures AllWsp(trail)
    decreases |s|
  {
    if |s| <= 1 {
      trail := [];
    } else if IsWsp(s[1]) {
      var r := SkipWsp(s[2..]);
      CollapseRun(s, r);
      if r == [] {
        trail := [SP];
      } else {
        trail := CollapseForm(r);
        Assoc([s[0]] + [SP], Join(Words(r), [SP]), trail);
        Assoc([s[0]], [SP], Collapse(r));
      }
    } else {
      trail := CollapseForm(s[1..]);
      JoinPrepend(s[0], Words(s[1..]), [SP]);
      Assoc([s[0]], Join(Words(s[1..]), [SP]), trail);
    }
  }

  /** The words hold no blank and none is empty, so their join starts and ends with a visible byte. */
  lemma {:induction false} WordsEdges(s: bytes)
    ensures forall i :: 0 <= i < |Words(s)| ==> Visible(Words(s)[i])
    ensures var j := Join(Words(s), [SP]); Words(s) != [] ==> j != [] && !IsWsp(j[0]) && !IsWsp(j[|j| - 1])
  {
    WordsVisible(s);
    JoinEdges(Words(s));
  }

  predicate Visible(w: bytes) { w != [] && forall i :: 0 <= i < |w| ==> !IsWsp(w[i]) }

  lemma {:induction false} WordsVisible(s: bytes)
    ensures forall i :: 0 <= i < |Words(s)| ==> Visible(Words(s)[i])
  {
    if s != [] {
      WordsVisible(s[1..]);
    }
  }

  lemma {:induction false} JoinEdges(ws: seq<bytes>)
    requires forall i :: 0 <= i < |ws| ==> Visible(ws[i])
    ensures var j := Join(ws, [SP]); ws != [] ==> j != [] && !IsWsp(j[0]) && !IsWsp(j[|j| - 1])
  {
    if |ws| > 1 {
      JoinEdges(ws[1..]);
    }
  }

  lemma {:induction false} SkipBlanks(lead: bytes, s: bytes)
    requires AllWsp(lead) && !Folded(s)
    ensures SkipWsp(lead + s) == s
  {
    if lead == [] {
      assert lead + s == s;
    } else {
      assert (lead + s)[1..] == lead[1..] + s;
      SkipBlanks(lead[1..], s);
    }
  }

  lemma {:induction false} TrimBlanks(s: bytes, trail: bytes)
    requires AllWsp(trail) && (s != [] ==> !IsWsp(s[|s| - 1]))
    ensures TrimRightWsp(s + trail) == s
  {
    if trail == [] {
      assert s + trail == s;
    } else {
      assert (s + trail)[..|s + trail| - 1] == s + trail[..|trail| - 1];
      TrimBlanks(s, trail[..|trail| - 1]);
    }
  }

  lemma {:induction false} TrimCollapsed(v: bytes)
    requires !Folded(v)
    ensures TrimRightWsp(Collapse(v)) == Join(Words(v), [SP])
    ensures !Folded(Collapse(v))
  {
    var trail := CollapseForm(v);
    WordsEdges(v);
    TrimBlanks(Join(Words(v), [SP]), trail);
  }

  /** Collapsing the runs and trimming the ends puts the words one space apart. */
  lemma {:induction false} CollapseIsWords(v: bytes)
    ensures TrimWsp(Collapse(v)) == Join(Words(v), [SP])
  {
    if Folded(v) {
      var r := SkipWsp(v[1..]);
      TrimCollapsed(r);
      SkipBlanks([SP], Collapse(r));
      WordsSkip(v[1..]);
    } else {
      TrimCollapsed(v);
    }
  }

  // ----- unfolding is merging -----

  lemma {:induction false} UnfoldPrefix(line: bytes, rest: bytes)
    requires OneLine(line)
    ensures UnfoldText(line + rest) == line + UnfoldText(rest)
  {
    if line == [] {
      assert line + rest == rest;
    } else {
      assert (line + rest)[1..] == line[1..] + rest;
      UnfoldPrefix(line[1..], rest);
    }
  }

  lemma {:induction false} SkipThrough(seg: bytes, rest: bytes)
    requires !Folded(rest)
    ensures SkipWsp(seg + rest) == SkipWsp(seg) + rest
  {
    if seg == [] {
      assert seg + rest == rest;
    } else {
      assert (seg + rest)[1..] == seg[1..] + rest;
      SkipThrough(seg[1..], rest);
    }
  }

  lemma {:induction false} SkipOneLine(s: bytes)
    requires OneLine(s)
    ensures OneLine(SkipWsp(s))
  {
    if s != [] && IsWsp(s[0]) {
      SkipOneLine(s[1..]);
    }
  }

  /** All physical lines after the first, each behind its CRLF. */
  function After(segs: seq<bytes>): (r: bytes)
    ensures !Folded(r)
  {
    if segs == [] then [] else CRLF + (segs[0] + After(segs[1..]))
  }

  lemma {:induction false} JoinAfter(segs: seq<bytes>)
    requires segs != []
    ensures Join(segs, CRLF) == segs[0] + After(segs[1..])
  {
    if |segs| > 1 {
      JoinAfter(segs[1..]);
      Assoc(segs[0], CRLF, Join(segs[1..], CRLF));
    } else {
      assert segs[0] + [] == segs[0];
    }
  }

  lemma {:induction false} UnfoldFolded(s: bytes, rest: bytes)
    requires OneLine(s) && !Folded(rest) && Folded(s)
    ensures UnfoldText(CRLF + (s + rest)) == [SP] + (SkipWsp(s) + UnfoldText(rest))
  {
    var t := CRLF + (s + rest);
    assert t[2..] == s + rest;
    assert t[2] == s[0];
    SkipThrough(s, rest);
    SkipOneLine(s);
    UnfoldPrefix(SkipWsp(s), rest);
  }

  lemma {:induction false} UnfoldPlain(s: bytes, rest: bytes)
    requires OneLine(s) && !Folded(rest) && !Folded(s)
    ensures UnfoldText(CRLF + (s + rest)) == CRLF + (s + UnfoldText(rest))
  {
    var t := CRLF + (s + rest);
    assert |t| >= 3 ==> t[2] == (s + rest)[0];
    assert s == [] ==> s + rest == rest;
    assert t[1..] == [LF] + (s + rest);
    assert ([LF] + (s + rest))[1..] == s + rest;
    UnfoldPrefix(s, rest);
  }

  /** Unfolding the text is merging its physical lines. */
  lemma {:induction false} UnfoldIsMerge(segs: seq<bytes>)
    requires segs != [] && AllOneLine(segs)
    ensures UnfoldText(Join(segs, CRLF)) == Join(Merge(segs), CRLF)
    ensures AllOneLine(Merge(segs))
    decreases |segs|
  {
    JoinAfter(segs);
    if |segs| == 1 {
      UnfoldPrefix(segs[0], []);
    } else if Folded(segs[1]) {
      UnfoldMerged(segs);
    } else {
      UnfoldIsMerge(segs[1..]);
      UnfoldKept(segs);
    }
  }

  lemma {:induction false} UnfoldMerged(segs: seq<bytes>)
    requires |segs| > 1 && AllOneLine(segs) && Folded(segs[1])
    ensures UnfoldText(Join(segs, CRLF)) == Join(Merge(segs), CRLF)
    ensures AllOneLine(Merge(segs))
    decreases |segs|, 0
  {
    var first := segs[0] + ([SP] + SkipWsp(segs[1]));
    var next := [first] + segs[2..];
    SkipOneLine(segs[1]);
    assert OneLine(first);
    assert AllOneLine(next);
    UnfoldIsMerge(next);
    JoinAfter(segs);
    JoinAfter(next);
    assert segs[1..][0] == segs[1] && segs[1..][1..] == segs[2..] && next[1..] == segs[2..];
    UnfoldStep(segs[0], segs[1], After(segs[2..]), first);
  }

  lemma {:induction false} UnfoldStep(a: bytes, s: bytes, rest: bytes, first: bytes)
    requires OneLine(a) && OneLine(s) && Folded(s) && !Folded(rest) && first == a + ([SP] + SkipWsp(s))
    ensures UnfoldText(a + (CRLF + (s + rest))) == UnfoldText(first + rest)
  {
    SkipOneLine(s);
    UnfoldPrefix(a, CRLF + (s + rest));
    UnfoldFolded(s, rest);
    UnfoldPrefix(first, rest);
    Assoc([SP], SkipWsp(s), UnfoldText(rest));
    Assoc(a, [SP] + SkipWsp(s), UnfoldText(rest));
  }

  lemma {:induction false} UnfoldKept(segs: seq<bytes>)
    requires |segs| > 1 && AllOneLine(segs) && !Folded(segs[1])
    requires UnfoldText(Join(segs[1..], CRLF)) == Join(Merge(segs[1..]), CRLF)
    ensures UnfoldText(Join(segs, CRLF)) == Join([segs[0]] + Merge(segs[1..]), CRLF)
  {
    var rest := After(segs[2..]);
    JoinAfter(segs);
    JoinAfter(segs[1..]);
    assert segs[1..][0] == segs[1] && segs[1..][1..] == segs[2..];
    UnfoldPrefix(segs[0], CRLF + (segs[1] + rest));
    UnfoldPlain(segs[1], rest);
    UnfoldPrefix(segs[1], rest);
    Assoc(segs[0], CRLF, Join(Merge(segs[1..]), CRLF));
  }

  // ----- the operation -----

  lemma {:induction false} LogicalLines(block: bytes)
    ensures CrlfLines(UnfoldText(NormalizeBreaks(block, CRLF))) == Merge(Segments(block))
    ensures AllOneLine(Merge(Segments(block)))
  {
    NormalizeIsJoin(block, CRLF);
    SegmentsOneLine(block);
    UnfoldIsMerge(Segments(block));
    CrlfLinesOfJoin(Merge(Segments(block)));
  }

  /** One turn of the loop in `DKIM_HeaderC`. */
  method CanonicalizeLine(line: bytes) returns (r: bytes)
    ensures r == CanonLine(line)
  {
    var i := IndexOf(line, COLON);
    if i == |line| {
      return line;
    }
    var heading, value := Lower(line[..i]), Collapse(line[i + 1..]);
    CollapseIsWords(line[i + 1..]);
    r := TrimWsp(heading) + ([COLON] + TrimWsp(value));
  }

  method CanonicalizeLines(given: seq<bytes>) returns (lines: seq<bytes>)
    ensures lines == CanonLines(given)
  {
    lines := given;
    var key := 0;
    while key < |lines|
      invariant 0 <= key <= |lines| == |given|
      invariant forall k :: 0 <= k < key ==> lines[k] == CanonLine(given[k])
      invariant forall k :: key <= k < |lines| ==> lines[k] == given[k]
    {
      var line := CanonicalizeLine(lines[key]);
      lines := lines[key := line];
      key := key + 1;
    }
  }

  /** `DKIM_HeaderC`. */
  method DkimHeaderC(signHeader: bytes) returns (canonical: bytes)
    ensures canonical == HeaderC(signHeader)
  {
    var text := UnfoldText(NormalizeBreaks(signHeader, CRLF));
    LogicalLines(signHeader);
    var lines := CanonicalizeLines(CrlfLines(text));
    canonical := Join(lines, CRLF);
  }
}
