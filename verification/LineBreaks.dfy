/** Line-break normalisation and the one-pass line iterator. */
module LineBreaks {
  import opened Bytes

  /** `PHPMailer::normalizeBreaks`: CRLF and lone CR become LF, then LF becomes `br`. */
  function NormalizeBreaks(text: bytes, br: bytes): bytes {
    var t := Replace(Replace(text, CRLF, [LF]), [CR], [LF]);
    if br == [LF] then t else Replace(t, [LF], br)
  }

  /** The three break styles the library knows. */
  predicate BreakStyle(br: bytes) { br == [LF] || br == [CR] || br == CRLF }

  /** Reference reading of a text: the lines between breaks, a break being CRLF, CR or LF. */
  function Segments(s: bytes): (r: seq<bytes>)
    ensures |r| > 0
    decreases |s|
  {
    if s == [] then [[]]
    else if CRLF <= s then [[]] + Segments(s[2..])
    else if IsBreak(s[0]) then [[]] + Segments(s[1..])
    else
      var t := Segments(s[1..]);
      [[s[0]] + t[0]] + t[1..]
  }

  predicate AllOneLine(segs: seq<bytes>) { forall i :: 0 <= i < |segs| ==> OneLine(segs[i]) }

  lemma {:induction false} SegmentsOneLine(s: bytes)
    ensures AllOneLine(Segments(s))
    decreases |s|
  {
    if s == [] {
    } else if CRLF <= s {
      SegmentsOneLine(s[2..]);
    } else {
      SegmentsOneLine(s[1..]);
    }
  }

  lemma {:induction false} OneSegment(s: bytes)
    requires |Segments(s)| == 1
    ensures Segments(s) == [s]
    decreases |s|
  {
    if s != [] {
      OneSegment(s[1..]);
      assert [s[0]] + s[1..] == s;
    }
  }

  /** A break-free run followed by a break closes exactly one segment. */
  lemma {:induction false} SegmentsStep(seg: bytes, rest: bytes)
    requires OneLine(seg)
    requires rest == [] || IsBreak(rest[0])
    ensures rest == [] ==> Segments(seg + rest) == [seg]
    ensures CRLF <= rest ==> Segments(seg + rest) == [seg] + Segments(rest[2..])
    ensures rest != [] && !(CRLF <= rest) ==> Segments(seg + rest) == [seg] + Segments(rest[1..])
  {
    if seg == [] {
      assert seg + rest == rest;
    } else {
      SegmentsStep(seg[1..], rest);
      assert (seg + rest)[1..] == seg[1..] + rest;
      assert [seg[0]] + seg[1..] == seg;
    }
  }

  /** Normalising is re-joining the segments with the wanted break. */
  lemma {:induction false} NormalizeIsJoin(s: bytes, br: bytes)
    ensures NormalizeBreaks(s, br) == Join(Segments(s), br)
  {
    ToLfIsJoin(s);
    if br != [LF] {
      SegmentsOneLine(s);
      LfToIsJoin(Segments(s), br);
    }
  }

  lemma {:induction false} ToLfIsJoin(s: bytes)
    ensures Replace(Replace(s, CRLF, [LF]), [CR], [LF]) == Join(Segments(s), [LF])
    decreases |s|
  {
    if s == [] {
    } else if CRLF <= s {
      ToLfIsJoin(s[2..]);
      ReplaceSkip([LF], Replace(s[2..], CRLF, [LF]), CR, [LF]);
    } else {
      ToLfIsJoin(s[1..]);
      var t := Replace(s[1..], CRLF, [LF]);
      if s[0] == CR {
        assert ([CR] + t)[1..] == t;
      } else {
        ReplaceSkip([s[0]], t, CR, [LF]);
        if !IsBreak(s[0]) {
          JoinPrepend(s[0], Segments(s[1..]), [LF]);
        }
      }
    }
  }

  lemma {:induction false} JoinPrepend(b: byte, segs: seq<bytes>, br: bytes)
    requires segs != []
    ensures Join([[b] + segs[0]] + segs[1..], br) == [b] + Join(segs, br)
  {
  }

  lemma {:induction false} LfToIsJoin(segs: seq<bytes>, br: bytes)
    requires AllOneLine(segs)
    ensures Replace(Join(segs, [LF]), [LF], br) == Join(segs, br)
  {
    if segs == [] {
    } else if |segs| == 1 {
      ReplaceSkip(segs[0], [], LF, br);
      assert segs[0] + [] == segs[0];
    } else {
      var rest := Join(segs[1..], [LF]);
      LfToIsJoin(segs[1..], br);
      ReplaceSkip(segs[0], [LF] + rest, LF, br);
      assert ([LF] + rest)[1..] == rest;
      assert segs[0] + [LF] + rest == segs[0] + ([LF] + rest);
    }
  }

  /** Reading back joined lines gives the lines: no break is merged, split or lost. */
  lemma {:induction false} SegmentsOfJoin(segs: seq<bytes>, br: bytes)
    requires segs != [] && AllOneLine(segs) && BreakStyle(br)
    ensures Segments(Join(segs, br)) == segs
  {
    if |segs| == 1 {
      SegmentsStep(segs[0], []);
      assert segs[0] + [] == segs[0];
    } else {
      var rest := Join(segs[1..], br);
      assert Segments(rest) == segs[1..] by { SegmentsOfJoin(segs[1..], br); }
      assert Join(segs, br) == segs[0] + (br + rest);
      SegmentsOfBreak(segs[0], br, rest) by { JoinHead(segs[1..], br); }
    }
  }

  lemma {:induction false} SegmentsOfBreak(seg: bytes, br: bytes, rest: bytes)
    requires OneLine(seg) && BreakStyle(br)
    requires br == [CR] && rest != [] ==> rest[0] != LF
    ensures Segments(seg + (br + rest)) == [seg] + Segments(rest)
  {
    SegmentsStep(seg, br + rest);
    assert (br + rest)[|br|..] == rest;
  }

  /** A joined text never starts with LF unless LF itself is the break. */
  lemma {:induction false} JoinHead(segs: seq<bytes>, br: bytes)
    requires segs != [] && AllOneLine(segs) && BreakStyle(br)
    ensures var t := Join(segs, br); br != [LF] && t != [] ==> t[0] != LF
  {
  }

  /** Normalising to one style and then another is normalising straight to the second. */
  lemma {:induction false} NormalizeAbsorbs(s: bytes, first: bytes, second: bytes)
    requires BreakStyle(first) && BreakStyle(second)
    ensures NormalizeBreaks(NormalizeBreaks(s, first), second) == NormalizeBreaks(s, second)
  {
    NormalizeIsJoin(s, first);
    NormalizeIsJoin(NormalizeBreaks(s, first), second);
    NormalizeIsJoin(s, second);
    SegmentsOneLine(s);
    SegmentsOfJoin(Segments(s), first);
  }

  lemma {:induction false} SplitOfJoin(segs: seq<bytes>, b: byte)
    requires segs != [] && forall i :: 0 <= i < |segs| ==> b !in segs[i]
    ensures SplitOn(Join(segs, [b]), b) == segs
  {
    var t := Join(segs, [b]);
    if |segs| == 1 {
      assert b !in segs[0];
    } else {
      var rest := Join(segs[1..], [b]);
      assert t == segs[0] + ([b] + rest);
      assert b !in segs[0];
      var i := IndexOf(t, b);
      assert t[|segs[0]|] == b;
      assert i == |segs[0]|;
      assert t[..i] == segs[0] && t[i + 1..] == rest;
      SplitOfJoin(segs[1..], b);
    }
  }

  lemma {:induction false} SegmentsAreNormalizedSplit(s: bytes)
    ensures Segments(s) == SplitOn(NormalizeBreaks(s, [LF]), LF)
  {
    NormalizeIsJoin(s, [LF]);
    SegmentsOneLine(s);
    SplitOfJoin(Segments(s), LF);
  }

  /** Where the run of break-free bytes from `start` ends at a break at `i`, one line is complete. */
  lemma {:induction false} SegmentsCut(s: bytes, start: nat, i: nat, next: nat)
    requires start <= i < |s| && OneLine(s[start..i]) && IsBreak(s[i])
    requires next == i + (if s[i] == CR && i + 1 < |s| && s[i + 1] == LF then 2 else 1)
    ensures Segments(s[start..]) == [s[start..i]] + Segments(s[next..])
  {
    SegmentsStep(s[start..i], s[i..]);
    assert s[start..i] + s[i..] == s[start..];
    assert CRLF <= s[i..] <==> next == i + 2;
    assert s[i..][next - i..] == s[next..];
  }

  lemma {:induction false} SegmentsEnd(s: bytes, start: nat)
    requires start <= |s| && OneLine(s[start..])
    ensures Segments(s[start..]) == [s[start..]]
  {
    SegmentsStep(s[start..], []);
    assert s[start..] + [] == s[start..];
  }

  /** Lines already out, the line being scanned, and what is left make up the text. */
  ghost predicate Scanning(s: bytes, lines: seq<bytes>, start: nat, i: nat) {
    start <= i <= |s| && OneLine(s[start..i]) && lines + Segments(s[start..]) == Segments(s)
  }

  lemma {:induction false} ScanBreak(s: bytes, lines: seq<bytes>, start: nat, i: nat, next: nat)
    requires Scanning(s, lines, start, i) && i < |s| && IsBreak(s[i])
    requires next == i + (if s[i] == CR && i + 1 < |s| && s[i + 1] == LF then 2 else 1)
    ensures Scanning(s, lines + [s[start..i]], next, next)
  {
    SegmentsCut(s, start, i, next);
    Assoc(lines, [s[start..i]], Segments(s[next..]));
  }

  lemma {:induction false} ScanOn(s: bytes, lines: seq<bytes>, start: nat, i: nat)
    requires Scanning(s, lines, start, i) && i < |s| && !IsBreak(s[i])
    ensures Scanning(s, lines, start, i + 1)
  {
    assert s[start..i + 1] == s[start..i] + [s[i]];
  }

  /** `SMTP::iterateLines`: one pass with a look-ahead for CRLF. */
  method IterateLines(s: bytes) returns (lines: seq<bytes>)
    ensures lines == SplitOn(NormalizeBreaks(s, [LF]), LF)
    ensures lines == Segments(s)
  {
    lines := [];
    var start, i := 0, 0;
    assert Scanning(s, lines, start, i) by {
      assert s[0..] == s;
    }
    while i < |s|
      invariant Scanning(s, lines, start, i)
    {
      hide Scanning, Segments;
      if IsBreak(s[i]) {
        ghost var was := i;
        ghost var before := lines;
        lines := lines + [s[start..i]];
        if s[i] == CR && i + 1 < |s| && s[i + 1] == LF {
          i := i + 1;
        }
        ScanBreak(s, before, start, was, i + 1);
        start := i + 1;
      } else {
        ScanOn(s, lines, start, i);
      }
      i := i + 1;
    }
    SegmentsEnd(s, start);
    lines := lines + [s[start..]];
    SegmentsAreNormalizedSplit(s);
  }
}
