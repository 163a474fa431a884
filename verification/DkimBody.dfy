/** DKIM body canonicalisation ("simple"). */
module DkimBody {
  import opened Bytes
  import opened LineBreaks

  /** `stripTrailingBreaks`. */
  function StripTrailingBreaks(s: bytes): bytes {
    if s != [] && IsBreak(s[|s| - 1]) then StripTrailingBreaks(s[..|s| - 1]) else s
  }

  /** `DKIM_BodyC`. */
  function BodyC(body: bytes): bytes {
    if Empty(body) then CRLF else StripTrailingBreaks(NormalizeBreaks(body, CRLF)) + CRLF
  }

  // ----- the rule of section 3.4.3 of RFC 6376, on lines -----

  function DropEmptyTail(lines: seq<bytes>): (r: seq<bytes>)
    ensures r <= lines
    ensures r != [] ==> r[|r| - 1] != []
  {
    if lines != [] && lines[|lines| - 1] == [] then DropEmptyTail(lines[..|lines| - 1]) else lines
  }

  /** All empty lines at the end are ignored, every other line ends in CRLF, and an empty body is one CRLF. */
  function SimpleBody(body: bytes): bytes {
    var lines := DropEmptyTail(Segments(body));
    if lines == [] then CRLF else Terminated(lines, CRLF)
  }

  lemma {:induction false} StripTwo(s: bytes)
    ensures StripTrailingBreaks(s + CRLF) == StripTrailingBreaks(s)
  {
    var t := s + CRLF;
    assert t[..|t| - 1] == s + [CR];
    assert (s + [CR])[..|s|] == s;
  }

  lemma {:induction false} StripIsDrop(lines: seq<bytes>)
    requires AllOneLine(lines)
    ensures StripTrailingBreaks(Join(lines, CRLF)) == Join(DropEmptyTail(lines), CRLF)
  {
    if lines != [] {
      var n := |lines| - 1;
      var front, last := lines[..n], lines[n];
      assert lines == front + [last];
      if front == [] {
        assert lines == [last];
      } else {
        JoinPush(front, last, CRLF);
        if last == [] {
          StripIsDrop(front);
          assert CRLF + last == CRLF;
          StripTwo(Join(front, CRLF));
        } else {
          assert !IsBreak(last[|last| - 1]);
        }
      }
    }
  }

  /** Except for the body "0", the code computes the rule. */
  lemma {:induction false} BodyCIsSimple(body: bytes)
    requires body != [48]
    ensures BodyC(body) == SimpleBody(body)
  {
    NormalizeIsJoin(body, CRLF);
    SegmentsOneLine(body);
    StripIsDrop(Segments(body));
    var lines := DropEmptyTail(Segments(body));
    if lines != [] {
      TerminatedIsJoin(lines, CRLF);
    } else {
      assert Join(lines, CRLF) + CRLF == CRLF;
    }
  }

  lemma {:induction false} ZeroIsSimplyItself(s: bytes)
    requires s == [48]
    ensures SimpleBody(s) == [48, CR, LF]
  {
    SegmentsStep(s, []);
    assert s + [] == s;
    assert Terminated([s], CRLF) == s + CRLF + [];
  }

  /** The code follows the rule exactly when the body is not the single character 0. */
  lemma {:induction false} BodyCIsSimpleIff(body: bytes)
    ensures BodyC(body) == SimpleBody(body) <==> body != [48]
  {
    if body == [48] {
      ZeroIsSimplyItself(body);
    } else {
      BodyCIsSimple(body);
    }
  }

  lemma {:induction false} DropBlanks(lines: seq<bytes>, blanks: seq<bytes>)
    requires (lines != [] ==> lines[|lines| - 1] != []) && forall i :: 0 <= i < |blanks| ==> blanks[i] == []
    ensures DropEmptyTail(lines + blanks) == lines
  {
    if blanks == [] {
      assert lines + blanks == lines;
    } else {
      var n := |blanks| - 1;
      assert (lines + blanks)[..|lines| + n] == lines + blanks[..n];
      DropBlanks(lines, blanks[..n]);
    }
  }

  /** Lines in any break style, the last not empty, with any number of empty ones behind them: each line comes out with
      CRLF and the empty ones are gone; and a body of empty lines alone is one CRLF. */
  lemma {:induction false} BodyOfLines(lines: seq<bytes>, blanks: seq<bytes>, br: bytes)
    requires br in {[10], [13], [13, 10]} && lines + blanks != []
    requires (forall i :: 0 <= i < |lines| ==> OneLine(lines[i])) && forall i :: 0 <= i < |blanks| ==> blanks[i] == []
    requires lines != [] ==> lines[|lines| - 1] != []
    requires Join(lines + blanks, br) != [48]
    ensures BodyC(Join(lines + blanks, br)) == if lines == [] then [13, 10] else Join(lines, [13, 10]) + [13, 10]
  {
    var all := lines + blanks;
    forall i | 0 <= i < |all| ensures OneLine(all[i]) {
      if i >= |lines| {
        assert all[i] == blanks[i - |lines|];
      }
    }
    SegmentsOfJoin(all, br);
    DropBlanks(lines, blanks);
    BodyCIsSimple(Join(all, br));
    if lines != [] {
      TerminatedIsJoin(lines, CRLF);
    }
  }

  // ----- what follows -----

  lemma {:induction false} StripFacts(s: bytes)
    ensures var r := StripTrailingBreaks(s);
      && r <= s
      && (r != [] ==> !IsBreak(r[|r| - 1]))
      && (forall i :: |r| <= i < |s| ==> IsBreak(s[i]))
  {
    if s != [] && IsBreak(s[|s| - 1]) {
      StripFacts(s[..|s| - 1]);
    }
  }

  /** A canonical body ends in exactly one CRLF. */
  lemma {:induction false} EndsInOneBreak(body: bytes)
    ensures CRLF <= BodyC(body)[|BodyC(body)| - 2..]
    ensures var t := BodyC(body)[..|BodyC(body)| - 2]; t != [] ==> !IsBreak(t[|t| - 1])
  {
    if !Empty(body) {
      var n := NormalizeBreaks(body, CRLF);
      StripFacts(n);
      assert BodyC(body)[..|BodyC(body)| - 2] == StripTrailingBreaks(n);
      assert BodyC(body)[|BodyC(body)| - 2..] == CRLF;
    }
  }

  lemma {:induction false} SegmentsOfTerminated(lines: seq<bytes>)
    requires AllOneLine(lines) && lines != []
    ensures Segments(Terminated(lines, CRLF)) == lines + [[]]
  {
    JoinLast(lines, [], CRLF);
    assert Terminated(lines, CRLF) + [] == Terminated(lines, CRLF);
    SegmentsOfJoin(lines + [[]], CRLF);
  }

  /** Canonicalising twice is canonicalising once, for every body. */
  lemma {:induction false} BodyCIdempotent(body: bytes)
    ensures BodyC(BodyC(body)) == BodyC(body)
  {
    BodyCOfBreak();
    if body != [48] {
      var lines := DropEmptyTail(Segments(body));
      BodyCIsSimple(body);
      SegmentsOneLine(body);
      if lines != [] {
        SegmentsOfTerminated(lines);
        BodyCIsSimple(BodyC(body));
        var again := lines + [[]];
        assert again[..|lines|] == lines && again[|lines|] == [];
        assert DropEmptyTail(again) == DropEmptyTail(lines) == lines;
      }
    }
  }

  lemma {:induction false} BodyCOfBreak()
    ensures BodyC(CRLF) == CRLF
  {
    BodyCIsSimple(CRLF);
    assert Segments([]) == [[]];
    assert Segments(CRLF) == [[], []];
    var two: seq<bytes> := [[], []];
    var one: seq<bytes> := [[]];
    assert two[..1] == one && one[..0] == [];
    assert DropEmptyTail(one) == [];
  }

  /** The segments after one break byte more: an empty one is added, or a CR grew into a CRLF. */
  ghost predicate PushedBreak(before: seq<bytes>, after: seq<bytes>) { after == before + [[]] || after == before }

  lemma {:induction false} GrowPushed(c: byte, a: seq<bytes>, b: seq<bytes>)
    requires a != [] && b != [] && PushedBreak(a, b)
    ensures PushedBreak([[c] + a[0]] + a[1..], [[c] + b[0]] + b[1..])
    ensures PushedBreak([[]] + a, [[]] + b)
  {
  }

  lemma {:induction false} SegmentsPushBreak(s: bytes, x: byte)
    requires IsBreak(x)
    ensures PushedBreak(Segments(s), Segments(s + [x]))
    decreases |s|
  {
    if s == [] {
      assert s + [x] == [x];
      assert [x][1..] == [];
    } else if CRLF <= s {
      assert (s + [x])[2..] == s[2..] + [x];
      SegmentsPushBreak(s[2..], x);
    } else if s == [CR] && x == LF {
      assert s + [x] == CRLF;
      assert CRLF[2..] == [] && s[1..] == [];
    } else {
      var t := s + [x];
      assert t[1..] == s[1..] + [x] && t[0] == s[0];
      assert |t| > 1 && t[1] == if |s| > 1 then s[1] else x;
      SegmentsPushBreak(s[1..], x);
      GrowPushed(s[0], Segments(s[1..]), Segments(t[1..]));
      hide PushedBreak;
    }
  }

  lemma {:induction false} SimpleIgnoresBreaks(body: bytes, breaks: bytes)
    requires forall i :: 0 <= i < |breaks| ==> IsBreak(breaks[i])
    ensures SimpleBody(body + breaks) == SimpleBody(body)
    decreases |breaks|
  {
    if breaks == [] {
      assert body + breaks == body;
    } else {
      SegmentsPushBreak(body, breaks[0]);
      assert body + breaks == (body + [breaks[0]]) + breaks[1..];
      SimpleIgnoresBreaks(body + [breaks[0]], breaks[1..]);
      var segs := Segments(body);
      assert (segs + [[]])[..|segs|] == segs;
    }
  }

  /** Line breaks added at the end are ignored, unless they are added to the body "0". */
  lemma {:induction false} TrailingBreaksIgnoredIff(body: bytes, breaks: bytes)
    requires forall i :: 0 <= i < |breaks| ==> IsBreak(breaks[i])
    ensures BodyC(body + breaks) == BodyC(body) <==> body != [48] || breaks == []
  {
    if breaks == [] {
      assert body + breaks == body;
    } else {
      SimpleIgnoresBreaks(body, breaks);
      var t := body + breaks;
      assert t[|t| - 1] == breaks[|breaks| - 1];
      BodyCIsSimpleIff(t);
      BodyCIsSimpleIff(body);
      if body == [48] {
        ZeroIsSimplyItself(body);
      }
    }
  }

  /** The break style of the mailer does not show in the canonical body. */
  lemma {:induction false} BodyCIgnoresBreakStyle(body: bytes, br: bytes)
    requires BreakStyle(br)
    ensures BodyC(NormalizeBreaks(body, br)) == BodyC(body)
  {
    var t := NormalizeBreaks(body, br);
    NormalizeIsJoin(body, br);
    SegmentsOneLine(body);
    SegmentsOfJoin(Segments(body), br);
    if body == [48] || t == [48] {
      SegmentsStep([48], []);
      assert [48] + [] == [48];
      OneSegment(body);
      OneSegment(t);
    } else {
      BodyCIsSimple(body);
      BodyCIsSimple(t);
    }
  }
}
