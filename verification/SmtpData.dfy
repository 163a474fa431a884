/** The message writer of the SMTP DATA command: folding, dot-stuffing, and the receiver that undoes them. */
module SmtpData {
  import opened Bytes
  import opened LineBreaks

  const MAX_LINE_LENGTH := 998
  const DOT: byte := 46
  const COLON: byte := 58
  const ZERO: byte := 48

  // ----- folding -----

  /** `strrpos` of a space, or -1. */
  function LastSpace(s: bytes): (r: int)
    ensures -1 <= r < |s|
    ensures r >= 0 ==> s[r] == SP
    ensures forall k :: r < k < |s| ==> s[k] != SP
  {
    if s == [] then -1 else if s[|s| - 1] == SP then |s| - 1 else LastSpace(s[..|s| - 1])
  }

  /** The linear white space put in front of a continued header line. */
  function Lead(inHeaders: bool): bytes { if inHeaders then [TAB] else [] }

  /** Where an over-long line is cut, and where its remainder starts. */
  function Cut(line: bytes): (r: (nat, nat))
    requires |line| > MAX_LINE_LENGTH
    ensures 1 <= r.0 < MAX_LINE_LENGTH
    ensures r.1 == r.0 || (r.1 == r.0 + 1 && line[r.0] == SP)
  {
    var pos := LastSpace(line[..MAX_LINE_LENGTH]);
    if pos <= 0 then (MAX_LINE_LENGTH - 1, MAX_LINE_LENGTH - 1) else (pos, pos + 1)
  }

  /** The pieces an input line is sent as. */
  function Fold(line: bytes, inHeaders: bool): (r: seq<bytes>)
    ensures |r| > 0
    decreases |line|
  {
    if |line| <= MAX_LINE_LENGTH then [line]
    else
      var (pos, next) := Cut(line);
      [line[..pos]] + Fold(Lead(inHeaders) + line[next..], inHeaders)
  }

  lemma {:induction false} FoldStep(line: bytes, inHeaders: bool, pos: nat, rest: bytes)
    requires |line| > MAX_LINE_LENGTH && pos == Cut(line).0
    requires rest == if inHeaders then [TAB] + line[Cut(line).1..] else line[Cut(line).1..]
    ensures Fold(line, inHeaders) == [line[..pos]] + Fold(rest, inHeaders)
    ensures |rest| < |line|
  {
    assert rest == Lead(inHeaders) + line[Cut(line).1..];
  }

  /** The folding loop of `SMTP::data`. */
  method FoldLine(line: bytes, inHeaders: bool) returns (out: seq<bytes>)
    ensures out == Fold(line, inHeaders)
  {
    out := [];
    var rest := line;
    while |rest| > MAX_LINE_LENGTH
      invariant out + Fold(rest, inHeaders) == Fold(line, inHeaders)
      decreases |rest|
    {
      ghost var before, whole := out, rest;
      var pos := LastSpace(rest[..MAX_LINE_LENGTH]);
      if pos <= 0 {
        pos := MAX_LINE_LENGTH - 1;
        out := out + [rest[..pos]];
        rest := rest[pos..];
      } else {
        out := out + [rest[..pos]];
        rest := rest[pos + 1..];
      }
      if inHeaders {
        rest := [TAB] + rest;
      }
      FoldStep(whole, inHeaders, pos, rest);
      Assoc(before, [whole[..pos]], Fold(rest, inHeaders));
    }
    out := out + [rest];
  }

  /** The pieces of one line: each fits the limit, only an empty line gives an empty piece, header continuations
      start with a tab, and the first piece starts like the line. */
  ghost predicate Shaped(line: bytes, p: seq<bytes>, inHeaders: bool) {
    && p != []
    && (forall i :: 0 <= i < |p| ==> |p[i]| <= 998)
    && (forall i :: 0 <= i < |p| ==> (p[i] == [] <==> line == []))
    && (line == [] ==> p == [[]])
    && (inHeaders ==> forall i :: 1 <= i < |p| ==> p[i] != [] && p[i][0] == 9)
    && (line != [] ==> line[0] == p[0][0])
  }

  lemma {:induction false} ShapedCons(line: bytes, first: bytes, rest: bytes, p: seq<bytes>, inHeaders: bool)
    requires 0 < |first| <= MAX_LINE_LENGTH && first <= line
    requires rest != [] && Lead(inHeaders) <= rest && Shaped(rest, p, inHeaders)
    ensures Shaped(line, [first] + p, inHeaders)
  {
    assert inHeaders ==> p[0][0] == TAB;
  }

  lemma {:induction false} FoldShape(line: bytes, inHeaders: bool)
    ensures Shaped(line, Fold(line, inHeaders), inHeaders)
    decreases |line|
  {
    if |line| > MAX_LINE_LENGTH {
      var (pos, next) := Cut(line);
      var rest := Lead(inHeaders) + line[next..];
      FoldShape(rest, inHeaders);
      ShapedCons(line, line[..pos], rest, Fold(rest, inHeaders), inHeaders);
    }
  }

  /** A line over 998 bytes is cut at the last space among its first 998 bytes, and the space goes; where there is none,
      a first byte aside, it is cut after 997 bytes. In the headers a tab comes in front of what is left. */
  lemma {:induction false} CutAtLastSpace(line: bytes, inHeaders: bool)
    requires |line| > 998
    ensures forall k :: 0 < k < 998 && line[k] == 32 && (forall j :: k < j < 998 ==> line[j] != 32) ==>
      Fold(line, inHeaders) == [line[..k]] + Fold((if inHeaders then [9] else []) + line[k + 1..], inHeaders)
    ensures (forall j :: 0 < j < 998 ==> line[j] != 32) ==>
      Fold(line, inHeaders) == [line[..997]] + Fold((if inHeaders then [9] else []) + line[997..], inHeaders)
  {
    var head := line[..998];
    var r := LastSpace(head);
    assert forall j :: 0 <= j < 998 ==> head[j] == line[j];
    var pos, next := Cut(line).0, Cut(line).1;
    assert line[next..] == if r <= 0 then line[997..] else line[r + 1..];
    FoldStep(line, inHeaders, pos, (if inHeaders then [9] else []) + line[next..]);
    hide Fold, LastSpace, Cut;
    forall k | 0 < k < 998 && line[k] == 32 && (forall j :: k < j < 998 ==> line[j] != 32) ensures k == r {
      assert head[k] == 32;
    }
  }

  /** Puts folded pieces back together: `dropped[i]` says whether a space was removed at the i-th cut. */
  function Unfold(pieces: seq<bytes>, dropped: seq<bool>, inHeaders: bool): bytes
    requires |pieces| == |dropped| + 1
  {
    if |pieces| == 1 then pieces[0]
    else
      var tail := Unfold(pieces[1..], dropped[1..], inHeaders);
      pieces[0] + (if dropped[0] then [SP] else []) + (if Lead(inHeaders) <= tail then tail[|Lead(inHeaders)|..] else tail)
  }

  lemma {:induction false} UnfoldStep(line: bytes, pos: nat, next: nat, pieces: seq<bytes>, dropped: seq<bool>, inHeaders: bool)
    requires pos <= next <= |line| && (next == pos || (next == pos + 1 && line[pos] == SP))
    requires |pieces| == |dropped| + 1
    requires Unfold(pieces, dropped, inHeaders) == Lead(inHeaders) + line[next..]
    ensures Unfold([line[..pos]] + pieces, [next > pos] + dropped, inHeaders) == line
  {
    var p, d := [line[..pos]] + pieces, [next > pos] + dropped;
    assert p[1..] == pieces && d[1..] == dropped;
    var tail := Lead(inHeaders) + line[next..];
    assert tail[|Lead(inHeaders)|..] == line[next..];
    var gap: bytes := if next > pos then [SP] else [];
    assert Unfold(p, d, inHeaders) == line[..pos] + gap + line[next..];
  }

  /** Folding loses and reorders nothing: one space at most goes at each cut, one tab comes in header continuations. */
  lemma {:induction false} FoldReversible(line: bytes, inHeaders: bool) returns (dropped: seq<bool>)
    ensures |Fold(line, inHeaders)| == |dropped| + 1
    ensures Unfold(Fold(line, inHeaders), dropped, inHeaders) == line
    decreases |line|
  {
    if |line| <= MAX_LINE_LENGTH {
      dropped := [];
    } else {
      var (pos, next) := Cut(line);
      var rest := Lead(inHeaders) + line[next..];
      var d := FoldReversible(rest, inHeaders);
      dropped := [next > pos] + d;
      UnfoldStep(line, pos, next, Fold(rest, inHeaders), d, inHeaders);
    }
  }

  // ----- the whole message -----

  /** The message starts with a header when the text before its first colon is a plausible field name. */
  predicate StartsWithHeader(first: bytes) {
    var i := IndexOf(first, COLON);
    var field := if i == |first| then [] else first[..i];
    field != [] && field != [ZERO] && SP !in field
  }

  function FoldAll(lines: seq<bytes>, inHeaders: bool): seq<bytes> {
    if lines == [] then []
    else
      var h := inHeaders && lines[0] != [];
      Fold(lines[0], h) + FoldAll(lines[1..], h)
  }

  /** The lines a message is transmitted as, before dot-stuffing. */
  function DataLines(msg: bytes): seq<bytes> {
    var lines := Segments(msg);
    FoldAll(lines, StartsWithHeader(lines[0]))
  }

  function Stuff(line: bytes): bytes { if line != [] && line[0] == DOT then [DOT] + line else line }

  function StuffAll(lines: seq<bytes>): (r: seq<bytes>)
    ensures |r| == |lines|
  {
    if lines == [] then [] else [Stuff(lines[0]) + CRLF] + StuffAll(lines[1..])
  }

  lemma {:induction false} StuffAllConcat(a: seq<bytes>, b: seq<bytes>)
    ensures StuffAll(a + b) == StuffAll(a) + StuffAll(b)
  {
    if a == [] {
      assert a + b == b;
    } else {
      assert (a + b)[1..] == a[1..] + b;
      StuffAllConcat(a[1..], b);
    }
  }

  /** Everything written to the socket between the 354 reply and the wait for the final reply. */
  function Wire(msg: bytes): bytes { Flatten(StuffAll(DataLines(msg))) + [DOT] + CRLF }

  lemma {:induction false} StuffAllPush(lines: seq<bytes>, k: nat)
    requires k < |lines|
    ensures StuffAll(lines[..k + 1]) == StuffAll(lines[..k]) + [Stuff(lines[k]) + CRLF]
  {
    StuffAllConcat(lines[..k], [lines[k]]);
    assert lines[..k + 1] == lines[..k] + [lines[k]];
  }

  /** The inner loop of `SMTP::data`: the writes for the pieces of one line. */
  method SendPieces(pieces: seq<bytes>) returns (sent: seq<bytes>)
    ensures sent == StuffAll(pieces)
  {
    sent := [];
    for k := 0 to |pieces|
      invariant sent == StuffAll(pieces[..k])
    {
      var out := pieces[k];
      if out != [] && out[0] == DOT {
        out := [DOT] + out;
      }
      sent := sent + [out + CRLF];
      StuffAllPush(pieces, k);
    }
    assert pieces[..|pieces|] == pieces;
  }

  /** The outer loop of `SMTP::data`; `sent` lists the socket writes in order. */
  method SendData(msg: bytes) returns (sent: seq<bytes>)
    ensures sent == StuffAll(DataLines(msg)) + [[DOT] + CRLF]
    ensures Flatten(sent) == Wire(msg)
  {
    var lines := IterateLines(msg);
    var inHeaders := StartsWithHeader(lines[0]);
    sent := [];
    ghost var done: seq<bytes> := [];
    for n := 0 to |lines|
      invariant sent == StuffAll(done)
      invariant done + FoldAll(lines[n..], inHeaders) == DataLines(msg)
    {
      if inHeaders && lines[n] == [] {
        inHeaders := false;
      }
      var linesOut := FoldLine(lines[n], inHeaders);
      var writes := SendPieces(linesOut);
      sent := sent + writes;
      StuffAllConcat(done, linesOut);
      assert lines[n..][1..] == lines[n + 1..];
      Assoc(done, linesOut, FoldAll(lines[n + 1..], inHeaders));
      done := done + linesOut;
    }
    assert done == DataLines(msg);
    sent := sent + [[DOT] + CRLF];
    WireIsFlatten(msg);
  }

  lemma {:induction false} WireIsFlatten(msg: bytes)
    ensures Flatten(StuffAll(DataLines(msg)) + [[DOT] + CRLF]) == Wire(msg)
  {
    FlattenConcat(StuffAll(DataLines(msg)), [[DOT] + CRLF]);
    assert Flatten([[DOT] + CRLF]) == [DOT] + CRLF;
    Assoc(Flatten(StuffAll(DataLines(msg))), [DOT], CRLF);
  }

  lemma {:induction false} FoldAllCons(line: bytes, rest: seq<bytes>, inHeaders: bool)
    ensures var h := inHeaders && line != [];
      FoldAll([line] + rest, inHeaders) == Fold(line, h) + FoldAll(rest, h)
  {
    assert ([line] + rest)[1..] == rest;
  }

  lemma {:induction false} NoEmptyPiece(line: bytes, inHeaders: bool)
    requires line != []
    ensures [] !in Fold(line, inHeaders)
  {
    FoldShape(line, inHeaders);
    hide Fold;
  }

  /** No empty line is created or lost, so the blank line that ends the headers stays where it was. */
  lemma {:induction false} HeaderBoundaryKept(head: seq<bytes>, body: seq<bytes>, inHeaders: bool)
    requires [] !in head
    ensures FoldAll(head + [[]] + body, inHeaders) == FoldAll(head, inHeaders) + [[]] + FoldAll(body, false)
    ensures [] !in FoldAll(head, inHeaders)
  {
    if head == [] {
      assert head + [[]] + body == [[]] + body;
      FoldAllCons([], body, inHeaders);
      assert Fold([], false) == [[]];
    } else {
      var first, more := head[0], head[1..];
      assert first in head;
      assert head == [first] + more && head + [[]] + body == [first] + (more + [[]] + body);
      HeaderBoundaryKept(more, body, inHeaders);
      NoEmptyPiece(first, inHeaders);
      hide FoldAll, Fold;
      FoldAllCons(first, more, inHeaders);
      FoldAllCons(first, more + [[]] + body, inHeaders);
    }
  }

  /** The line is a field name and a colon to begin with: the name not empty, not "0", and without a space. */
  ghost predicate NamesField(line: bytes) {
    exists n :: 0 < n < |line| && line[n] == 58 && 58 !in line[..n] && 32 !in line[..n] && line[..n] != [48]
  }

  lemma {:induction false} StartsWithHeaderIff(line: bytes)
    ensures StartsWithHeader(line) <==> NamesField(line)
  {
    var i := IndexOf(line, COLON);
    if StartsWithHeader(line) {
      assert 58 !in line[..i];
    }
    if n :| 0 < n < |line| && line[n] == 58 && 58 !in line[..n] && 32 !in line[..n] && line[..n] != [48] {
      forall k | 0 <= k < n ensures line[k] != 58 {
        assert line[..n][k] in line[..n];
      }
    }
  }

  /** `group` is a line in pieces of at most 998 bytes: undoing a space a cut, and in the headers the tab every
      continuation starts with, gives the line. */
  ghost predicate Continued(line: bytes, group: seq<bytes>, inHeaders: bool) {
    && group != []
    && (forall j :: 0 <= j < |group| ==> |group[j]| <= 998)
    && (inHeaders ==> forall j :: 1 <= j < |group| ==> group[j] != [] && group[j][0] == 9)
    && exists dropped: seq<bool> :: |group| == |dropped| + 1 && Unfold(group, dropped, inHeaders) == line
  }

  lemma {:induction false} FoldIsContinued(line: bytes, inHeaders: bool)
    ensures Continued(line, Fold(line, inHeaders), inHeaders)
  {
    FoldShape(line, inHeaders);
    var _ := FoldReversible(line, inHeaders);
    hide Fold, Unfold;
  }

  ghost predicate AllContinued(lines: seq<bytes>, groups: seq<seq<bytes>>, head: nat) {
    |groups| == |lines| && forall i :: 0 <= i < |lines| ==> Continued(lines[i], groups[i], i < head)
  }

  lemma {:induction false} ContinuedCons(lines: seq<bytes>, group: seq<bytes>, more: seq<seq<bytes>>, head: nat)
    requires lines != [] && Continued(lines[0], group, 0 < head)
    requires AllContinued(lines[1..], more, if head == 0 then 0 else head - 1)
    ensures AllContinued(lines, [group] + more, head)
  {
    hide Continued;
    var groups := [group] + more;
    forall i | 0 <= i < |lines| ensures Continued(lines[i], groups[i], i < head) {
      if i > 0 {
        assert groups[i] == more[i - 1] && lines[i] == lines[1..][i - 1];
      }
    }
  }

  lemma {:induction false} FoldAllContinued(lines: seq<bytes>, inHeaders: bool, n: nat) returns (groups: seq<seq<bytes>>)
    requires n <= |lines| && [] !in lines[..n] && (n < |lines| ==> lines[n] == [])
    ensures Flatten(groups) == FoldAll(lines, inHeaders) && AllContinued(lines, groups, if inHeaders then n else 0)
  {
    groups := [];
    if lines != [] {
      var h := inHeaders && lines[0] != [];
      FoldIsContinued(lines[0], h);
      if n == 0 {
        groups := FoldAllBody(lines[1..]);
      } else {
        assert lines[..n][0] == lines[0] && lines[..n] == [lines[0]] + lines[1..][..n - 1];
        groups := FoldAllContinued(lines[1..], h, n - 1);
      }
      ContinuedCons(lines, Fold(lines[0], h), groups, if inHeaders then n else 0);
      groups := [Fold(lines[0], h)] + groups;
    }
  }

  lemma {:induction false} FoldAllBody(lines: seq<bytes>) returns (groups: seq<seq<bytes>>)
    ensures Flatten(groups) == FoldAll(lines, false) && AllContinued(lines, groups, 0)
  {
    groups := [];
    if lines != [] {
      groups := FoldAllBody(lines[1..]);
      FoldIsContinued(lines[0], false);
      ContinuedCons(lines, Fold(lines[0], false), groups, 0);
      groups := [Fold(lines[0], false)] + groups;
    }
  }

  /** What is transmitted, line by line. When the first line names a field, the lines before the first empty one are
      headers, and every continuation of one starts with a tab; in all the others nothing is put in. */
  lemma {:induction false} HeadersContinueWithTab(msg: bytes, n: nat) returns (groups: seq<seq<bytes>>)
    requires var lines := Segments(msg); n <= |lines| && [] !in lines[..n] && (n < |lines| ==> lines[n] == [])
    ensures DataLines(msg) == Flatten(groups)
    ensures AllContinued(Segments(msg), groups, if NamesField(Segments(msg)[0]) then n else 0)
  {
    StartsWithHeaderIff(Segments(msg)[0]);
    groups := FoldAllContinued(Segments(msg), StartsWithHeader(Segments(msg)[0]), n);
  }

  // ----- the receiving side -----

  function Unstuff(line: bytes): bytes { if line != [] && line[0] == 46 then line[1..] else line }

  /** A receiver following section 4.5.2 of RFC 5321: the message lines and the bytes left after the final dot. */
  function Receive(wire: bytes): (r: Option<(seq<bytes>, bytes)>)
    decreases |wire|
  {
    var i := FindCrlf(wire);
    if i == |wire| then None
    else if wire[..i] == [46] then Some(([], wire[i + 2..]))
    else match Receive(wire[i + 2..])
      case None => None
      case Some((lines, rest)) => Some(([Unstuff(wire[..i])] + lines, rest))
  }

  lemma {:induction false} ReceiveLine(line: bytes, rest: bytes, lines: seq<bytes>, left: bytes)
    requires OneLine(line) && Receive(rest) == Some((lines, left))
    ensures Receive(Stuff(line) + CRLF + rest) == Some(([line] + lines, left))
  {
    var s := Stuff(line);
    var wire := s + (CRLF + rest);
    assert s + CRLF + rest == wire;
    FindCrlfAfter(s, rest);
    assert wire[..|s|] == s && wire[|s| + 2..] == rest;
    assert s != [DOT];
    assert Unstuff(s) == line;
  }

  lemma {:induction false} ReceiveDot(rest: bytes)
    ensures Receive([DOT] + (CRLF + rest)) == Some(([], rest))
  {
    var wire := [DOT] + (CRLF + rest);
    FindCrlfAfter([DOT], rest);
    assert wire[..1] == [DOT] && wire[3..] == rest;
  }

  lemma {:induction false} StuffCons(lines: seq<bytes>)
    requires lines != []
    ensures Flatten(StuffAll(lines)) == Stuff(lines[0]) + CRLF + Flatten(StuffAll(lines[1..]))
  {
    assert StuffAll(lines)[1..] == StuffAll(lines[1..]);
  }

  lemma {:induction false} ReceiveAll(lines: seq<bytes>, rest: bytes)
    requires AllOneLine(lines)
    ensures Receive(Flatten(StuffAll(lines)) + ([DOT] + (CRLF + rest))) == Some((lines, rest))
  {
    var tail := [DOT] + (CRLF + rest);
    if lines == [] {
      ReceiveDot(rest);
      assert [] + tail == tail;
    } else {
      hide Receive, Stuff, StuffAll, Flatten;
      var more := Flatten(StuffAll(lines[1..]));
      ReceiveAll(lines[1..], rest);
      ReceiveLine(lines[0], more + tail, lines[1..], rest);
      assert [lines[0]] + lines[1..] == lines;
      StuffCons(lines);
      Assoc(Stuff(lines[0]) + CRLF, more, tail);
    }
  }

  lemma {:induction false} FoldOneLine(line: bytes, inHeaders: bool)
    requires OneLine(line)
    ensures AllOneLine(Fold(line, inHeaders))
    decreases |line|
  {
    if |line| > MAX_LINE_LENGTH {
      var (pos, next) := Cut(line);
      FoldOneLine(Lead(inHeaders) + line[next..], inHeaders);
    }
  }

  lemma {:induction false} FoldAllOneLine(lines: seq<bytes>, inHeaders: bool)
    requires AllOneLine(lines)
    ensures AllOneLine(FoldAll(lines, inHeaders))
  {
    if lines != [] {
      var h := inHeaders && lines[0] != [];
      FoldOneLine(lines[0], h);
      FoldAllOneLine(lines[1..], h);
    }
  }

  /** Transparency: whatever the message and whatever follows it, the receiver gets back exactly
      the transmitted lines and stops exactly at the final dot. */
  lemma {:induction false} Transparency(msg: bytes, rest: bytes)
    ensures Receive(Wire(msg) + rest) == Some((DataLines(msg), rest))
  {
    SegmentsOneLine(msg);
    FoldAllOneLine(Segments(msg), StartsWithHeader(Segments(msg)[0]));
    assert AllOneLine(DataLines(msg));
    hide Receive, StuffAll, DataLines, Flatten, AllOneLine;
    ReceiveAll(DataLines(msg), rest);
    assert Wire(msg) + rest == Flatten(StuffAll(DataLines(msg))) + ([DOT] + (CRLF + rest));
  }

  lemma {:induction false} FoldAllShort(lines: seq<bytes>, inHeaders: bool)
    requires forall i :: 0 <= i < |lines| ==> |lines[i]| <= MAX_LINE_LENGTH
    ensures FoldAll(lines, inHeaders) == lines
  {
    if lines != [] {
      FoldAllShort(lines[1..], inHeaders && lines[0] != []);
    }
  }

  lemma {:induction false} FoldAllLong(lines: seq<bytes>, inHeaders: bool, k: nat)
    requires k < |lines| && |lines[k]| > MAX_LINE_LENGTH
    ensures |FoldAll(lines, inHeaders)| > |lines|
  {
    var h := inHeaders && lines[0] != [];
    if k == 0 {
      FoldAllGrows(lines[1..], h);
    } else {
      FoldAllLong(lines[1..], h, k - 1);
    }
  }

  lemma {:induction false} FoldAllGrows(lines: seq<bytes>, inHeaders: bool)
    ensures |FoldAll(lines, inHeaders)| >= |lines|
  {
    if lines != [] {
      FoldAllGrows(lines[1..], inHeaders && lines[0] != []);
    }
  }

  /** The message arrives line for line as it was handed over exactly when no line exceeds the limit. */
  lemma {:induction false} DeliveredIntactIff(msg: bytes, rest: bytes)
    ensures Receive(Wire(msg) + rest) == Some((Segments(msg), rest))
      <==> forall i :: 0 <= i < |Segments(msg)| ==> |Segments(msg)[i]| <= 998
  {
    Transparency(msg, rest);
    var lines := Segments(msg);
    var h := StartsWithHeader(lines[0]);
    if i :| 0 <= i < |lines| && |lines[i]| > MAX_LINE_LENGTH {
      FoldAllLong(lines, h, i);
    } else {
      FoldAllShort(lines, h);
    }
  }

  /** One line of 999 bytes: the receiver does not get it back as it was. */
  lemma {:induction false} LongLineIsCut(msg: bytes, rest: bytes)
    requires msg == seq(999, _ => 97)
    ensures Receive(Wire(msg) + rest) != Some((Segments(msg), rest))
  {
    SegmentsStep(msg, []);
    assert msg + [] == msg;
    assert |Segments(msg)[0]| > MAX_LINE_LENGTH;
    DeliveredIntactIff(msg, rest);
  }
}
