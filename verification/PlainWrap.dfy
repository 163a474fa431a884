/** Word wrapping of plain text bodies. */
module PlainWrap {
  import opened Bytes
  import opened LineBreaks

  // ----- reference: the lines of the message and a layout of one line -----

  /** The message's lines, without the empty one behind a final break. */
  function InputLines(message: bytes): (r: seq<bytes>)
    ensures r != []
  {
    var segs := Segments(message);
    if |segs| > 1 && segs[|segs| - 1] == [] then segs[..|segs| - 1] else segs
  }

  function FirstWord(s: bytes): bytes { s[..IndexOf(s, SP)] }

  /** One word, or one word behind a single space. */
  predicate SingleWord(s: bytes) { forall i :: 1 <= i < |s| ==> s[i] != SP }

  predicate Fits(s: bytes, length: int) { |s| <= length || SingleWord(s) }

  /** The break between two pieces was needed: the next word did not fit any more. */
  predicate Needed(a: bytes, b: bytes, length: int) { a != [] && |a| + 1 + |FirstWord(b)| > length }

  /** The pieces put back together with spaces are the line, none is too long without reason, no break is idle. */
  ghost predicate Wrapped(line: bytes, length: int, pieces: seq<bytes>) {
    && pieces != []
    && Join(pieces, [SP]) == line
    && (forall i :: 0 <= i < |pieces| ==> Fits(pieces[i], length))
    && (forall i :: 0 <= i < |pieces| - 1 ==> Needed(pieces[i], pieces[i + 1], length))
  }

  ghost predicate AllWrapped(lines: seq<bytes>, length: int, layout: seq<seq<bytes>>) {
    |layout| == |lines| && forall i :: 0 <= i < |lines| ==> Wrapped(lines[i], length, layout[i])
  }

  /** `wrapped` is some layout of the message's lines, one piece a line. */
  ghost predicate IsWrapping(message: bytes, length: int, le: bytes, wrapped: bytes) {
    exists layout :: AllWrapped(InputLines(message), length, layout) && wrapped == Terminated(Flatten(layout), le)
  }

  // ----- splitting and joining -----

  lemma {:induction false} JoinOfSplit(s: bytes, b: byte)
    ensures Join(SplitOn(s, b), [b]) == s
    decreases |s|
  {
    var i := IndexOf(s, b);
    if i == |s| {
      assert SplitOn(s, b) == [s];
    } else {
      var rest := SplitOn(s[i + 1..], b);
      assert SplitOn(s, b) == [s[..i]] + rest;
      hide Join, IndexOf, SplitOn;
      JoinOfSplit(s[i + 1..], b);
      JoinCons(s[..i], rest, [b]);
      ByteSplit(s, i);
    }
  }

  lemma {:induction false} ByteSplit(s: bytes, i: nat)
    requires i < |s|
    ensures s == s[..i] + [s[i]] + s[i + 1..]
  {
  }

  lemma {:induction false} SplitHasNone(s: bytes, b: byte)
    ensures forall i :: 0 <= i < |SplitOn(s, b)| ==> b !in SplitOn(s, b)[i]
    decreases |s|
  {
    if IndexOf(s, b) < |s| {
      SplitHasNone(s[IndexOf(s, b) + 1..], b);
    }
  }

  lemma {:induction false} JoinGrow(parts: seq<bytes>, x: bytes, y: bytes, sep: bytes)
    ensures Join(parts + [x + y], sep) == Join(parts + [x], sep) + y
  {
    JoinLast(parts, x + y, sep);
    JoinLast(parts, x, sep);
    Assoc(Terminated(parts, sep), x, y);
  }

  // ----- one line -----

  /** After the word that makes the first `k`, `pieces` are out and `buf` is being filled. */
  ghost predicate Filling(words: seq<bytes>, k: nat, length: int, pieces: seq<bytes>, buf: bytes) {
    k <= |words| && Wrapped(Join(words[..k], [SP]), length, pieces + [buf])
  }

  lemma {:induction false} FirstPiece(words: seq<bytes>, length: int)
    requires words != [] && SP !in words[0]
    ensures Filling(words, 1, length, [], words[0])
  {
    assert words[..1] == [words[0]];
    assert [] + [words[0]] == [words[0]];
    assert SingleWord(words[0]) by {
      forall i | 1 <= i < |words[0]| ensures words[0][i] != SP {
        assert words[0][i] in words[0];
      }
    }
  }

  lemma {:induction false} WordsPush(words: seq<bytes>, k: nat)
    requires 0 < k < |words|
    ensures Join(words[..k + 1], [SP]) == Join(words[..k], [SP]) + ([SP] + words[k])
  {
    assert words[..k + 1] == words[..k] + [words[k]];
    JoinPush(words[..k], words[k], [SP]);
  }

  lemma {:induction false} BreakHere(words: seq<bytes>, k: nat, length: int, pieces: seq<bytes>, buf: bytes)
    requires 0 < k < |words| && SP !in words[k] && Filling(words, k, length, pieces, buf)
    requires buf != [] && |buf| + 1 + |words[k]| > length
    ensures Filling(words, k + 1, length, pieces + [buf], words[k])
  {
    var was, now := pieces + [buf], pieces + [buf] + [words[k]];
    WordsPush(words, k);
    JoinPush(was, words[k], [SP]);
    assert IndexOf(words[k], SP) == |words[k]|;
    assert FirstWord(words[k]) == words[k];
    forall i | 0 <= i < |now| ensures Fits(now[i], length) {
      if i < |was| {
        assert now[i] == was[i];
      } else {
        forall j | 1 <= j < |words[k]| ensures words[k][j] != SP {
          assert words[k][j] in words[k];
        }
      }
    }
    forall i | 0 <= i < |now| - 1 ensures Needed(now[i], now[i + 1], length) {
      if i < |was| - 1 {
        assert now[i] == was[i] && now[i + 1] == was[i + 1];
      }
    }
  }

  lemma {:induction false} FirstWordGrows(buf: bytes, more: bytes)
    ensures FirstWord(buf + ([SP] + more)) == FirstWord(buf)
  {
    var t := buf + ([SP] + more);
    var i := IndexOf(buf, SP);
    assert t[i] == SP && forall k :: 0 <= k < i ==> t[k] == buf[k];
    assert IndexOf(t, SP) == i;
  }

  lemma {:induction false} GoOn(words: seq<bytes>, k: nat, length: int, pieces: seq<bytes>, buf: bytes)
    requires 0 < k < |words| && SP !in words[k] && Filling(words, k, length, pieces, buf)
    requires buf == [] || |buf| + 1 + |words[k]| <= length
    ensures Filling(words, k + 1, length, pieces, buf + ([SP] + words[k]))
  {
    var grown := buf + ([SP] + words[k]);
    var was, now := pieces + [buf], pieces + [grown];
    WordsPush(words, k);
    JoinGrow(pieces, buf, [SP] + words[k], [SP]);
    FirstWordGrows(buf, words[k]);
    assert Fits(grown, length) by {
      if buf == [] {
        forall j | 1 <= j < |grown| ensures grown[j] != SP {
          assert grown[j] in words[k];
        }
      }
    }
    forall i | 0 <= i < |now| ensures Fits(now[i], length) {
      if i < |pieces| {
        assert now[i] == was[i];
      }
    }
    forall i | 0 <= i < |now| - 1 ensures Needed(now[i], now[i + 1], length) {
      assert now[i] == was[i];
      assert Needed(was[i], was[i + 1], length);
    }
  }

  /** The inner loop before word `k`: what is finished has been appended to the message. */
  ghost predicate LineState(words: seq<bytes>, k: nat, length: int, le: bytes, message: bytes, r: bytes,
                            done: seq<bytes>, buf: bytes) {
    && r == message + Terminated(done, le)
    && if k == 0 then buf == [] && done == [] else Filling(words, k, length, done, buf)
  }

  ghost predicate NoSpaces(words: seq<bytes>) { forall i :: 0 <= i < |words| ==> SP !in words[i] }

  lemma {:induction false} LineCut(words: seq<bytes>, k: nat, length: int, le: bytes, message: bytes, r: bytes,
                                       done: seq<bytes>, buf: bytes)
    requires LineState(words, k, length, le, message, r, done, buf) && NoSpaces(words) && k < |words|
    requires buf != [] && |buf| + 1 + |words[k]| > length
    ensures LineState(words, k + 1, length, le, message, r + (buf + le), done + [buf], words[k])
  {
    BreakHere(words, k, length, done, buf);
    TerminatedPush(done, buf, le);
    Assoc(message, Terminated(done, le), buf + le);
  }

  lemma {:induction false} LineGoesOn(words: seq<bytes>, k: nat, length: int, le: bytes, message: bytes, r: bytes,
                                      done: seq<bytes>, buf: bytes)
    requires LineState(words, k, length, le, message, r, done, buf) && NoSpaces(words) && k < |words|
    requires k > 0 ==> buf == [] || |buf| + 1 + |words[k]| <= length
    ensures LineState(words, k + 1, length, le, message, r, done, if k == 0 then words[0] else buf + ([SP] + words[k]))
  {
    if k == 0 {
      FirstPiece(words, length);
    } else {
      GoOn(words, k, length, done, buf);
    }
  }

  lemma {:induction false} LineEnds(words: seq<bytes>, line: bytes, length: int, le: bytes, message: bytes, r: bytes,
                                    done: seq<bytes>, buf: bytes)
    requires words != [] && line == Join(words, [SP])
    requires LineState(words, |words|, length, le, message, r, done, buf)
    ensures Wrapped(line, length, done + [buf])
    ensures r + (buf + le) == message + Terminated(done + [buf], le)
  {
    assert words[..|words|] == words;
    TerminatedPush(done, buf, le);
    Assoc(message, Terminated(done, le), buf + le);
  }

  lemma {:induction false} LineStarts(words: seq<bytes>, length: int, le: bytes, message: bytes)
    ensures LineState(words, 0, length, le, message, message, [], [])
  {
    assert message + [] == message;
  }

  lemma {:induction false} FirstIsEmpty(words: seq<bytes>, k: nat, length: int, le: bytes, message: bytes, r: bytes,
                                        done: seq<bytes>, buf: bytes)
    requires LineState(words, k, length, le, message, r, done, buf)
    ensures k == 0 ==> buf == []
  {
  }

  /** The inner loop of `wrapText`: appends one line's pieces to the message. */
  method WrapLine(message: bytes, line: bytes, length: int, le: bytes) returns (r: bytes)
    ensures exists pieces :: Wrapped(line, length, pieces) && r == message + Terminated(pieces, le)
  {
    var words := SplitOn(line, SP);
    JoinOfSplit(line, SP);
    SplitHasNone(line, SP);
    assert NoSpaces(words);
    LineStarts(words, length, le, message);
    hide *;
    r := message;
    var buf: bytes, firstWord := [], true;
    ghost var done: seq<bytes> := [];
    var k := 0;
    while k < |words|
      invariant 0 <= k <= |words|
      invariant firstWord <==> k == 0
      invariant LineState(words, k, length, le, message, r, done, buf)
    {
      var word, before := words[k], buf;
      FirstIsEmpty(words, k, length, le, message, r, done, buf);
      if !firstWord {
        buf := buf + [SP];
      }
      buf := buf + word;
      assert buf == if k == 0 then word else before + ([SP] + word);
      if before != [] && |buf| > length {
        LineCut(words, k, length, le, message, r, done, before);
        r := r + (before + le);
        buf := word;
        done := done + [before];
      } else {
        LineGoesOn(words, k, length, le, message, r, done, before);
      }
      firstWord := false;
      k := k + 1;
    }
    LineEnds(words, line, length, le, message, r, done, buf);
    r := r + (buf + le);
  }

  // ----- the whole message -----

  /** `explode` on the line break in use. */
  function Explode(s: bytes, le: bytes): (r: seq<bytes>)
    requires BreakStyle(le)
    ensures r != []
  {
    if le == CRLF then CrlfLines(s) else SplitOn(s, le[0])
  }

  lemma {:induction false} ExplodeOfJoin(lines: seq<bytes>, le: bytes)
    requires lines != [] && AllOneLine(lines) && BreakStyle(le)
    ensures Explode(Join(lines, le), le) == lines
  {
    if le == CRLF {
      CrlfLinesOfJoin(lines);
    } else {
      assert le == [le[0]];
      SplitOfJoin(lines, le[0]);
    }
  }

  /** The message with one trailing break removed. */
  function DropBreak(s: bytes, le: bytes): bytes {
    if |le| <= |s| && s[|s| - |le|..] == le then s[..|s| - |le|] else s
  }

  lemma {:induction false} EndsInBreak(lines: seq<bytes>, le: bytes)
    requires lines != [] && AllOneLine(lines) && BreakStyle(le)
    ensures var s := Join(lines, le);
      (|le| <= |s| && s[|s| - |le|..] == le) <==> (|lines| > 1 && lines[|lines| - 1] == [])
  {
    var n := |lines| - 1;
    var front, last := lines[..n], lines[n];
    var s := Join(lines, le);
    assert lines == front + [last];
    if front != [] {
      JoinPush(front, last, le);
      if last != [] {
        assert s[|s| - 1] == last[|last| - 1];
      }
    } else {
      assert s == last;
      if |le| <= |s| {
        assert !IsBreak(s[|s| - 1]) && IsBreak(le[|le| - 1]);
        assert s[|s| - |le|..][|le| - 1] == s[|s| - 1];
      }
    }
  }

  lemma {:induction false} DropBreakLines(message: bytes, le: bytes)
    requires BreakStyle(le)
    ensures DropBreak(NormalizeBreaks(message, le), le) == Join(InputLines(message), le)
    ensures AllOneLine(InputLines(message))
  {
    var segs := Segments(message);
    NormalizeIsJoin(message, le);
    SegmentsOneLine(message);
    EndsInBreak(segs, le);
    if |segs| > 1 && segs[|segs| - 1] == [] {
      var front := segs[..|segs| - 1];
      assert segs == front + [[]];
      JoinPush(front, [], le);
      assert Join(front, le) + (le + []) == Join(front, le) + le;
    }
  }

  /** The lines so far are wrapped and written. */
  ghost predicate WrappedSoFar(lines: seq<bytes>, length: int, le: bytes, wrapped: bytes, layout: seq<seq<bytes>>) {
    AllWrapped(lines, length, layout) && wrapped == Terminated(Flatten(layout), le)
  }

  lemma {:induction false} WrapOneMore(lines: seq<bytes>, line: bytes, length: int, le: bytes, wrapped: bytes,
                                       layout: seq<seq<bytes>>, pieces: seq<bytes>)
    requires WrappedSoFar(lines, length, le, wrapped, layout) && Wrapped(line, length, pieces)
    ensures WrappedSoFar(lines + [line], length, le, wrapped + Terminated(pieces, le), layout + [pieces])
  {
    FlattenPush(layout, pieces);
    TerminatedConcat(Flatten(layout), pieces, le);
    hide Wrapped, Terminated, Flatten;
  }

  /** `wrapText` outside quoted-printable mode. */
  method WrapText(message: bytes, length: int, le: bytes) returns (wrapped: bytes)
    requires BreakStyle(le)
    ensures IsWrapping(message, length, le, wrapped)
  {
    var text := DropBreak(NormalizeBreaks(message, le), le);
    DropBreakLines(message, le);
    ExplodeOfJoin(InputLines(message), le);
    var lines := Explode(text, le);
    wrapped := [];
    ghost var layout: seq<seq<bytes>> := [];
    var i := 0;
    while i < |lines|
      invariant 0 <= i <= |lines|
      invariant WrappedSoFar(lines[..i], length, le, wrapped, layout)
    {
      hide Wrapped, WrappedSoFar, Terminated;
      ghost var before := wrapped;
      wrapped := WrapLine(wrapped, lines[i], length, le);
      ghost var pieces :| Wrapped(lines[i], length, pieces) && wrapped == before + Terminated(pieces, le);
      WrapOneMore(lines[..i], lines[i], length, le, before, layout, pieces);
      assert lines[..i + 1] == lines[..i] + [lines[i]];
      layout := layout + [pieces];
      i := i + 1;
    }
    assert lines[..|lines|] == lines;
  }

  // ----- what a wrapping means to its reader -----

  /** Turning the soft breaks back into spaces. */
  function Unwrapped(layout: seq<seq<bytes>>): (r: seq<bytes>)
    ensures |r| == |layout|
    ensures forall i :: 0 <= i < |layout| ==> r[i] == Join(layout[i], [SP])
  {
    seq(|layout|, i requires 0 <= i < |layout| => Join(layout[i], [SP]))
  }

  lemma {:induction false} JoinParts(pieces: seq<bytes>, b: byte)
    requires b !in Join(pieces, [SP])
    ensures forall i :: 0 <= i < |pieces| ==> b !in pieces[i]
  {
    if |pieces| > 1 {
      var rest := Join(pieces[1..], [SP]);
      assert Join(pieces, [SP]) == pieces[0] + [SP] + rest;
      JoinParts(pieces[1..], b);
      forall i | 0 <= i < |pieces| ensures b !in pieces[i] {
        assert i > 0 ==> pieces[i] == pieces[1..][i - 1];
      }
    }
  }

  lemma {:induction false} PiecesOneLine(line: bytes, length: int, pieces: seq<bytes>)
    requires OneLine(line) && Wrapped(line, length, pieces)
    ensures AllOneLine(pieces)
  {
    assert CR !in line && LF !in line;
    JoinParts(pieces, CR);
    JoinParts(pieces, LF);
    forall i | 0 <= i < |pieces| ensures OneLine(pieces[i]) {
      forall k | 0 <= k < |pieces[i]| ensures !IsBreak(pieces[i][k]) {
        assert pieces[i][k] in pieces[i];
      }
    }
  }

  /** The pieces of all lines: break-free, at least one, and each too long only as a single word. */
  lemma {:induction false} LayoutPieces(lines: seq<bytes>, length: int, layout: seq<seq<bytes>>)
    requires AllOneLine(lines) && AllWrapped(lines, length, layout)
    ensures AllOneLine(Flatten(layout))
    ensures lines != [] ==> Flatten(layout) != []
    ensures forall i :: 0 <= i < |Flatten(layout)| ==> Fits(Flatten(layout)[i], length)
  {
    if lines != [] {
      assert Wrapped(lines[0], length, layout[0]);
      PiecesOneLine(lines[0], length, layout[0]);
      forall i | 0 <= i < |lines[1..]| ensures Wrapped(lines[1..][i], length, layout[1..][i]) {
        assert Wrapped(lines[i + 1], length, layout[i + 1]);
      }
      LayoutPieces(lines[1..], length, layout[1..]);
    }
  }

  lemma {:induction false} ReadWrapped(lines: seq<bytes>, length: int, layout: seq<seq<bytes>>, le: bytes)
    requires BreakStyle(le) && lines != [] && AllOneLine(lines) && AllWrapped(lines, length, layout)
    ensures Segments(Terminated(Flatten(layout), le)) == Flatten(layout) + [[]]
  {
    LayoutPieces(lines, length, layout);
    var pieces := Flatten(layout);
    JoinLast(pieces, [], le);
    assert Terminated(pieces, le) + [] == Terminated(pieces, le);
    SegmentsOfJoin(pieces + [[]], le);
  }

  /** The output reads as the pieces of `layout`; with its soft breaks as spaces it is the message. */
  ghost predicate Reverses(message: bytes, le: bytes, wrapped: bytes, layout: seq<seq<bytes>>) {
    && Segments(wrapped) == Flatten(layout) + [[]]
    && Join(Unwrapped(layout), le) == DropBreak(NormalizeBreaks(message, le), le)
  }

  /** Wrapping is reversible: turning the soft breaks back into spaces gives the normalised message, up to one
      trailing break. */
  lemma {:induction false} WrapIsReversible(message: bytes, length: int, le: bytes, wrapped: bytes)
    requires BreakStyle(le) && IsWrapping(message, length, le, wrapped)
    ensures exists layout :: Reverses(message, le, wrapped, layout)
  {
    var lines := InputLines(message);
    var layout :| AllWrapped(lines, length, layout) && wrapped == Terminated(Flatten(layout), le);
    DropBreakLines(message, le);
    ReadWrapped(lines, length, layout, le);
    assert Unwrapped(layout) == lines by {
      forall i | 0 <= i < |lines| ensures Unwrapped(layout)[i] == lines[i] {
        assert Wrapped(lines[i], length, layout[i]);
      }
    }
    assert Reverses(message, le, wrapped, layout);
  }

  /** Any output line over the limit is a single word with at most one space before it. */
  lemma {:induction false} LongLinesAreSingleWords(message: bytes, length: int, le: bytes, wrapped: bytes, i: nat)
    requires BreakStyle(le) && IsWrapping(message, length, le, wrapped) && i < |Segments(wrapped)|
    ensures |Segments(wrapped)[i]| <= length || SingleWord(Segments(wrapped)[i])
  {
    var lines := InputLines(message);
    var layout :| AllWrapped(lines, length, layout) && wrapped == Terminated(Flatten(layout), le);
    DropBreakLines(message, le);
    ReadWrapped(lines, length, layout, le);
    LayoutPieces(lines, length, layout);
    if i < |Flatten(layout)| {
      assert Fits(Flatten(layout)[i], length);
    }
  }
}
