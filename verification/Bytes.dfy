/** Byte strings and the PHP string primitives the mail library is built from. */
module Bytes {

  type byte = b: int | 0 <= b < 256
  type bytes = seq<byte>

  const TAB: byte := 9
  const LF: byte := 10
  const CR: byte := 13
  const SP: byte := 32
  const CRLF: bytes := [CR, LF]

  datatype Option<+T> = None | Some(value: T)

  /** The bytes of an ASCII literal. */
  function Ascii(s: string): (r: bytes)
    ensures |r| == |s|
    ensures forall i :: 0 <= i < |s| ==> r[i] == s[i] as int % 256
  {
    seq(|s|, i requires 0 <= i < |s| => s[i] as int % 256)
  }

  /** Concatenation of a list of lists; on strings, `implode('', ...)`. */
  function Flatten<T>(parts: seq<seq<T>>): seq<T> {
    if parts == [] then [] else parts[0] + Flatten(parts[1..])
  }

  lemma {:induction false} FlattenConcat<T>(a: seq<seq<T>>, b: seq<seq<T>>)
    ensures Flatten(a + b) == Flatten(a) + Flatten(b)
  {
    if a == [] {
      assert a + b == b;
    } else {
      assert (a + b)[1..] == a[1..] + b;
      FlattenConcat(a[1..], b);
    }
  }

  lemma {:induction false} FlattenPush<T>(parts: seq<seq<T>>, x: seq<T>)
    ensures Flatten(parts + [x]) == Flatten(parts) + x
  {
    FlattenConcat(parts, [x]);
    assert [x][1..] == [];
    assert Flatten([x]) == x + Flatten([x][1..]);
    assert x + [] == x;
  }

  lemma {:induction false} Assoc<T>(a: seq<T>, b: seq<T>, c: seq<T>)
    ensures (a + b) + c == a + (b + c)
  {
  }

  lemma {:induction false} MulMonotone(a: int, b: int, d: nat)
    requires a <= b
    ensures a * d <= b * d
  {
  }

  /** Position of the first `b` in `s`, or the length of `s` when there is none. */
  function IndexOf(s: bytes, b: byte): (i: nat)
    ensures i <= |s|
    ensures forall k :: 0 <= k < i ==> s[k] != b
    ensures i < |s| ==> s[i] == b
  {
    if s == [] || s[0] == b then 0 else 1 + IndexOf(s[1..], b)
  }

  lemma {:induction false} IndexAfter(pre: bytes, b: byte, rest: bytes)
    requires b !in pre
    ensures IndexOf(pre + ([b] + rest), b) == |pre|
  {
    var s := pre + ([b] + rest);
    assert s[|pre|] == b;
    assert forall k :: 0 <= k < |pre| ==> s[k] == pre[k];
  }

  /** `substr` with a start inside or beyond the string. */
  function Substr(s: bytes, start: nat, n: nat): (r: bytes)
    ensures |r| <= n
    ensures start + n <= |s| ==> r == s[start..start + n]
  {
    if start >= |s| then [] else if start + n >= |s| then s[start..] else s[start..start + n]
  }

  /** `explode` on a one-byte separator. */
  function SplitOn(s: bytes, b: byte): (r: seq<bytes>)
    ensures |r| > 0
    decreases |s|
  {
    var i := IndexOf(s, b);
    if i == |s| then [s] else [s[..i]] + SplitOn(s[i + 1..], b)
  }

  /** `implode`. */
  function Join(parts: seq<bytes>, sep: bytes): bytes {
    if parts == [] then []
    else if |parts| == 1 then parts[0]
    else parts[0] + sep + Join(parts[1..], sep)
  }

  /** Each string of the list followed by `end`. */
  function Terminated(parts: seq<bytes>, end: bytes): bytes {
    if parts == [] then [] else parts[0] + end + Terminated(parts[1..], end)
  }

  lemma {:induction false} TerminatedPush(parts: seq<bytes>, x: bytes, end: bytes)
    ensures Terminated(parts + [x], end) == Terminated(parts, end) + (x + end)
  {
    if parts == [] {
      assert parts + [x] == [x] && [x][1..] == [];
      assert x + end + [] == x + end;
    } else {
      assert (parts + [x])[1..] == parts[1..] + [x];
      TerminatedPush(parts[1..], x, end);
      Assoc(parts[0] + end, Terminated(parts[1..], end), x + end);
    }
  }

  lemma {:induction false} TerminatedConcat(a: seq<bytes>, b: seq<bytes>, end: bytes)
    ensures Terminated(a + b, end) == Terminated(a, end) + Terminated(b, end)
  {
    if a == [] {
      assert a + b == b;
    } else {
      assert (a + b)[1..] == a[1..] + b;
      TerminatedConcat(a[1..], b, end);
      Assoc(a[0] + end, Terminated(a[1..], end), Terminated(b, end));
    }
  }

  lemma {:induction false} JoinLast(parts: seq<bytes>, x: bytes, sep: bytes)
    ensures Join(parts + [x], sep) == Terminated(parts, sep) + x
  {
    if parts == [] {
      assert parts + [x] == [x];
    } else {
      assert (parts + [x])[1..] == parts[1..] + [x];
      JoinLast(parts[1..], x, sep);
      Assoc(parts[0] + sep, Terminated(parts[1..], sep), x);
    }
  }

  lemma {:induction false} TerminatedIsJoin(parts: seq<bytes>, end: bytes)
    requires parts != []
    ensures Terminated(parts, end) == Join(parts, end) + end
  {
    if |parts| == 1 {
      assert Terminated(parts[1..], end) == [];
    } else {
      TerminatedIsJoin(parts[1..], end);
      Assoc(parts[0] + end, Join(parts[1..], end), end);
    }
  }

  lemma {:induction false} JoinCons(x: bytes, parts: seq<bytes>, sep: bytes)
    requires parts != []
    ensures Join([x] + parts, sep) == x + sep + Join(parts, sep)
  {
    assert ([x] + parts)[1..] == parts;
  }

  lemma {:induction false} JoinPush(parts: seq<bytes>, x: bytes, sep: bytes)
    requires parts != []
    ensures Join(parts + [x], sep) == Join(parts, sep) + (sep + x)
  {
    JoinLast(parts, x, sep);
    TerminatedIsJoin(parts, sep);
    Assoc(Join(parts, sep), sep, x);
  }

  /** `str_replace`: leftmost, non-overlapping, one pass. */
  function Replace(s: bytes, pat: bytes, sub: bytes): bytes
    requires pat != []
    decreases |s|
  {
    if s == [] then []
    else if pat <= s then sub + Replace(s[|pat|..], pat, sub)
    else [s[0]] + Replace(s[1..], pat, sub)
  }

  lemma {:induction false} ReplaceSkip(seg: bytes, rest: bytes, b: byte, sub: bytes)
    requires b !in seg
    ensures Replace(seg + rest, [b], sub) == seg + Replace(rest, [b], sub)
  {
    if seg == [] {
      assert seg + rest == rest;
    } else {
      ReplaceSkip(seg[1..], rest, b, sub);
      assert (seg + rest)[1..] == seg[1..] + rest;
      assert (seg + rest)[0] == seg[0] != b;
    }
  }

  lemma {:induction false} PlainOneLine(s: string)
    requires forall i :: 0 <= i < |s| ==> ' ' <= s[i] <= '~'
    ensures OneLine(Ascii(s))
  {
  }

  predicate IsBreak(b: byte) { b == CR || b == LF }

  /** No line break byte anywhere. */
  predicate OneLine(s: bytes) { forall i :: 0 <= i < |s| ==> !IsBreak(s[i]) }

  /** ASCII lower-casing, `strtolower`. */
  function LowerByte(b: byte): byte { if 65 <= b <= 90 then b + 32 else b }

  function Lower(s: bytes): (r: bytes)
    ensures |r| == |s|
    ensures forall i :: 0 <= i < |s| ==> r[i] == LowerByte(s[i])
  {
    seq(|s|, i requires 0 <= i < |s| => LowerByte(s[i]))
  }

  /** The string starts with the pattern in some letter case. */
  predicate StartsLike(s: bytes, pat: bytes) { Lower(pat) <= Lower(s) }

  lemma {:induction false} LowerConcat(a: bytes, b: bytes)
    ensures Lower(a + b) == Lower(a) + Lower(b)
  {
  }

  /** PHP's `empty` on a string: "" and "0" are empty. */
  predicate Empty(s: bytes) { s == [] || s == [48] }

  // ----- CRLF-terminated lines -----

  /** Position of the first CRLF, or the length. */
  function FindCrlf(s: bytes): (i: nat)
    ensures i <= |s|
    ensures i < |s| ==> i + 1 < |s| && s[i] == CR && s[i + 1] == LF
  {
    if s == [] || CRLF <= s then 0 else 1 + FindCrlf(s[1..])
  }

  lemma {:induction false} FindCrlfAfter(line: bytes, rest: bytes)
    requires OneLine(line)
    ensures FindCrlf(line + (CRLF + rest)) == |line|
  {
    if line == [] {
      assert line + (CRLF + rest) == CRLF + rest;
    } else {
      assert (line + (CRLF + rest))[1..] == line[1..] + (CRLF + rest);
      FindCrlfAfter(line[1..], rest);
    }
  }

  /** `explode("\r\n", ...)`. */
  function CrlfLines(s: bytes): (r: seq<bytes>)
    ensures |r| > 0
    decreases |s|
  {
    var i := FindCrlf(s);
    if i == |s| then [s] else [s[..i]] + CrlfLines(s[i + 2..])
  }

  /** A line up to its CRLF is a line of the text. */
  lemma {:induction false} CrlfLinesStep(line: bytes, rest: bytes)
    requires OneLine(line)
    ensures CrlfLines(line + (CRLF + rest)) == [line] + CrlfLines(rest)
  {
    FindCrlfAfter(line, rest);
    var t := line + (CRLF + rest);
    assert t[..|line|] == line && t[|line| + 2..] == rest;
  }

  lemma {:induction false} CrlfLinesOfOne(line: bytes)
    requires OneLine(line)
    ensures CrlfLines(line) == [line]
  {
    assert FindCrlf(line) == |line|;
  }

  lemma {:induction false} CrlfLinesOfJoin(lines: seq<bytes>)
    requires lines != [] && forall i :: 0 <= i < |lines| ==> OneLine(lines[i])
    ensures CrlfLines(Join(lines, CRLF)) == lines
  {
    hide CrlfLines, OneLine;
    if |lines| == 1 {
      CrlfLinesOfOne(lines[0]);
    } else {
      CrlfLinesOfJoin(lines[1..]);
      CrlfLinesStep(lines[0], Join(lines[1..], CRLF));
      Assoc(lines[0], CRLF, Join(lines[1..], CRLF));
    }
  }

  // ----- trimming -----

  /** The bytes `trim` removes. */
  predicate IsTrimmed(b: byte) { b == SP || b == TAB || IsBreak(b) || b == 0 || b == 11 }

  function TrimLeft(s: bytes): bytes { if s != [] && IsTrimmed(s[0]) then TrimLeft(s[1..]) else s }

  function TrimRight(s: bytes): bytes {
    if s != [] && IsTrimmed(s[|s| - 1]) then TrimRight(s[..|s| - 1]) else s
  }

  /** `trim`. */
  function Trim(s: bytes): bytes { TrimRight(TrimLeft(s)) }

  lemma {:induction false} TrimLeftOf(left: bytes, core: bytes)
    requires forall i :: 0 <= i < |left| ==> left[i] in {0, 9, 10, 11, 13, 32}
    requires core != [] ==> core[0] !in {0, 9, 10, 11, 13, 32}
    ensures TrimLeft(left + core) == core
  {
    if left == [] {
      assert left + core == core;
    } else {
      assert (left + core)[1..] == left[1..] + core;
      TrimLeftOf(left[1..], core);
    }
  }

  lemma {:induction false} TrimRightOf(core: bytes, right: bytes)
    requires forall i :: 0 <= i < |right| ==> right[i] in {0, 9, 10, 11, 13, 32}
    requires core != [] ==> core[|core| - 1] !in {0, 9, 10, 11, 13, 32}
    ensures TrimRight(core + right) == core
  {
    if right == [] {
      assert core + right == core;
    } else {
      assert (core + right)[..|core + right| - 1] == core + right[..|right| - 1];
      TrimRightOf(core, right[..|right| - 1]);
    }
  }

  /** Trimming takes off exactly the blanks, breaks, vertical tabs and zero bytes at the two ends. */
  lemma {:induction false} TrimIsCore(left: bytes, core: bytes, right: bytes)
    requires forall i :: 0 <= i < |left| ==> left[i] in {0, 9, 10, 11, 13, 32}
    requires forall i :: 0 <= i < |right| ==> right[i] in {0, 9, 10, 11, 13, 32}
    requires core != [] && core[0] !in {0, 9, 10, 11, 13, 32} && core[|core| - 1] !in {0, 9, 10, 11, 13, 32}
    ensures Trim(left + (core + right)) == core
  {
    assert (core + right)[0] == core[0];
    hide TrimLeft, TrimRight;
    TrimLeftOf(left, core + right);
    TrimRightOf(core, right);
  }
}
