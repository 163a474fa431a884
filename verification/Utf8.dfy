/** UTF-8 text as a sequence of characters of one to four bytes. */
module Utf8 {
  import opened Bytes

  /** Number of bytes a lead byte announces; 0 for a byte that cannot start a character. */
  function CharLen(lead: byte): nat {
    if lead < 0x80 then 1
    else if 0xC2 <= lead <= 0xDF then 2
    else if 0xE0 <= lead <= 0xEF then 3
    else if 0xF0 <= lead <= 0xF4 then 4
    else 0
  }

  predicate IsContinuation(b: byte) { 0x80 <= b < 0xC0 }

  predicate IsChar(c: bytes) {
    && c != []
    && CharLen(c[0]) == |c|
    && forall i :: 1 <= i < |c| ==> IsContinuation(c[i])
  }

  predicate AllChars(cs: seq<bytes>) { forall i :: 0 <= i < |cs| ==> IsChar(cs[i]) }

  /** The characters of a byte string, if it is UTF-8; `mb_strlen` is the length of the result. */
  function Chars(s: bytes): (r: Option<seq<bytes>>)
    ensures r.Some? ==> AllChars(r.value) && Flatten(r.value) == s
    decreases |s|
  {
    if s == [] then Some([])
    else
      var n := CharLen(s[0]);
      if n == 0 || |s| < n || !IsChar(s[..n]) then None
      else match Chars(s[n..])
        case None => None
        case Some(cs) => Some([s[..n]] + cs)
  }

  /** Characters can be read back from the bytes in one way only. */
  lemma {:induction false} CharsOfFlatten(cs: seq<bytes>)
    requires AllChars(cs)
    ensures Chars(Flatten(cs)) == Some(cs)
  {
    if cs != [] {
      CharsOfFlatten(cs[1..]);
      var s, n := Flatten(cs), |cs[0]|;
      assert IsChar(cs[0]);
      assert s[0] == cs[0][0] && s[..n] == cs[0] && s[n..] == Flatten(cs[1..]);
      assert [cs[0]] + cs[1..] == cs;
    }
  }

  /** A character takes at most four bytes. */
  lemma {:induction false} FlattenLength(cs: seq<bytes>)
    requires AllChars(cs)
    ensures |cs| <= |Flatten(cs)| <= 4 * |cs|
  {
    if cs != [] {
      assert IsChar(cs[0]);
      FlattenLength(cs[1..]);
    }
  }

  /** A text with as many bytes as characters is ASCII: `hasMultiBytes` is exactly "some byte above 127". */
  lemma {:induction false} SingleByteIff(cs: seq<bytes>)
    requires AllChars(cs)
    ensures |Flatten(cs)| == |cs| <==> forall i :: 0 <= i < |Flatten(cs)| ==> Flatten(cs)[i] < 0x80
  {
    if cs != [] {
      var c, t := cs[0], Flatten(cs[1..]);
      assert IsChar(c);
      assert Flatten(cs)[0] == c[0];
      SingleByteIff(cs[1..]);
      FlattenLength(cs[1..]);
      if |c| == 1 {
        assert forall i :: 0 <= i < |t| ==> t[i] == Flatten(cs)[i + 1];
      }
    }
  }

  // ----- any charset -----

  /** The bytes as characters of a single-byte charset. */
  function Singles(s: bytes): (r: seq<bytes>)
    ensures |r| == |s| && forall i :: 0 <= i < |r| ==> r[i] == [s[i]]
  {
    seq(|s|, i requires 0 <= i < |s| => [s[i]])
  }

  /** Characters of UTF-8, or of a single-byte charset. */
  predicate Units(cs: seq<bytes>, utf8: bool) {
    if utf8 then AllChars(cs) else forall i :: 0 <= i < |cs| ==> |cs[i]| == 1
  }

  function CharsIn(s: bytes, utf8: bool): (r: Option<seq<bytes>>)
    ensures r.Some? ==> Units(r.value, utf8) && Flatten(r.value) == s
    ensures !utf8 ==> r.Some?
  {
    if utf8 then Chars(s)
    else
      FlattenSingles(s);
      Some(Singles(s))
  }

  lemma {:induction false} FlattenSingles(s: bytes)
    ensures Flatten(Singles(s)) == s
  {
    if s != [] {
      FlattenSingles(s[1..]);
      assert Singles(s)[1..] == Singles(s[1..]);
    }
  }

  lemma {:induction false} UnitsRead(cs: seq<bytes>, utf8: bool)
    requires Units(cs, utf8)
    ensures CharsIn(Flatten(cs), utf8).Some?
  {
    if utf8 {
      CharsOfFlatten(cs);
    }
  }
}
