/** Base64 (section 6.8 of RFC 2045) with its inverse, and the chunked form used in bodies and headers. */
module Base64 {
  import opened Bytes

  const PAD: byte := 61

  type sextet = v: int | 0 <= v < 64

  function Char(v: sextet): byte {
    if v < 26 then 65 + v
    else if v < 52 then 71 + v
    else if v < 62 then v - 4
    else if v == 62 then 43 else 47
  }

  function Value(c: byte): (r: Option<sextet>)
    ensures r.Some? ==> Char(r.value) == c
  {
    if 65 <= c <= 90 then Some(c - 65)
    else if 97 <= c <= 122 then Some(c - 71)
    else if 48 <= c <= 57 then Some(c + 4)
    else if c == 43 then Some(62)
    else if c == 47 then Some(63)
    else None
  }

  function EncodeGroup(a: byte, b: byte, c: byte): (r: bytes)
    ensures |r| == 4
  {
    [Char(a / 4), Char(a % 4 * 16 + b / 16), Char(b % 16 * 4 + c / 64), Char(c % 64)]
  }

  /** `base64_encode`. */
  function Encode(s: bytes): bytes {
    if |s| == 0 then []
    else if |s| == 1 then EncodeGroup(s[0], 0, 0)[..2] + [PAD, PAD]
    else if |s| == 2 then EncodeGroup(s[0], s[1], 0)[..3] + [PAD]
    else EncodeGroup(s[0], s[1], s[2]) + Encode(s[3..])
  }

  function DecodeGroup(p: sextet, q: sextet, r: sextet, s: sextet): (b: bytes)
    ensures |b| == 3
  {
    var w: int, x: int, y: int, z: int := p, q, r, s;
    [w * 4 + x / 16, x % 16 * 16 + y / 4, y % 4 * 64 + z]
  }

  /** Strict decoder: whole groups, padding only in the last one. */
  function Decode(t: bytes): Option<bytes> {
    if t == [] then Some([])
    else if |t| < 4 then None
    else match (Value(t[0]), Value(t[1]), Value(t[2]), Value(t[3]))
      case (Some(p), Some(q), Some(r), Some(s)) =>
        (match Decode(t[4..])
         case None => None
         case Some(rest) => Some(DecodeGroup(p, q, r, s) + rest))
      case (Some(p), Some(q), Some(r), None) =>
        if |t| == 4 && t[3] == PAD then Some(DecodeGroup(p, q, r, 0)[..2]) else None
      case (Some(p), Some(q), None, None) =>
        if |t| == 4 && t[2] == PAD && t[3] == PAD then Some(DecodeGroup(p, q, 0, 0)[..1]) else None
      case _ => None
  }

  lemma {:induction false} GroupValues(a: byte, b: byte, c: byte)
    ensures var g := EncodeGroup(a, b, c);
      && Value(g[0]) == Some(a / 4)
      && Value(g[1]) == Some(a % 4 * 16 + b / 16)
      && Value(g[2]) == Some(b % 16 * 4 + c / 64)
      && Value(g[3]) == Some(c % 64)
  {
  }

  /** The alphabet of table 1 of RFC 4648: capitals, small letters, digits, plus and slash. */
  lemma {:induction false} AlphabetInOrder(v: sextet)
    ensures Char(v) == if v < 26 then Ascii("A")[0] + v else if v < 52 then Ascii("a")[0] + (v - 26)
      else if v < 62 then Ascii("0")[0] + (v - 52) else if v == 62 then Ascii("+")[0] else Ascii("/")[0]
  {
  }

  /** Three bytes, read as one number of 24 bits, are the four characters read as its digits in base 64. */
  lemma {:induction false} GroupIsNumber(a: byte, b: byte, c: byte)
    ensures exists p: sextet, q: sextet, r: sextet, s: sextet ::
      EncodeGroup(a, b, c) == [Char(p), Char(q), Char(r), Char(s)]
      && 65536 * a + 256 * b + c == 262144 * p + 4096 * q + 64 * r + s
  {
    var p: sextet, q: sextet, r: sextet, s: sextet := a / 4, a % 4 * 16 + b / 16, b % 16 * 4 + c / 64, c % 64;
    assert EncodeGroup(a, b, c) == [Char(p), Char(q), Char(r), Char(s)];
    assert 65536 * a + 256 * b + c == 262144 * p + 4096 * q + 64 * r + s;
  }

  /** The test vectors "f", "fo" and "foob" of section 10 of RFC 4648. */
  lemma {:induction false} TestVectors(f: bytes, fo: bytes, foob: bytes)
    requires f == [102] && fo == [102, 111] && foob == [102, 111, 111, 98]
    ensures Encode(f) == [90, 103, 61, 61] && Encode(fo) == [90, 109, 56, 61]
    ensures Encode(foob) == [90, 109, 57, 118, 89, 103, 61, 61]
  {
    assert foob[3..] == [98];
    assert Encode([98]) == [89, 103, 61, 61];
  }

  lemma {:induction false} GroupRoundTrip(a: byte, b: byte, c: byte)
    ensures DecodeGroup(a / 4, a % 4 * 16 + b / 16, b % 16 * 4 + c / 64, c % 64) == [a, b, c]
  {
  }

  lemma {:induction false} DecodeOne(a: byte)
    ensures Decode(Encode([a])) == Some([a])
  {
    GroupValues(a, 0, 0);
    GroupRoundTrip(a, 0, 0);
    assert [a, 0, 0][..1] == [a];
  }

  lemma {:induction false} DecodeTwo(a: byte, b: byte)
    ensures Decode(Encode([a, b])) == Some([a, b])
  {
    GroupValues(a, b, 0);
    GroupRoundTrip(a, b, 0);
    assert [a, b, 0][..2] == [a, b];
  }

  lemma {:induction false} DecodeShort(s: bytes)
    requires |s| < 3
    ensures Decode(Encode(s)) == Some(s)
  {
    if |s| == 1 {
      assert s == [s[0]];
      DecodeOne(s[0]);
    } else if |s| == 2 {
      assert s == [s[0], s[1]];
      DecodeTwo(s[0], s[1]);
    }
  }

  lemma {:induction false} EncodeStep(s: bytes)
    requires |s| >= 3
    ensures Encode(s) == EncodeGroup(s[0], s[1], s[2]) + Encode(s[3..])
    ensures [s[0], s[1], s[2]] + s[3..] == s
  {
    hide EncodeGroup;
  }

  /** The round trip. */
  lemma {:induction false} DecodeEncode(s: bytes)
    ensures Decode(Encode(s)) == Some(s)
  {
    hide *;
    if |s| < 3 {
      DecodeShort(s);
    } else {
      DecodeEncode(s[3..]);
      EncodeStep(s);
      DecodeGroupStep(s[0], s[1], s[2], Encode(s[3..]), s[3..]);
    }
  }

  lemma {:induction false} DecodeGroupStep(a: byte, b: byte, c: byte, t: bytes, rest: bytes)
    requires Decode(t) == Some(rest)
    ensures Decode(EncodeGroup(a, b, c) + t) == Some([a, b, c] + rest)
  {
    var g := EncodeGroup(a, b, c);
    var u := g + t;
    GroupValues(a, b, c);
    GroupRoundTrip(a, b, c);
    assert u[4..] == t;
    assert u[0] == g[0] && u[1] == g[1] && u[2] == g[2] && u[3] == g[3];
  }

  lemma {:induction false} DecodeShorter(t: bytes)
    ensures Decode(t).Some? ==> |Decode(t).value| <= |t|
  {
    if |t| >= 4 {
      DecodeShorter(t[4..]);
    }
  }

  /** Four output characters for each started group of three input bytes. */
  lemma {:induction false} EncodedLength(s: bytes)
    ensures |Encode(s)| == (|s| + 2) / 3 * 4
  {
    if |s| > 2 {
      EncodedLength(s[3..]);
    }
  }

  /** Cutting the encoded text at a multiple of four is cutting the input at the same multiple of three. */
  lemma {:induction false} EncodeSplit(s: bytes, k: nat)
    requires 3 * k <= |s|
    ensures 4 * k <= |Encode(s)|
    ensures Encode(s)[..4 * k] == Encode(s[..3 * k])
    ensures Encode(s)[4 * k..] == Encode(s[3 * k..])
  {
    if k == 0 {
      assert s[3 * k..] == s && Encode(s)[4 * k..] == Encode(s);
    } else {
      var g, t := EncodeGroup(s[0], s[1], s[2]), s[3..];
      EncodeSplit(t, k - 1);
      var pre := s[..3 * k];
      assert pre[3..] == t[..3 * (k - 1)];
      assert t[3 * (k - 1)..] == s[3 * k..];
      assert (g + Encode(t))[..4 * k] == g + Encode(t)[..4 * (k - 1)];
      assert (g + Encode(t))[4 * k..] == Encode(t)[4 * (k - 1)..];
    }
  }

  /** What encoded text is made of; in particular no dash, space, line break or question mark. */
  predicate InAlphabet(b: byte) { Value(b).Some? || b == PAD }

  predicate AllInAlphabet(s: bytes) { forall i :: 0 <= i < |s| ==> InAlphabet(s[i]) }

  lemma {:induction false} EncodeAlphabet(s: bytes)
    ensures AllInAlphabet(Encode(s))
  {
    if |s| == 0 {
    } else if |s| == 1 {
      GroupValues(s[0], 0, 0);
    } else if |s| == 2 {
      GroupValues(s[0], s[1], 0);
    } else {
      GroupValues(s[0], s[1], s[2]);
      EncodeAlphabet(s[3..]);
    }
  }

  /** The pieces `chunk_split` cuts a string into (one piece, possibly empty, when it fits). */
  function Chunks(s: bytes, n: nat): (r: seq<bytes>)
    requires n > 0
    ensures |r| > 0
    decreases |s|
  {
    if |s| <= n then [s] else [s[..n]] + Chunks(s[n..], n)
  }

  /** `chunk_split`. */
  function ChunkSplit(s: bytes, n: nat, end: bytes): bytes
    requires n > 0
  {
    Terminated(Chunks(s, n), end)
  }

  lemma {:induction false} ChunksFlatten(s: bytes, n: nat)
    requires n > 0
    ensures Flatten(Chunks(s, n)) == s
    ensures forall i :: 0 <= i < |Chunks(s, n)| ==> |Chunks(s, n)[i]| <= n
    decreases |s|
  {
    if |s| > n {
      ChunksFlatten(s[n..], n);
    } else {
      assert Flatten([s]) == s;
    }
  }

  lemma {:induction false} ChunksAlphabet(s: bytes, n: nat)
    requires n > 0 && AllInAlphabet(s)
    ensures forall i :: 0 <= i < |Chunks(s, n)| ==> AllInAlphabet(Chunks(s, n)[i])
    decreases |s|
  {
    if |s| > n {
      ChunksAlphabet(s[n..], n);
    }
  }
}
