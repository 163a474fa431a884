/** Base64 encoded-words for multi-byte text: `base64EncodeWrapMB`. */
module BWrap {
  import opened Bytes
  import opened Utf8
  import Base64

  /** Room for the encoded text in a 75-byte encoded-word labelled with a five-byte charset. */
  const ROOM := 63

  /** `floor($length * $ratio * .75)` in exact arithmetic, for `chars` characters in `size` bytes. */
  function AverageLength(chars: nat, size: nat): int
    requires size > 0
  {
    (189 * chars) / (4 * size)
  }

  lemma {:induction false} DivBounds(x: nat, d: nat, low: nat, high: nat)
    requires d > 0 && low * d <= x < high * d
    ensures low <= x / d < high
  {
    var q := x / d;
    assert q * d <= x < (q + 1) * d;
    if q < low {
      MulMonotone(q + 1, low, d);
    }
    if high <= q {
      MulMonotone(high, q, d);
    }
  }

  /** Between one and four bytes a character, the starting width lies between 11 and 47 characters. */
  lemma {:induction false} AverageLengthBounds(chars: nat, size: nat)
    requires 0 < chars <= size <= 4 * chars
    ensures 11 <= AverageLength(chars, size) <= 47
  {
    DivBounds(189 * chars, 4 * size, 11, 48);
  }

  /** `mb_substr`. */
  function MbSubstr(cs: seq<bytes>, start: nat, n: nat): seq<bytes>
    requires start <= |cs|
  {
    if start + n >= |cs| then cs[start..] else cs[start..start + n]
  }

  /** Eleven characters always fit. */
  lemma {:induction false} ElevenFit(cs: seq<bytes>)
    requires AllChars(cs) && |cs| <= 11
    ensures |Base64.Encode(Flatten(cs))| <= ROOM
  {
    FlattenLength(cs);
    Base64.EncodedLength(Flatten(cs));
  }

  function GroupCodes(groups: seq<seq<bytes>>): (r: seq<bytes>)
    ensures |r| == |groups|
    ensures forall n :: 0 <= n < |r| ==> r[n] == Base64.Encode(Flatten(groups[n]))
  {
    seq(|groups|, n requires 0 <= n < |groups| => Base64.Encode(Flatten(groups[n])))
  }

  /** The characters are cut into non-empty groups whose encodings fit. */
  ghost predicate Grouped(cs: seq<bytes>, groups: seq<seq<bytes>>) {
    && Flatten(groups) == cs
    && forall n :: 0 <= n < |groups| ==> groups[n] != [] && |Base64.Encode(Flatten(groups[n]))| <= ROOM
  }

  lemma {:induction false} GroupedPush(cs: seq<bytes>, groups: seq<seq<bytes>>, g: seq<bytes>)
    requires Grouped(cs, groups) && g != [] && |Base64.Encode(Flatten(g))| <= ROOM
    ensures Grouped(cs + g, groups + [g])
  {
    FlattenConcat(groups, [g]);
    assert Flatten([g]) == g;
  }

  ghost predicate Wrapping(cs: seq<bytes>, i: nat, groups: seq<seq<bytes>>, encoded: bytes, linebreak: bytes) {
    && Grouped(MbSubstr(cs, 0, i), groups)
    && encoded == Terminated(GroupCodes(groups), linebreak)
  }

  lemma {:induction false} WrapStep(cs: seq<bytes>, i: nat, offset: nat, groups: seq<seq<bytes>>, encoded: bytes, linebreak: bytes)
    requires Wrapping(cs, i, groups, encoded, linebreak) && i < |cs| && offset > 0
    requires |Base64.Encode(Flatten(MbSubstr(cs, i, offset)))| <= ROOM
    ensures var g := MbSubstr(cs, i, offset);
      Wrapping(cs, i + offset, groups + [g], encoded + (Base64.Encode(Flatten(g)) + linebreak), linebreak)
  {
    var g := MbSubstr(cs, i, offset);
    GroupedPush(MbSubstr(cs, 0, i), groups, g);
    assert MbSubstr(cs, 0, i + offset) == MbSubstr(cs, 0, i) + g;
    assert GroupCodes(groups + [g]) == GroupCodes(groups) + [Base64.Encode(Flatten(g))];
    TerminatedPush(GroupCodes(groups), Base64.Encode(Flatten(g)), linebreak);
  }

  lemma {:induction false} WrapEnd(cs: seq<bytes>, i: nat, groups: seq<seq<bytes>>, encoded: bytes, linebreak: bytes)
    requires Wrapping(cs, i, groups, encoded, linebreak) && i >= |cs| > 0
    ensures groups != [] && Grouped(cs, groups) && |encoded| >= |linebreak|
    ensures encoded[..|encoded| - |linebreak|] == Join(GroupCodes(groups), linebreak)
  {
    assert MbSubstr(cs, 0, i) == cs;
    TerminatedIsJoin(GroupCodes(groups), linebreak);
  }

  /** The code of the `offset` characters from `i` on. */
  function ChunkCode(cs: seq<bytes>, i: nat, offset: nat): bytes
    requires i <= |cs|
  {
    Base64.Encode(Flatten(MbSubstr(cs, i, offset)))
  }

  lemma {:induction false} ElevenCode(cs: seq<bytes>, i: nat)
    requires AllChars(cs) && i <= |cs|
    ensures |ChunkCode(cs, i, 11)| <= ROOM
  {
    ElevenFit(MbSubstr(cs, i, 11));
  }

  /** The do-while loop: the widest chunk, counting down from `avgLength`, that fits. */
  method FitChunk(cs: seq<bytes>, i: nat, avgLength: nat) returns (offset: nat, chunk: bytes)
    requires AllChars(cs) && i < |cs| && avgLength >= 11
    ensures 11 <= offset <= avgLength
    ensures chunk == ChunkCode(cs, i, offset) && |chunk| <= ROOM
    ensures forall n :: offset < n <= avgLength ==> |ChunkCode(cs, i, n)| > ROOM
  {
    var lookBack := 0;
    offset := avgLength - lookBack;
    chunk := ChunkCode(cs, i, offset);
    lookBack := lookBack + 1;
    while |chunk| > ROOM
      invariant 11 <= offset == avgLength - (lookBack - 1)
      invariant chunk == ChunkCode(cs, i, offset)
      invariant forall n :: offset < n <= avgLength ==> |ChunkCode(cs, i, n)| > ROOM
      decreases offset
    {
      ElevenCode(cs, i);
      hide ChunkCode;
      assert offset > 11;
      offset := avgLength - lookBack;
      chunk := ChunkCode(cs, i, offset);
      lookBack := lookBack + 1;
    }
  }

  ghost predicate WrapsInto(cs: seq<bytes>, linebreak: bytes, encoded: bytes, groups: seq<seq<bytes>>) {
    groups != [] && Grouped(cs, groups) && encoded == Join(GroupCodes(groups), linebreak)
  }

  /** The text is the codes of consecutive groups of the characters, one a line. */
  ghost predicate Wraps(cs: seq<bytes>, linebreak: bytes, encoded: bytes) {
    exists groups :: WrapsInto(cs, linebreak, encoded, groups)
  }

  /** `PHPMailer::base64EncodeWrapMB`: whole characters, all of them in order, never more than 63 encoded bytes;
      the step never drops below 11 characters, which is why both loops end. */
  method Base64EncodeWrapMB(cs: seq<bytes>, avgLength: nat, linebreak: bytes) returns (encoded: bytes)
    requires AllChars(cs) && cs != [] && avgLength >= 11
    ensures Wraps(cs, linebreak, encoded)
  {
    encoded := [];
    ghost var groups: seq<seq<bytes>> := [];
    var i := 0;
    assert Wrapping(cs, 0, groups, encoded, linebreak);
    while i < |cs|
      invariant Wrapping(cs, i, groups, encoded, linebreak)
    {
      var offset, chunk := FitChunk(cs, i, avgLength);
      WrapStep(cs, i, offset, groups, encoded, linebreak);
      groups := groups + [MbSubstr(cs, i, offset)];
      encoded := encoded + (chunk + linebreak);
      i := i + offset;
    }
    WrapEnd(cs, i, groups, encoded, linebreak);
    encoded := encoded[..|encoded| - |linebreak|];
    assert WrapsInto(cs, linebreak, encoded, groups);
  }
}
