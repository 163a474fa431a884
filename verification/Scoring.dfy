/** The similarity score of a lost and a found item. */
module Scoring {
  import opened Bytes

  /** A report. `dateText` is what the form held, `date` what `strtotime` made of it. */
  datatype Item = Item(userId: nat, name: bytes, category: bytes, description: bytes, color: bytes, brand: bytes,
                       location: bytes, dateText: bytes, date: Option<int>)

  // ----- keywords -----

  /** `\s` of PCRE. */
  predicate IsSpace(b: byte) { 9 <= b <= 13 || b == SP }

  predicate IsWordByte(b: byte) { 97 <= b <= 122 || 48 <= b <= 57 }

  /** `strtolower`, then everything but letters, digits and white space becomes a space. */
  function CleanByte(b: byte): byte {
    var l := LowerByte(b);
    if IsWordByte(l) || IsSpace(l) then l else SP
  }

  function Clean(text: bytes): (r: bytes)
    ensures |r| == |text|
    ensures forall i :: 0 <= i < |text| ==> r[i] == CleanByte(text[i])
  {
    seq(|text|, i requires 0 <= i < |text| => CleanByte(text[i]))
  }

  function WordEnd(s: bytes): (n: nat)
    ensures n <= |s|
    ensures forall i :: 0 <= i < n ==> !IsSpace(s[i])
    ensures n < |s| ==> IsSpace(s[n])
  {
    if s == [] || IsSpace(s[0]) then 0 else 1 + WordEnd(s[1..])
  }

  /** `preg_split('/\s+/', ..., PREG_SPLIT_NO_EMPTY)`. */
  function Words(s: bytes): seq<bytes>
    decreases |s|
  {
    if s == [] then []
    else if IsSpace(s[0]) then Words(s[1..])
    else
      var n := WordEnd(s);
      [s[..n]] + Words(s[n..])
  }

  const STOPWORDS: set<bytes> := {
    Ascii("the"), Ascii("a"), Ascii("an"), Ascii("is"), Ascii("was"), Ascii("my"), Ascii("i"), Ascii("it"),
    Ascii("in"), Ascii("on"), Ascii("at"), Ascii("of"), Ascii("with"), Ascii("and"), Ascii("to"), Ascii("for"),
    Ascii("lost"), Ascii("found"), Ascii("near")}

  /** `array_diff($words, $stopwords)`. */
  function Meaningful(ws: seq<bytes>): seq<bytes> {
    if ws == [] then [] else (if ws[0] in STOPWORDS then [] else [ws[0]]) + Meaningful(ws[1..])
  }

  /** `extract_keywords`. */
  function Keywords(text: bytes): seq<bytes> { Meaningful(Words(Clean(text))) }

  lemma {:induction false} WordEndOfConcat(a: bytes, b: bytes)
    requires b != [] && IsSpace(b[0])
    ensures WordEnd(a + b) == WordEnd(a)
  {
    if a == [] {
      assert a + b == b;
    } else {
      assert (a + b)[1..] == a[1..] + b;
      WordEndOfConcat(a[1..], b);
    }
  }

  lemma {:induction false} WordStep(s: bytes)
    requires s != [] && !IsSpace(s[0])
    ensures WordEnd(s) > 0
    ensures Words(s) == [s[..WordEnd(s)]] + Words(s[WordEnd(s)..])
  {
  }

  lemma {:induction false} WordsOfConcat(a: bytes, b: bytes)
    requires b != [] && IsSpace(b[0])
    ensures Words(a + b) == Words(a) + Words(b[1..])
    decreases |a|
  {
    if a == [] {
      assert a + b == b;
    } else if IsSpace(a[0]) {
      assert (a + b)[1..] == a[1..] + b;
      WordsOfConcat(a[1..], b);
    } else {
      hide Words, WordEnd, IsSpace;
      var n := WordEnd(a);
      WordEndOfConcat(a, b);
      assert (a + b)[0] == a[0];
      WordStep(a);
      WordStep(a + b);
      assert (a + b)[..n] == a[..n] && (a + b)[n..] == a[n..] + b;
      WordsOfConcat(a[n..], b);
    }
  }

  lemma {:induction false} MeaningfulConcat(a: seq<bytes>, b: seq<bytes>)
    ensures Meaningful(a + b) == Meaningful(a) + Meaningful(b)
  {
    if a == [] {
      assert a + b == b;
    } else {
      assert (a + b)[1..] == a[1..] + b;
      MeaningfulConcat(a[1..], b);
    }
  }

  predicate LetterOrDigit(b: byte) { 97 <= b <= 122 || 65 <= b <= 90 || 48 <= b <= 57 }

  /** Whatever is neither letter nor digit separates: the keywords are those of the texts on its two sides. */
  lemma {:induction false} KeywordsSplit(a: bytes, b: byte, c: bytes)
    requires !LetterOrDigit(b)
    ensures Keywords(a + ([b] + c)) == Keywords(a) + Keywords(c)
  {
    var t := [CleanByte(b)] + Clean(c);
    assert Clean(a + ([b] + c)) == Clean(a) + t;
    WordsOfConcat(Clean(a), t);
    assert t[1..] == Clean(c);
    MeaningfulConcat(Words(Clean(a)), Words(Clean(c)));
  }

  /** A run of letters and digits is one keyword in lower case, unless it is one of the nineteen words left out. */
  lemma {:induction false} KeywordsOfWord(w: bytes)
    requires w != [] && forall i :: 0 <= i < |w| ==> LetterOrDigit(w[i])
    ensures Keywords(w) == if Lower(w) in {
        Ascii("the"), Ascii("a"), Ascii("an"), Ascii("is"), Ascii("was"), Ascii("my"), Ascii("i"), Ascii("it"),
        Ascii("in"), Ascii("on"), Ascii("at"), Ascii("of"), Ascii("with"), Ascii("and"), Ascii("to"), Ascii("for"),
        Ascii("lost"), Ascii("found"), Ascii("near")} then [] else [Lower(w)]
  {
    hide Ascii;
    assert Clean(w) == Lower(w);
    var l := Lower(w);
    forall i | 0 <= i < |l| ensures !IsSpace(l[i]) {
      assert LetterOrDigit(w[i]);
    }
    assert WordEnd(l) == |l|;
    WordStep(l);
    assert l[..|l|] == l && Words(l[|l|..]) == [];
    assert Words(l) == [l];
    assert Meaningful([l][1..]) == [];
  }

  /** Keyword extraction distributes over joining texts with a space. */
  lemma {:induction false} KeywordsOfJoin(a: bytes, b: bytes)
    ensures Keywords(a + ([SP] + b)) == Keywords(a) + Keywords(b)
  {
    KeywordsSplit(a, SP, b);
  }

  // ----- the score -----

  /** `count(array_intersect($ws, $other))`: entries of `ws`, repeats included, that occur in `other`. */
  function Common(ws: seq<bytes>, other: seq<bytes>): (n: nat)
    ensures n <= |ws|
  {
    if ws == [] then 0 else (if ws[0] in other then 1 else 0) + Common(ws[1..], other)
  }

  /** `round($common / $total * 30)`: to the nearest integer, halves up. */
  function Overlap(common: nat, total: nat): int
    requires total > 0
  {
    (60 * common + total) / (2 * total)
  }

  predicate SameTrimmed(a: bytes, b: bytes) { !Empty(a) && !Empty(b) && Lower(Trim(a)) == Lower(Trim(b)) }

  /** PHP truth value and numeric value of the result of `strtotime` (false when it fails). */
  function Truthy(d: Option<int>): int { if d.Some? && d.value != 0 then 1 else 0 }

  function Seconds(d: Option<int>): int { if d.Some? then d.value else 0 }

  predicate NotBefore(found: Option<int>, lost: Option<int>) {
    if found.Some? && lost.Some? then found.value >= lost.value else Truthy(found) >= Truthy(lost)
  }

  function DatePoints(lost: Option<int>, found: Option<int>): nat {
    if !NotBefore(found, lost) then 0
    else if Seconds(found) - Seconds(lost) <= 30 * 86400 then 10
    else if Seconds(found) - Seconds(lost) <= 60 * 86400 then 5
    else 0
  }

  function LostWords(lost: Item): seq<bytes> { Keywords(lost.name + ([SP] + lost.description)) }

  function KeywordPoints(lost: Item, found: Item): int {
    var ws := LostWords(lost);
    if ws == [] then 0 else Overlap(Common(ws, LostWords(found)), |ws|)
  }

  function LocationPoints(lost: Item, found: Item): nat {
    if Common(Keywords(lost.location), Keywords(found.location)) > 0 then 10 else 0
  }

  predicate SameCategory(lost: Item, found: Item) { Lower(lost.category) == Lower(found.category) }

  /** The sum before the final `min`. */
  function Points(lost: Item, found: Item): int {
    (if SameCategory(lost, found) then 30 else 0)
    + KeywordPoints(lost, found)
    + (if SameTrimmed(lost.color, found.color) then 10 else 0)
    + (if SameTrimmed(lost.brand, found.brand) then 10 else 0)
    + LocationPoints(lost, found)
    + DatePoints(lost.date, found.date)
  }

  /** `calculate_match_score`. */
  method CalculateMatchScore(lost: Item, found: Item) returns (score: int)
    ensures score == Score(lost, found) && 0 <= score <= 100
  {
    ScoreBounds(lost, found);
    score := 0;
    if SameCategory(lost, found) {
      score := score + 30;
    }
    var lostWords := LostWords(lost);
    if |lostWords| > 0 {
      score := score + Overlap(Common(lostWords, LostWords(found)), |lostWords|);
    }
    if SameTrimmed(lost.color, found.color) {
      score := score + 10;
    }
    if SameTrimmed(lost.brand, found.brand) {
      score := score + 10;
    }
    if Common(Keywords(lost.location), Keywords(found.location)) > 0 {
      score := score + 10;
    }
    if NotBefore(found.date, lost.date) {
      var diff := Seconds(found.date) - Seconds(lost.date);
      if diff <= 30 * 86400 {
        score := score + 10;
      } else if diff <= 60 * 86400 {
        score := score + 5;
      }
    }
    score := if score < 100 then score else 100;
  }

  function Score(lost: Item, found: Item): int { if Points(lost, found) < 100 then Points(lost, found) else 100 }

  lemma {:induction false} OverlapBounds(common: nat, total: nat)
    requires total > 0 && common <= total
    ensures 0 <= Overlap(common, total) <= 30
  {
    OverlapAtLeast(common, total, 0);
    var q, d := Overlap(common, total), 2 * total;
    assert q * d <= 60 * common + total;
    if q >= 31 {
      MulMonotone(31, q, d);
    }
  }

  /** When the rounded share reaches `k` points. */
  lemma {:induction false} OverlapAtLeast(common: nat, total: nat, k: nat)
    requires total > 0
    ensures Overlap(common, total) >= k <==> 60 * common + total >= k * (2 * total)
  {
    var x, d := 60 * common + total, 2 * total;
    var q := x / d;
    assert q * d <= x < (q + 1) * d;
    if q >= k {
      MulMonotone(k, q, d);
    } else {
      MulMonotone(q + 1, k, d);
    }
  }

  lemma {:induction false} OverlapMonotone(c: nat, c': nat, total: nat)
    requires total > 0 && c <= c'
    ensures Overlap(c, total) <= Overlap(c', total)
  {
    var q := Overlap(c, total);
    OverlapAtLeast(c, total, 0);
    OverlapAtLeast(c, total, q);
    OverlapAtLeast(c', total, q);
  }

  /** The sum never exceeds 100, so the final `min` never clips. */
  lemma {:induction false} ScoreBounds(lost: Item, found: Item)
    ensures 0 <= Points(lost, found) <= 100
    ensures Score(lost, found) == Points(lost, found)
  {
    var ws := LostWords(lost);
    if ws != [] {
      OverlapBounds(Common(ws, LostWords(found)), |ws|);
    }
  }

  lemma {:induction false} CommonLast(ws: seq<bytes>, other: seq<bytes>, w: bytes)
    ensures Common(ws + [w], other) == Common(ws, other) + (if w in other then 1 else 0)
  {
    if ws == [] {
      assert (ws + [w])[1..] == [];
    } else {
      assert (ws + [w])[1..] == ws[1..] + [w];
      CommonLast(ws[1..], other, w);
    }
  }

  /** The count is the number of places whose word occurs in the other list. */
  lemma {:induction false} CommonIsCount(ws: seq<bytes>, other: seq<bytes>)
    ensures Common(ws, other) == |set i | 0 <= i < |ws| && ws[i] in other|
  {
    var places := set i | 0 <= i < |ws| && ws[i] in other;
    if ws == [] {
      assert places == {};
    } else {
      var n := |ws| - 1;
      var init := set i | 0 <= i < |ws[..n]| && ws[..n][i] in other;
      CommonIsCount(ws[..n], other);
      CommonLast(ws[..n], other, ws[n]);
      assert ws == ws[..n] + [ws[n]];
      assert places == init + (if ws[n] in other then {n} else {});
    }
  }

  lemma {:induction false} CommonMonotone(ws: seq<bytes>, other: seq<bytes>, more: seq<bytes>)
    ensures Common(ws, other) <= Common(ws, other + more)
  {
    if ws != [] {
      CommonMonotone(ws[1..], other, more);
    }
  }

  /** Appending words to the description of a found item never lowers its score against any lost item. */
  lemma {:induction false} MoreWordsNeverLower(lost: Item, found: Item, extra: bytes)
    ensures Score(lost, found.(description := found.description + ([SP] + extra))) >= Score(lost, found)
  {
    var found' := found.(description := found.description + ([SP] + extra));
    var base := found.name + ([SP] + found.description);
    assert found'.name + ([SP] + found'.description) == base + ([SP] + extra);
    KeywordsOfJoin(base, extra);
    var ws := LostWords(lost);
    CommonMonotone(ws, LostWords(found), Keywords(extra));
    if ws != [] {
      OverlapMonotone(Common(ws, LostWords(found)), Common(ws, LostWords(found')), |ws|);
    }
    ScoreBounds(lost, found);
    ScoreBounds(lost, found');
  }

  const MATCH_THRESHOLD := 55

  /** A pair can only reach the threshold with the same category, or with enough of the lost item's words found. */
  lemma {:induction false} ThresholdNeedsEvidence(lost: Item, found: Item)
    requires Score(lost, found) >= 55
    ensures Lower(lost.category) == Lower(found.category)
      || (LostWords(lost) != [] && 60 * Common(LostWords(lost), LostWords(found)) >= 29 * |LostWords(lost)|)
  {
    var ws := LostWords(lost);
    if !SameCategory(lost, found) && ws != [] {
      OverlapAtLeast(Common(ws, LostWords(found)), |ws|, 15);
    }
  }
}
