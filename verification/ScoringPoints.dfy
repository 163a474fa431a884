/** What each field of two reports is worth in their score. */
module ScoringPoints {
  import opened Bytes
  import opened Scoring

  /** Both texts are there and agree in everything but letter case and blanks at the ends. */
  ghost predicate Agree(a: bytes, b: bytes) {
    a != [] && a != [48] && b != [] && b != [48] && Lower(Trim(a)) == Lower(Trim(b))
  }

  /** Some keyword of `a` is a keyword of `b`. */
  ghost predicate ShareWord(a: bytes, b: bytes) { exists w :: w in Keywords(a) && w in Keywords(b) }

  lemma {:induction false} CommonIff(ws: seq<bytes>, other: seq<bytes>)
    ensures Common(ws, other) > 0 <==> exists w :: w in ws && w in other
  {
    if ws != [] {
      CommonIff(ws[1..], other);
      assert ws == [ws[0]] + ws[1..];
    }
  }

  /** `share` is thirty times the fraction of the lost report's keywords that occur in the found report, to the nearest
      integer with halves up, and nothing without keywords. */
  ghost predicate WordShare(lost: Item, found: Item, share: int) {
    var ws := Keywords(lost.name + ([32] + lost.description));
    var other := Keywords(found.name + ([32] + found.description));
    var common := |set i | 0 <= i < |ws| && ws[i] in other|;
    if ws == [] then share == 0
    else 2 * |ws| * share <= 60 * common + |ws| < 2 * |ws| * (share + 1)
  }

  /** Days count when the report of the find is not the earlier: ten up to thirty days, five up to sixty. With a date that
      cannot be read, a missing date counts as second 0 but as false in the comparison. */
  ghost predicate DaysCount(lost: Option<int>, found: Option<int>, days: int) {
    match (lost, found)
    case (Some(l), Some(f)) =>
      if f < l then days == 0
      else if f - l <= 2592000 then days == 10
      else if f - l <= 5184000 then days == 5
      else days == 0
    case (None, Some(f)) => days == if f <= 2592000 then 10 else if f <= 5184000 then 5 else 0
    case (Some(l), None) => days == if l == 0 then 10 else 0
    case (None, None) => days == 10
  }

  lemma {:induction false} WordShareGiven(lost: Item, found: Item)
    ensures WordShare(lost, found, KeywordPoints(lost, found))
  {
    var ws, other := LostWords(lost), LostWords(found);
    CommonIsCount(ws, other);
    if ws != [] {
      var k := Overlap(Common(ws, other), |ws|);
      OverlapAtLeast(Common(ws, other), |ws|, 0);
      OverlapAtLeast(Common(ws, other), |ws|, k);
      OverlapAtLeast(Common(ws, other), |ws|, k + 1);
      assert k * (2 * |ws|) == 2 * |ws| * k && (k + 1) * (2 * |ws|) == 2 * |ws| * (k + 1);
    }
  }

  /** The score, point by point. */
  lemma {:induction false} ScoreIsSum(lost: Item, found: Item) returns (share: int, days: int)
    ensures WordShare(lost, found, share) && DaysCount(lost.date, found.date, days)
    ensures share == KeywordPoints(lost, found) && days == DatePoints(lost.date, found.date)
    ensures Score(lost, found) ==
      (if Lower(lost.category) == Lower(found.category) then 30 else 0) + share
      + (if Agree(lost.color, found.color) then 10 else 0) + (if Agree(lost.brand, found.brand) then 10 else 0)
      + (if ShareWord(lost.location, found.location) then 10 else 0) + days
  {
    share, days := KeywordPoints(lost, found), DatePoints(lost.date, found.date);
    WordShareGiven(lost, found);
    CommonIff(Keywords(lost.location), Keywords(found.location));
    ScoreBounds(lost, found);
    hide KeywordPoints, Keywords;
  }

  // ----- one field exchanged -----

  /** Of two finds that differ only in where they were made, the one that shares a word with the place of the loss
      scores exactly ten more than one that does not. */
  lemma {:induction false} PlaceIsTen(lost: Item, found: Item, place: bytes, elsewhere: bytes)
    requires exists w :: w in Keywords(lost.location) && w in Keywords(place)
    requires !exists w :: w in Keywords(lost.location) && w in Keywords(elsewhere)
    ensures Score(lost, found.(location := place)) == Score(lost, found.(location := elsewhere)) + 10
  {
    var _, _ := ScoreIsSum(lost, found.(location := place));
    var _, _ := ScoreIsSum(lost, found.(location := elsewhere));
    hide Keywords, Score;
  }

  lemma {:induction false} CategoryIsThirty(lost: Item, found: Item, same: bytes, other: bytes)
    requires Lower(lost.category) == Lower(same) && Lower(lost.category) != Lower(other)
    ensures Score(lost, found.(category := same)) == Score(lost, found.(category := other)) + 30
  {
    var _, _ := ScoreIsSum(lost, found.(category := same));
    var _, _ := ScoreIsSum(lost, found.(category := other));
    hide Keywords, Score;
  }

  lemma {:induction false} ColorIsTen(lost: Item, found: Item, same: bytes, other: bytes)
    requires lost.color !in {[], [48]} && same !in {[], [48]} && Lower(Trim(lost.color)) == Lower(Trim(same))
    requires other in {[], [48]} || Lower(Trim(lost.color)) != Lower(Trim(other))
    ensures Score(lost, found.(color := same)) == Score(lost, found.(color := other)) + 10
  {
    var _, _ := ScoreIsSum(lost, found.(color := same));
    var _, _ := ScoreIsSum(lost, found.(color := other));
    hide Keywords, Score, Trim;
  }

  lemma {:induction false} BrandIsTen(lost: Item, found: Item, same: bytes, other: bytes)
    requires lost.brand !in {[], [48]} && same !in {[], [48]} && Lower(Trim(lost.brand)) == Lower(Trim(same))
    requires other in {[], [48]} || Lower(Trim(lost.brand)) != Lower(Trim(other))
    ensures Score(lost, found.(brand := same)) == Score(lost, found.(brand := other)) + 10
  {
    var _, _ := ScoreIsSum(lost, found.(brand := same));
    var _, _ := ScoreIsSum(lost, found.(brand := other));
    hide Keywords, Score, Trim;
  }

  /** A lost report without a color, or with the color "0", gets nothing for it. */
  lemma {:induction false} NoColorNoPoints(lost: Item, found: Item, color: bytes, other: bytes)
    requires lost.color in {[], [48]}
    ensures Score(lost, found.(color := color)) == Score(lost, found.(color := other))
  {
    var _, _ := ScoreIsSum(lost, found.(color := color));
    var _, _ := ScoreIsSum(lost, found.(color := other));
    hide Keywords, Score, Trim;
  }

  /** Against a find reported a second before the loss, one up to thirty days after it scores ten more, one up to sixty
      days five more, and a later or an earlier one the same. */
  lemma {:induction false} DaysAreTenOrFive(lost: Item, found: Item, after: int)
    requires lost.date.Some?
    ensures var l := lost.date.value;
      Score(lost, found.(date := Some(l + after))) == Score(lost, found.(date := Some(l - 1)))
        + (if 0 <= after <= 2592000 then 10 else if 2592000 < after <= 5184000 then 5 else 0)
  {
    var l := lost.date.value;
    hide Score;
    DateApart(lost, found, Some(l + after));
    DateApart(lost, found, Some(l - 1));
  }

  /** Nothing but the days depends on the date. */
  lemma {:induction false} DateApart(lost: Item, found: Item, date: Option<int>)
    ensures Score(lost, found.(date := date))
      == Score(lost, found) - DatePoints(lost.date, found.date) + DatePoints(lost.date, date)
  {
    ScoreBounds(lost, found);
    ScoreBounds(lost, found.(date := date));
    hide Score, Keywords, DatePoints;
  }

  /** A report that says everything scores 100 against itself. */
  lemma {:induction false} SelfScoresHundred(x: Item)
    requires Keywords(x.name + ([32] + x.description)) != [] && Keywords(x.location) != []
    requires x.color !in {[], [48]} && x.brand !in {[], [48]}
    ensures Score(x, x) == 100
  {
    var share, days := ScoreIsSum(x, x);
    var ws := Keywords(x.name + ([32] + x.description));
    AllPlaces(ws);
    assert Keywords(x.location)[0] in Keywords(x.location);
    hide Keywords, Score, KeywordPoints, Trim;
    ShareOfAll(|ws|, share);
  }

  lemma {:induction false} ShareOfAll(n: nat, share: int)
    requires n > 0 && 2 * n * share <= 61 * n < 2 * n * (share + 1)
    ensures share == 30
  {
    if share >= 31 {
      MulMonotone(31, share, n);
    } else if share <= 29 {
      MulMonotone(share + 1, 30, n);
    }
  }

  lemma {:induction false} AllPlaces(ws: seq<bytes>)
    ensures |set i | 0 <= i < |ws| && ws[i] in ws| == |ws|
  {
    CommonIsCount(ws, ws);
    AllCommon(ws, ws);
  }

  lemma {:induction false} AllCommon(ws: seq<bytes>, other: seq<bytes>)
    requires forall i :: 0 <= i < |ws| ==> ws[i] in other
    ensures Common(ws, other) == |ws|
  {
    if ws != [] {
      AllCommon(ws[1..], other);
    }
  }
}
