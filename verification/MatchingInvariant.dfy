/** What holds in every database state the requests can reach, and where every notification row comes from. */
module MatchingInvariant {
  import opened Bytes
  import opened Scoring
  import opened Matching
  import opened MatchingTheorems

  // ----- the invariant -----

  /** The row names existing items and stores their score, which is a fair match. */
  ghost predicate Sound(db: Db, row: MatchRow) {
    && InRange(db, row.lost, row.found)
    && row.score == PairScore(db, row.lost, row.found)
    && 55 <= row.score <= 100
  }

  ghost predicate AllSound(db: Db) { forall i :: 0 <= i < |db.matches| ==> Sound(db, db.matches[i]) }

  ghost predicate NoPairTwice(matches: seq<MatchRow>) {
    forall i, j :: 0 <= i < j < |matches| ==> matches[i].lost != matches[j].lost || matches[i].found != matches[j].found
  }

  ghost predicate LostHasRow(matches: seq<MatchRow>, l: nat) { exists i :: 0 <= i < |matches| && matches[i].lost == l }

  ghost predicate FoundHasRow(matches: seq<MatchRow>, f: nat) { exists i :: 0 <= i < |matches| && matches[i].found == f }

  /** An open item has no row and a matched item has one. */
  ghost predicate StatusesAgree(db: Db) {
    && (forall l :: 0 <= l < |db.lost| ==> StatusAgrees(db.lost[l].status, LostHasRow(db.matches, l)))
    && (forall f :: 0 <= f < |db.found| ==> StatusAgrees(db.found[f].status, FoundHasRow(db.matches, f)))
  }

  ghost predicate StatusAgrees(s: Status, hasRow: bool) { (s == Open ==> !hasRow) && (s == Matched ==> hasRow) }

  ghost predicate Invariant(db: Db) { AllSound(db) && NoPairTwice(db.matches) && StatusesAgree(db) }

  // ----- preservation -----

  lemma {:induction false} LostHasRowPush(matches: seq<MatchRow>, row: MatchRow, l: nat)
    ensures LostHasRow(matches + [row], l) <==> LostHasRow(matches, l) || row.lost == l
  {
    var m := matches + [row];
    assert m[|matches|] == row;
    if LostHasRow(matches, l) {
      var i :| 0 <= i < |matches| && matches[i].lost == l;
      assert m[i].lost == l;
    }
  }

  lemma {:induction false} FoundHasRowPush(matches: seq<MatchRow>, row: MatchRow, f: nat)
    ensures FoundHasRow(matches + [row], f) <==> FoundHasRow(matches, f) || row.found == f
  {
    var m := matches + [row];
    assert m[|matches|] == row;
    if FoundHasRow(matches, f) {
      var i :| 0 <= i < |matches| && matches[i].found == f;
      assert m[i].found == f;
    }
  }

  lemma {:induction false} EvaluateStatuses(db: Db, l: nat, f: nat)
    requires InRange(db, l, f) && StatusesAgree(db)
    ensures StatusesAgree(Evaluate(db, l, f))
  {
    var t := Evaluate(db, l, f);
    if t != db {
      var row := MatchRow(l, f, PairScore(db, l, f));
      forall x | 0 <= x < |t.lost| ensures StatusAgrees(t.lost[x].status, LostHasRow(t.matches, x)) {
        LostHasRowPush(db.matches, row, x);
        assert StatusAgrees(db.lost[x].status, LostHasRow(db.matches, x));
      }
      forall x | 0 <= x < |t.found| ensures StatusAgrees(t.found[x].status, FoundHasRow(t.matches, x)) {
        FoundHasRowPush(db.matches, row, x);
        assert StatusAgrees(db.found[x].status, FoundHasRow(db.matches, x));
      }
    }
  }

  lemma {:induction false} RowsPush(db: Db, t: Db, row: MatchRow)
    requires AllSound(db) && NoPairTwice(db.matches) && SameItems(db, t)
    requires Sound(db, row) && !HasRow(db.matches, row.lost, row.found) && t.matches == db.matches + [row]
    ensures AllSound(t) && NoPairTwice(t.matches)
  {
    var rows := db.matches + [row];
    forall i | 0 <= i < |rows| ensures Sound(db, rows[i]) {
    }
    SoundMoves(db, t, rows);
    forall i, j | 0 <= i < j < |rows| ensures rows[i].lost != rows[j].lost || rows[i].found != rows[j].found {
      assert rows[i] == db.matches[i];
    }
  }

  lemma {:induction false} EvaluateKeeps(db: Db, l: nat, f: nat)
    requires InRange(db, l, f) && Invariant(db)
    ensures Invariant(Evaluate(db, l, f))
  {
    EvaluateStatuses(db, l, f);
    EvaluateSameItems(db, l, f);
    ScoreBounds(db.lost[l].item, db.found[f].item);
    var t := Evaluate(db, l, f);
    if t != db {
      hide StatusesAgree, AllSound, NoPairTwice, SameItems;
      RowsPush(db, t, MatchRow(l, f, PairScore(db, l, f)));
    }
  }

  ghost predicate Extends(db: Db, t: Db) {
    && |db.lost| <= |t.lost| && |db.found| <= |t.found|
    && (forall i :: 0 <= i < |db.lost| ==> t.lost[i].item == db.lost[i].item)
    && (forall i :: 0 <= i < |db.found| ==> t.found[i].item == db.found[i].item)
  }

  lemma {:induction false} SoundMoves(db: Db, t: Db, rows: seq<MatchRow>)
    requires Extends(db, t)
    requires forall i :: 0 <= i < |rows| ==> Sound(db, rows[i])
    ensures forall i :: 0 <= i < |rows| ==> Sound(t, rows[i])
  {
  }

  lemma {:induction false} MatchLostKeeps(db: Db, l: nat, ids: seq<nat>)
    requires l < |db.lost| && AllBelow(ids, |db.found|) && Invariant(db)
    ensures Invariant(MatchLostWith(db, l, ids))
  {
    if ids != [] {
      MatchLostKeeps(db, l, ids[..|ids| - 1]);
      EvaluateKeeps(MatchLostWith(db, l, ids[..|ids| - 1]), l, ids[|ids| - 1]);
    }
  }

  lemma {:induction false} MatchFoundKeeps(db: Db, f: nat, ids: seq<nat>)
    requires f < |db.found| && AllBelow(ids, |db.lost|) && Invariant(db)
    ensures Invariant(MatchFoundWith(db, f, ids))
  {
    if ids != [] {
      MatchFoundKeeps(db, f, ids[..|ids| - 1]);
      EvaluateKeeps(MatchFoundWith(db, f, ids[..|ids| - 1]), ids[|ids| - 1], f);
    }
  }

  lemma {:induction false} AddKeeps(db: Db, item: Item)
    requires Invariant(db)
    ensures Invariant(AddLost(db, item)) && Invariant(AddFound(db, item))
  {
    SoundMoves(db, AddLost(db, item), db.matches);
    SoundMoves(db, AddFound(db, item), db.matches);
    assert !LostHasRow(db.matches, |db.lost|);
    assert !FoundHasRow(db.matches, |db.found|);
  }

  lemma {:induction false} ResolveKeeps(db: Db, id: nat)
    requires Invariant(db)
    ensures id < |db.lost| ==> Invariant(db.(lost := MarkResolved(db.lost, id)))
    ensures id < |db.found| ==> Invariant(db.(found := MarkResolved(db.found, id)))
  {
    if id < |db.lost| {
      SoundMoves(db, db.(lost := MarkResolved(db.lost, id)), db.matches);
    }
    if id < |db.found| {
      SoundMoves(db, db.(found := MarkResolved(db.found, id)), db.matches);
    }
  }

  lemma {:induction false} StepKeeps(db: Db, r: Request)
    requires Invariant(db)
    ensures Invariant(Step(db, r))
  {
    if IsNewLost(r) {
      AddKeeps(db, r.item);
      MatchLostKeeps(AddLost(db, r.item), |db.lost|, Unresolved(db.found));
    } else if IsNewFound(r) {
      AddKeeps(db, r.item);
      MatchFoundKeeps(AddFound(db, r.item), |db.found|, Unresolved(db.lost));
    } else if r.Visit? && Resolves(db, r.kind, r.id, r.user, r.resolve) {
      ResolveKeeps(db, r.id);
    } else {
      SoundMoves(db, Step(db, r), db.matches);
    }
  }

  /** Every reachable state satisfies the invariant. */
  lemma {:induction false} ReachableInvariant(reqs: seq<Request>)
    ensures Invariant(Run(reqs))
  {
    if reqs != [] {
      ReachableInvariant(reqs[..|reqs| - 1]);
      StepKeeps(Run(reqs[..|reqs| - 1]), reqs[|reqs| - 1]);
    }
  }

  /** Every stored row rests on equal categories or on nearly half of the lost item's words. */
  lemma {:induction false} RowsHaveEvidence(reqs: seq<Request>, i: nat)
    requires i < |Run(reqs).matches|
    ensures Sound(Run(reqs), Run(reqs).matches[i])
    ensures var db := Run(reqs);
      var lost, found := db.lost[db.matches[i].lost].item, db.found[db.matches[i].found].item;
      SameCategory(lost, found) || (LostWords(lost) != []
        && 60 * Common(LostWords(lost), LostWords(found)) >= 29 * |LostWords(lost)|)
  {
    ReachableInvariant(reqs);
    var row := Run(reqs).matches[i];
    ThresholdNeedsEvidence(Run(reqs).lost[row.lost].item, Run(reqs).found[row.found].item);
  }

  // ----- notifications -----

  /** The users one event should reach: the reporters of the two items, as far as they are registered with an e-mail
      (other than the single character 0, byte 48). */
  ghost function Audience(db: Db, row: MatchRow): set<nat>
    requires InRange(db, row.lost, row.found)
  {
    set u | u in {db.lost[row.lost].item.userId, db.found[row.found].item.userId}
      && u < |db.emails| && db.emails[u] != [] && db.emails[u] != [48]
  }

  ghost predicate Distinct(s: seq<nat>) { forall i, j :: 0 <= i < j < |s| ==> s[i] != s[j] }

  /** One event writes one row for each user of its audience. */
  lemma {:induction false} OneEach(db: Db, row: MatchRow)
    requires InRange(db, row.lost, row.found)
    ensures var s := RowAudience(db, row);
      && Distinct(s)
      && (forall u :: u in s <==> u in Audience(db, row))
      && |s| == |Audience(db, row)|
  {
    var owner, finder := db.lost[row.lost].item.userId, db.found[row.found].item.userId;
    var s := RowAudience(db, row);
    assert Audience(db, row) == (set u | u in s);
    if Reachable(db, owner) && Reachable(db, finder) && owner != finder {
      assert Audience(db, row) == {owner, finder};
    } else if Reachable(db, owner) {
      assert Audience(db, row) == {owner};
    } else if Reachable(db, finder) {
      assert Audience(db, row) == {finder};
    } else {
      assert Audience(db, row) == {};
    }
  }

  ghost predicate AllInRange(db: Db, rows: seq<MatchRow>) {
    forall i :: 0 <= i < |rows| ==> InRange(db, rows[i].lost, rows[i].found)
  }

  /** The notification rows due for the given match rows, in order. */
  ghost function Notices(db: Db, rows: seq<MatchRow>): seq<nat>
    requires AllInRange(db, rows)
  {
    if rows == [] then [] else Notices(db, rows[..|rows| - 1]) + RowAudience(db, rows[|rows| - 1])
  }

  ghost function Reach(db: Db, rows: seq<MatchRow>): nat
    requires AllInRange(db, rows)
  {
    if rows == [] then 0 else Reach(db, rows[..|rows| - 1]) + |Audience(db, rows[|rows| - 1])|
  }

  lemma {:induction false} NoticesLength(db: Db, rows: seq<MatchRow>)
    requires AllInRange(db, rows)
    ensures |Notices(db, rows)| == Reach(db, rows)
  {
    if rows != [] {
      NoticesLength(db, rows[..|rows| - 1]);
      OneEach(db, rows[|rows| - 1]);
    }
  }

  /** `t` is `db` with some match rows added, each with its notification rows. */
  ghost predicate Announced(db: Db, t: Db) {
    && SameItems(db, t)
    && |db.matches| <= |t.matches| && t.matches[..|db.matches|] == db.matches
    && AllInRange(db, t.matches[|db.matches|..])
    && t.notices == db.notices + Notices(db, t.matches[|db.matches|..])
  }

  lemma {:induction false} AnnouncedEvaluate(db: Db, t: Db, l: nat, f: nat)
    requires Announced(db, t) && InRange(db, l, f)
    ensures Announced(db, Evaluate(t, l, f))
  {
    EvaluateSameItems(t, l, f);
    if Evaluate(t, l, f) != t {
      var row := MatchRow(l, f, PairScore(t, l, f));
      AnnouncedPush(db, t, Evaluate(t, l, f), row);
    }
  }

  lemma {:induction false} SameTransitive(a: Db, b: Db, c: Db)
    requires SameItems(a, b) && SameItems(b, c)
    ensures SameItems(a, c)
  {
  }

  lemma {:induction false} NoticesPush(db: Db, rows: seq<MatchRow>, row: MatchRow)
    requires AllInRange(db, rows) && InRange(db, row.lost, row.found)
    ensures AllInRange(db, rows + [row])
    ensures Notices(db, rows + [row]) == Notices(db, rows) + RowAudience(db, row)
  {
    assert (rows + [row])[..|rows|] == rows;
  }

  lemma {:induction false} SameAudience(db: Db, t: Db, row: MatchRow)
    requires SameItems(db, t) && InRange(t, row.lost, row.found)
    ensures InRange(db, row.lost, row.found) && RowAudience(db, row) == RowAudience(t, row)
  {
  }

  lemma {:induction false} AnnouncedPush(db: Db, t: Db, u: Db, row: MatchRow)
    requires Announced(db, t) && SameItems(t, u) && InRange(t, row.lost, row.found)
    requires u.matches == t.matches + [row] && u.notices == t.notices + RowAudience(t, row)
    ensures Announced(db, u)
  {
    var n := |db.matches|;
    var added := t.matches[n..];
    SameTransitive(db, t, u);
    SameAudience(db, t, row);
    NoticesPush(db, added, row);
    hide SameItems, RowAudience, InRange, Notices, AllInRange;
    assert u.matches[..n] == t.matches[..n];
    assert u.matches[n..] == added + [row];
    Assoc(db.notices, Notices(db, added), RowAudience(db, row));
  }

  lemma {:induction false} AnnouncedLost(db: Db, l: nat, ids: seq<nat>)
    requires l < |db.lost| && AllBelow(ids, |db.found|)
    ensures Announced(db, MatchLostWith(db, l, ids))
  {
    if ids != [] {
      AnnouncedLost(db, l, ids[..|ids| - 1]);
      AnnouncedEvaluate(db, MatchLostWith(db, l, ids[..|ids| - 1]), l, ids[|ids| - 1]);
    }
  }

  lemma {:induction false} AnnouncedFound(db: Db, f: nat, ids: seq<nat>)
    requires f < |db.found| && AllBelow(ids, |db.lost|)
    ensures Announced(db, MatchFoundWith(db, f, ids))
  {
    if ids != [] {
      AnnouncedFound(db, f, ids[..|ids| - 1]);
      AnnouncedEvaluate(db, MatchFoundWith(db, f, ids[..|ids| - 1]), ids[|ids| - 1], f);
    }
  }

  /** A logged-in visitor of a shown item asks for an existing match to be announced again and is not resolving. */
  ghost predicate Reminds(db: Db, r: Request) {
    && r.Visit? && r.user.Some? && r.notify.Some?
    && Visible(db, r.kind, r.id) && OnRecord(db, r.notify.value) && !ReporterAsks(db, r, r.kind, r.id)
  }

  /** The events of a request: the match rows it creates, or the one it announces again. */
  ghost function Events(db: Db, r: Request): seq<MatchRow>
    requires |db.matches| <= |Step(db, r).matches|
  {
    if Reminds(db, r) then [db.matches[r.notify.value]] else Step(db, r).matches[|db.matches|..]
  }

  lemma {:induction false} RemindsIff(db: Db, r: Request)
    ensures Reminds(db, r) <==> Resends(db, r)
  {
  }

  lemma {:induction false} StepNotices(db: Db, r: Request)
    ensures var t := Step(db, r);
      && |db.matches| <= |t.matches| && t.matches[..|db.matches|] == db.matches
      && AllInRange(t, Events(db, r))
      && t.notices == db.notices + Notices(t, Events(db, r))
  {
    RemindsIff(db, r);
    hide Resolves, ReporterAsks, Reminds, Unresolved, MatchLostWith, MatchFoundWith;
    if IsNewLost(r) {
      AnnouncedLost(AddLost(db, r.item), |db.lost|, Unresolved(db.found));
      SameNotices(AddLost(db, r.item), Step(db, r), Events(db, r));
    } else if IsNewFound(r) {
      AnnouncedFound(AddFound(db, r.item), |db.found|, Unresolved(db.lost));
      SameNotices(AddFound(db, r.item), Step(db, r), Events(db, r));
    } else if Resends(db, r) {
      var row := db.matches[r.notify.value];
      assert Notices(Step(db, r), [row][..0]) == [];
      assert [row][..0] == [];
      assert RowAudience(Step(db, r), row) == RowAudience(db, row);
    }
  }

  lemma {:induction false} SameNotices(db: Db, t: Db, rows: seq<MatchRow>)
    requires SameItems(db, t) && AllInRange(db, rows)
    ensures Notices(db, rows) == Notices(t, rows)
  {
    if rows != [] {
      SameNotices(db, t, rows[..|rows| - 1]);
    }
  }

  /** How many (event, user) pairs a history calls for. */
  ghost function Deliveries(reqs: seq<Request>): nat {
    if reqs == [] then 0
    else
      var db := Run(reqs[..|reqs| - 1]);
      var r := reqs[|reqs| - 1];
      StepNotices(db, r);
      Deliveries(reqs[..|reqs| - 1]) + Reach(Step(db, r), Events(db, r))
  }

  /** Over any history there are exactly as many notification rows as (event, reachable user) pairs. */
  lemma {:induction false} NotificationsConserved(reqs: seq<Request>)
    ensures |Run(reqs).notices| == Deliveries(reqs)
  {
    if reqs != [] {
      var db := Run(reqs[..|reqs| - 1]);
      var r := reqs[|reqs| - 1];
      NotificationsConserved(reqs[..|reqs| - 1]);
      StepNotices(db, r);
      NoticesLength(Step(db, r), Events(db, r));
    }
  }
}
