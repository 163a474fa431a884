/** What the incremental engine guarantees over any sequence of requests. */
module MatchingTheorems {
  import opened Bytes
  import opened Scoring
  import opened Matching

  // ----- one request -----

  /** A form field that the report pages take for missing: nothing, or the single character 0 (byte 48). */
  predicate Missing(field: bytes) { field == [] || field == [48] }

  /** All five required fields are there. */
  predicate Filled(item: Item) {
    && !Missing(item.name) && !Missing(item.category) && !Missing(item.description) && !Missing(item.location)
    && !Missing(item.dateText)
  }

  predicate IsNewLost(r: Request) { r.ReportLost? && r.imageOk && Filled(r.item) }

  predicate IsNewFound(r: Request) { r.ReportFound? && r.imageOk && Filled(r.item) }

  /** The request reports one item of the pair, the other one is known and unresolved, and they score enough. */
  predicate DueNow(db: Db, r: Request, l: nat, f: nat) {
    || (IsNewLost(r) && l == |db.lost| && f < |db.found| && db.found[f].status != Resolved
        && Score(r.item, db.found[f].item) >= 55)
    || (IsNewFound(r) && f == |db.found| && l < |db.lost| && db.lost[l].status != Resolved
        && Score(db.lost[l].item, r.item) >= 55)
  }

  lemma {:induction false} NewLostPairs(db: Db, item: Item, l: nat, f: nat)
    ensures var r := MatchNewLost(AddLost(db, item), |db.lost|);
      && SameItems(AddLost(db, item), r)
      && (HasRow(r.matches, l, f) <==>
        HasRow(db.matches, l, f) || (l == |db.lost| && f < |db.found| && db.found[f].status != Resolved
          && Score(item, db.found[f].item) >= 55))
  {
    MatchLostPairs(AddLost(db, item), |db.lost|, Unresolved(db.found), l, f);
  }

  lemma {:induction false} NewFoundPairs(db: Db, item: Item, l: nat, f: nat)
    ensures var r := MatchNewFound(AddFound(db, item), |db.found|);
      && SameItems(AddFound(db, item), r)
      && (HasRow(r.matches, l, f) <==>
        HasRow(db.matches, l, f) || (f == |db.found| && l < |db.lost| && db.lost[l].status != Resolved
          && Score(db.lost[l].item, item) >= 55))
  {
    MatchFoundPairs(AddFound(db, item), |db.found|, Unresolved(db.lost), l, f);
  }

  lemma {:induction false} StepPairs(db: Db, r: Request, l: nat, f: nat)
    ensures HasRow(Step(db, r).matches, l, f) <==> HasRow(db.matches, l, f) || DueNow(db, r, l, f)
  {
    if IsNewLost(r) {
      NewLostPairs(db, r.item, l, f);
    } else if IsNewFound(r) {
      NewFoundPairs(db, r.item, l, f);
    }
  }

  // ----- the join over whole histories -----

  ghost predicate Due(reqs: seq<Request>, l: nat, f: nat) {
    exists p :: 0 <= p < |reqs| && DueNow(Run(reqs[..p]), reqs[p], l, f)
  }

  lemma {:induction false} DuePush(init: seq<Request>, r: Request, reqs: seq<Request>, l: nat, f: nat)
    requires reqs == init + [r]
    ensures Due(reqs, l, f) <==> Due(init, l, f) || DueNow(Run(init), r, l, f)
  {
    hide Run, DueNow, HasRow;
    forall p | 0 <= p < |init| ensures init[..p] == reqs[..p] && init[p] == reqs[p] {
    }
    assert reqs[..|init|] == init && reqs[|init|] == r;
    if Due(init, l, f) {
      var p :| 0 <= p < |init| && DueNow(Run(init[..p]), init[p], l, f);
      assert DueNow(Run(reqs[..p]), reqs[p], l, f);
    }
    if DueNow(Run(init), r, l, f) {
      assert DueNow(Run(reqs[..|init|]), reqs[|init|], l, f);
    }
    if Due(reqs, l, f) && !DueNow(Run(init), r, l, f) {
      var p :| 0 <= p < |reqs| && DueNow(Run(reqs[..p]), reqs[p], l, f);
      assert p < |init|;
      assert DueNow(Run(init[..p]), init[p], l, f);
    }
  }

  /** Incremental matching is the join: after any history the stored pairs are exactly those that score at least 55
      and whose earlier-reported item was unresolved when the later one was reported. */
  lemma {:induction false} IncrementalIsJoin(reqs: seq<Request>, l: nat, f: nat)
    ensures HasRow(Run(reqs).matches, l, f) <==> Due(reqs, l, f)
  {
    if reqs != [] {
      var n := |reqs| - 1;
      var init := reqs[..n];
      assert reqs == init + [reqs[n]];
      IncrementalIsJoin(init, l, f);
      StepPairs(Run(init), reqs[n], l, f);
      DuePush(init, reqs[n], reqs, l, f);
    }
  }

  // ----- resolving -----

  /** The reporter of the item, a registered user, visits its page and asks to resolve it. */
  ghost predicate ReporterAsks(db: Db, r: Request, kind: Kind, id: nat) {
    && r.Visit? && r.kind == kind && r.id == id && r.resolve
    && (if kind == Lost then
          id < |db.lost| && r.user == Some(db.lost[id].item.userId) && db.lost[id].item.userId < |db.emails|
        else
          id < |db.found| && r.user == Some(db.found[id].item.userId) && db.found[id].item.userId < |db.emails|)
  }

  predicate IsResolved(db: Db, kind: Kind, id: nat) { id < |Table(db, kind)| && Table(db, kind)[id].status == Resolved }

  lemma {:induction false} StepResolved(db: Db, r: Request, kind: Kind, id: nat)
    ensures IsResolved(Step(db, r), kind, id) <==> IsResolved(db, kind, id) || ReporterAsks(db, r, kind, id)
  {
    if IsNewLost(r) {
      NewLostPairs(db, r.item, 0, 0);
    } else if IsNewFound(r) {
      NewFoundPairs(db, r.item, 0, 0);
    }
  }

  /** A rejected report changes nothing. */
  lemma {:induction false} RejectedReport(db: Db, item: Item, imageOk: bool)
    requires !imageOk || !Filled(item)
    ensures Step(db, ReportLost(item, imageOk)) == db && Step(db, ReportFound(item, imageOk)) == db
  {
  }

  /** The page shows the item: it exists and its reporter is registered. */
  ghost predicate Visible(db: Db, kind: Kind, id: nat) {
    if kind == Lost then id < |db.lost| && db.lost[id].item.userId < |db.emails|
    else id < |db.found| && db.found[id].item.userId < |db.emails|
  }

  /** The match exists and so do both its items. */
  ghost predicate OnRecord(db: Db, matchId: nat) {
    matchId < |db.matches| && db.matches[matchId].lost < |db.lost| && db.matches[matchId].found < |db.found|
  }

  /** A visit never touches users, items or matches; only the reporter's resolve touches statuses, and only that item's;
      a stranger to the site changes nothing at all, and so does a visit to an item that is not shown. Notification rows
      come only from a logged-in visitor of a shown item who asks for an existing match and is not resolving. */
  lemma {:induction false} VisitFrame(db: Db, r: Request)
    requires r.Visit?
    ensures var t := Step(db, r);
      && t.emails == db.emails && t.matches == db.matches
      && |t.lost| == |db.lost| && |t.found| == |db.found|
      && (forall i :: 0 <= i < |db.lost| ==>
        t.lost[i] == Row(db.lost[i].item, if ReporterAsks(db, r, Lost, i) then Resolved else db.lost[i].status))
      && (forall i :: 0 <= i < |db.found| ==>
        t.found[i] == Row(db.found[i].item, if ReporterAsks(db, r, Found, i) then Resolved else db.found[i].status))
    ensures r.user == None || !Visible(db, r.kind, r.id) ==> Step(db, r) == db
    ensures Step(db, r).notices != db.notices ==>
      && r.user.Some? && Visible(db, r.kind, r.id) && r.notify.Some? && OnRecord(db, r.notify.value)
      && !ReporterAsks(db, r, r.kind, r.id)
  {
  }

  ghost predicate WasResolved(reqs: seq<Request>, kind: Kind, id: nat) {
    exists p :: 0 <= p < |reqs| && ReporterAsks(Run(reqs[..p]), reqs[p], kind, id)
  }

  /** An item is resolved exactly when its reporter asked for it at some point: resolving is permanent and never spontaneous. */
  lemma {:induction false} ResolvedIff(reqs: seq<Request>, kind: Kind, id: nat)
    ensures IsResolved(Run(reqs), kind, id) <==> WasResolved(reqs, kind, id)
  {
    if reqs != [] {
      var n := |reqs| - 1;
      var init := reqs[..n];
      ResolvedIff(init, kind, id);
      StepResolved(Run(init), reqs[n], kind, id);
      forall p | 0 <= p < n ensures init[..p] == reqs[..p] && init[p] == reqs[p] {
      }
      if WasResolved(init, kind, id) {
        var p :| 0 <= p < |init| && ReporterAsks(Run(init[..p]), init[p], kind, id);
        assert ReporterAsks(Run(reqs[..p]), reqs[p], kind, id);
      }
      if WasResolved(reqs, kind, id) && !ReporterAsks(Run(init), reqs[n], kind, id) {
        var p :| 0 <= p < |reqs| && ReporterAsks(Run(reqs[..p]), reqs[p], kind, id);
        assert ReporterAsks(Run(init[..p]), init[p], kind, id);
      }
    }
  }

  predicate NoResolve(reqs: seq<Request>) { forall i :: 0 <= i < |reqs| ==> !AsksToResolve(reqs[i]) }

  predicate AsksToResolve(r: Request) { r.Visit? && r.resolve }

  lemma {:induction false} NothingResolved(reqs: seq<Request>, kind: Kind, id: nat)
    requires NoResolve(reqs)
    ensures !IsResolved(Run(reqs), kind, id)
  {
    ResolvedIff(reqs, kind, id);
  }

  // ----- items stay -----

  lemma {:induction false} StepItems(db: Db, r: Request)
    ensures var t := Step(db, r);
      && |t.lost| == |db.lost| + (if IsNewLost(r) then 1 else 0)
      && |t.found| == |db.found| + (if IsNewFound(r) then 1 else 0)
      && (forall i :: 0 <= i < |db.lost| ==> t.lost[i].item == db.lost[i].item)
      && (forall i :: 0 <= i < |db.found| ==> t.found[i].item == db.found[i].item)
      && (IsNewLost(r) ==> t.lost[|db.lost|].item == r.item)
      && (IsNewFound(r) ==> t.found[|db.found|].item == r.item)
  {
    if IsNewLost(r) {
      NewLostPairs(db, r.item, 0, 0);
    } else if IsNewFound(r) {
      NewFoundPairs(db, r.item, 0, 0);
    }
  }

  /** Stored pairs always score enough. */
  lemma {:induction false} StoredScores(reqs: seq<Request>, l: nat, f: nat)
    requires HasRow(Run(reqs).matches, l, f)
    ensures InRange(Run(reqs), l, f) && PairScore(Run(reqs), l, f) >= 55
  {
    if reqs != [] {
      var n := |reqs| - 1;
      StepPairs(Run(reqs[..n]), reqs[n], l, f);
      StepItems(Run(reqs[..n]), reqs[n]);
      if HasRow(Run(reqs[..n]).matches, l, f) {
        StoredScores(reqs[..n], l, f);
      }
    }
  }

  /** A pair that scores enough and has neither item resolved is stored, whatever was resolved elsewhere. */
  lemma {:induction false} UnresolvedStored(reqs: seq<Request>, l: nat, f: nat)
    requires InRange(Run(reqs), l, f) && PairScore(Run(reqs), l, f) >= 55
    requires Run(reqs).lost[l].status != Resolved && Run(reqs).found[f].status != Resolved
    ensures HasRow(Run(reqs).matches, l, f)
  {
    if reqs != [] {
      var n := |reqs| - 1;
      var prev := Run(reqs[..n]);
      StepPairs(prev, reqs[n], l, f);
      StepItems(prev, reqs[n]);
      StepResolved(prev, reqs[n], Lost, l);
      StepResolved(prev, reqs[n], Found, f);
      if InRange(prev, l, f) {
        UnresolvedStored(reqs[..n], l, f);
      }
    }
  }

  /** Without resolves the stored pairs are the full join: all pairs that score at least 55. */
  lemma {:induction false} FullJoin(reqs: seq<Request>, l: nat, f: nat)
    requires NoResolve(reqs)
    ensures var db := Run(reqs);
      HasRow(db.matches, l, f) <==> InRange(db, l, f) && PairScore(db, l, f) >= 55
  {
    var db := Run(reqs);
    if HasRow(db.matches, l, f) {
      StoredScores(reqs, l, f);
    } else if InRange(db, l, f) && PairScore(db, l, f) >= 55 {
      NothingResolved(reqs, Lost, l);
      NothingResolved(reqs, Found, f);
      UnresolvedStored(reqs, l, f);
    }
  }

  // ----- report order -----

  predicate Adds(r: Request, kind: Kind, item: Item) {
    (if kind == Lost then IsNewLost(r) else IsNewFound(r)) && r.item == item
  }

  ghost predicate Reported(reqs: seq<Request>, kind: Kind, item: Item) {
    exists r :: r in reqs && Adds(r, kind, item)
  }

  ghost predicate Holds(rows: seq<Row>, item: Item) { exists i: nat :: Listed(rows, i, item) }

  ghost predicate Listed(rows: seq<Row>, i: nat, item: Item) { i < |rows| && rows[i].item == item }

  lemma {:induction false} StepListed(db: Db, r: Request, kind: Kind, item: Item)
    ensures Holds(Table(Step(db, r), kind), item) <==> Holds(Table(db, kind), item) || Adds(r, kind, item)
  {
    StepItems(db, r);
    var before, after := Table(db, kind), Table(Step(db, r), kind);
    hide Step, Complete;
    if i: nat :| Listed(after, i, item) {
      if i < |before| {
        assert Listed(before, i, item);
      }
    }
    if i: nat :| Listed(before, i, item) {
      assert Listed(after, i, item);
    }
    if Adds(r, kind, item) {
      assert Listed(after, |before|, item);
    }
  }

  /** The tables hold exactly the reported items. */
  lemma {:induction false} ListedIff(reqs: seq<Request>, kind: Kind, item: Item)
    ensures Holds(Table(Run(reqs), kind), item) <==> Reported(reqs, kind, item)
  {
    if reqs != [] {
      var n := |reqs| - 1;
      ListedIff(reqs[..n], kind, item);
      StepListed(Run(reqs[..n]), reqs[n], kind, item);
      assert reqs == reqs[..n] + [reqs[n]];
    }
  }

  /** The two items are on record as a match. */
  ghost predicate StoredPair(db: Db, a: Item, b: Item) {
    exists l: nat, f: nat :: HasRow(db.matches, l, f) && Listed(db.lost, l, a) && Listed(db.found, f, b)
  }

  lemma {:induction false} StoredIff(reqs: seq<Request>, a: Item, b: Item)
    requires NoResolve(reqs)
    ensures StoredPair(Run(reqs), a, b) <==>
      (Reported(reqs, Lost, a) && Reported(reqs, Found, b) && Score(a, b) >= 55)
  {
    var db := Run(reqs);
    ListedIff(reqs, Lost, a);
    ListedIff(reqs, Found, b);
    if StoredPair(db, a, b) {
      var l: nat, f: nat :| HasRow(db.matches, l, f) && Listed(db.lost, l, a) && Listed(db.found, f, b);
      FullJoin(reqs, l, f);
      assert Listed(Table(db, Lost), l, a) && Listed(Table(db, Found), f, b);
    }
    if Reported(reqs, Lost, a) && Reported(reqs, Found, b) && Score(a, b) >= 55 {
      var l: nat :| Listed(Table(db, Lost), l, a);
      var f: nat :| Listed(Table(db, Found), f, b);
      FullJoin(reqs, l, f);
    }
  }

  /** The matched items do not depend on the order of the requests. */
  lemma {:induction false} OrderIndependence(reqs: seq<Request>, other: seq<Request>, a: Item, b: Item)
    requires NoResolve(reqs) && (forall r :: r in reqs <==> r in other)
    ensures StoredPair(Run(reqs), a, b) <==> StoredPair(Run(other), a, b)
  {
    forall i | 0 <= i < |other| ensures !AsksToResolve(other[i]) {
      assert other[i] in reqs;
    }
    StoredIff(reqs, a, b);
    StoredIff(other, a, b);
  }

  // ----- running a match again -----

  ghost predicate Settled(db: Db, l: nat, f: nat)
    requires InRange(db, l, f)
  {
    PairScore(db, l, f) < 55 || HasRow(db.matches, l, f)
  }

  lemma {:induction false} SettledLost(db: Db, l: nat, ids: seq<nat>)
    requires l < |db.lost| && AllBelow(ids, |db.found|)
    requires forall f :: f in ids ==> Settled(db, l, f)
    ensures MatchLostWith(db, l, ids) == db
  {
    if ids != [] {
      SettledLost(db, l, ids[..|ids| - 1]);
      assert ids[|ids| - 1] in ids;
    }
  }

  lemma {:induction false} SettledFound(db: Db, f: nat, ids: seq<nat>)
    requires f < |db.found| && AllBelow(ids, |db.lost|)
    requires forall l :: l in ids ==> Settled(db, l, f)
    ensures MatchFoundWith(db, f, ids) == db
  {
    if ids != [] {
      SettledFound(db, f, ids[..|ids| - 1]);
      assert ids[|ids| - 1] in ids;
    }
  }

  /** On any database, matching an item twice in a row equals matching it once. */
  lemma {:induction false} MatchAgain(db: Db, i: nat)
    ensures MatchNewLost(MatchNewLost(db, i), i) == MatchNewLost(db, i)
    ensures MatchNewFound(MatchNewFound(db, i), i) == MatchNewFound(db, i)
  {
    if i < |db.lost| {
      MatchLostAgain(db, i);
    }
    if i < |db.found| {
      MatchFoundAgain(db, i);
    }
  }

  lemma {:induction false} MatchLostAgain(db: Db, l: nat)
    requires l < |db.lost|
    ensures MatchNewLost(MatchNewLost(db, l), l) == MatchNewLost(db, l)
  {
    var ids := Unresolved(db.found);
    var r := MatchLostWith(db, l, ids);
    MatchLostPairs(db, l, ids, 0, 0);
    forall f | f in Unresolved(r.found) ensures Settled(r, l, f) {
      MatchLostPairs(db, l, ids, l, f);
    }
    SettledLost(r, l, Unresolved(r.found));
  }

  lemma {:induction false} MatchFoundAgain(db: Db, f: nat)
    requires f < |db.found|
    ensures MatchNewFound(MatchNewFound(db, f), f) == MatchNewFound(db, f)
  {
    var ids := Unresolved(db.lost);
    var r := MatchFoundWith(db, f, ids);
    MatchFoundPairs(db, f, ids, 0, 0);
    forall l | l in Unresolved(r.lost) ensures Settled(r, l, f) {
      MatchFoundPairs(db, f, ids, l, f);
    }
    SettledFound(r, f, Unresolved(r.lost));
  }

  /** In every reachable state, matching any unresolved item again changes nothing at all: no row, no status, no notice. */
  lemma {:induction false} RematchAddsNothing(reqs: seq<Request>, i: nat)
    ensures !IsResolved(Run(reqs), Lost, i) ==> MatchNewLost(Run(reqs), i) == Run(reqs)
    ensures !IsResolved(Run(reqs), Found, i) ==> MatchNewFound(Run(reqs), i) == Run(reqs)
  {
    if !IsResolved(Run(reqs), Lost, i) && i < |Run(reqs).lost| {
      RematchLost(reqs, i);
    }
    if !IsResolved(Run(reqs), Found, i) && i < |Run(reqs).found| {
      RematchFound(reqs, i);
    }
  }

  lemma {:induction false} RematchLost(reqs: seq<Request>, l: nat)
    requires l < |Run(reqs).lost| && Run(reqs).lost[l].status != Resolved
    ensures MatchNewLost(Run(reqs), l) == Run(reqs)
  {
    var db := Run(reqs);
    forall f | f in Unresolved(db.found) ensures Settled(db, l, f) {
      if PairScore(db, l, f) >= 55 {
        UnresolvedStored(reqs, l, f);
      }
    }
    SettledLost(db, l, Unresolved(db.found));
  }

  lemma {:induction false} RematchFound(reqs: seq<Request>, f: nat)
    requires f < |Run(reqs).found| && Run(reqs).found[f].status != Resolved
    ensures MatchNewFound(Run(reqs), f) == Run(reqs)
  {
    var db := Run(reqs);
    forall l | l in Unresolved(db.lost) ensures Settled(db, l, f) {
      if PairScore(db, l, f) >= 55 {
        UnresolvedStored(reqs, l, f);
      }
    }
    SettledFound(db, f, Unresolved(db.lost));
  }
}
