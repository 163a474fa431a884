/** The match engine over the item tables: what each request does, as functions on database values. */
module Matching {
  import opened Bytes
  import opened Scoring

  datatype Status = Open | Matched | Resolved

  datatype Row = Row(item: Item, status: Status)

  datatype MatchRow = MatchRow(lost: nat, found: nat, score: int)

  /** The tables. A row's id is its position; `emails[i]` is the address of user `i`; `notices` are the user ids of
      the notification rows. */
  datatype Db = Db(emails: seq<bytes>, lost: seq<Row>, found: seq<Row>, matches: seq<MatchRow>, notices: seq<nat>)

  const EMPTY := Db([], [], [], [], [])

  // ----- notifications -----

  predicate Reachable(db: Db, user: nat) { user < |db.emails| && !Empty(db.emails[user]) }

  /** `notify_match_found`: the rows it inserts, the owner of the lost item first. */
  function Notified(db: Db, owner: nat, finder: nat): seq<nat> {
    (if Reachable(db, owner) then [owner] else [])
    + (if Reachable(db, finder) && !(owner < |db.emails| && finder == owner) then [finder] else [])
  }

  /** Two users with addresses: the owner of the lost item is told first. */
  lemma {:induction false} OwnerFirst(db: Db, owner: nat, finder: nat)
    requires owner < |db.emails| && finder < |db.emails|
    requires db.emails[owner] !in {[], [48]} && db.emails[finder] !in {[], [48]}
    ensures Notified(db, owner, finder) == if owner == finder then [owner] else [owner, finder]
  {
  }

  // ----- matching -----

  predicate HasRow(matches: seq<MatchRow>, l: nat, f: nat) {
    exists i :: 0 <= i < |matches| && matches[i].lost == l && matches[i].found == f
  }

  function MarkMatched(rows: seq<Row>, i: nat): (r: seq<Row>)
    requires i < |rows|
    ensures |r| == |rows|
  {
    if rows[i].status == Open then rows[i := rows[i].(status := Matched)] else rows
  }

  predicate InRange(db: Db, l: nat, f: nat) { l < |db.lost| && f < |db.found| }

  function PairScore(db: Db, l: nat, f: nat): int
    requires InRange(db, l, f)
  {
    Score(db.lost[l].item, db.found[f].item)
  }

  /** `evaluate_and_store_match`. */
  function Evaluate(db: Db, l: nat, f: nat): Db
    requires InRange(db, l, f)
  {
    if PairScore(db, l, f) < MATCH_THRESHOLD || HasRow(db.matches, l, f) then db
    else
      db.(matches := db.matches + [MatchRow(l, f, PairScore(db, l, f))],
          lost := MarkMatched(db.lost, l),
          found := MarkMatched(db.found, f),
          notices := db.notices + Notified(db, db.lost[l].item.userId, db.found[f].item.userId))
  }

  /** The ids selected by `status != 'resolved'`. */
  function Unresolved(rows: seq<Row>): (ids: seq<nat>)
    ensures forall i: nat :: i in ids <==> i < |rows| && rows[i].status != Resolved
    ensures AllBelow(ids, |rows|)
    ensures forall i, j :: 0 <= i < j < |ids| ==> ids[i] != ids[j]
  {
    if rows == [] then []
    else
      var n := |rows| - 1;
      var ids := Unresolved(rows[..n]);
      if rows[n].status != Resolved then ids + [n] else ids
  }

  ghost predicate AllBelow(ids: seq<nat>, n: nat) { forall i :: 0 <= i < |ids| ==> ids[i] < n }

  /** The loop of `match_new_lost_item` over the selected found items. */
  function MatchLostWith(db: Db, l: nat, ids: seq<nat>): (r: Db)
    requires l < |db.lost| && AllBelow(ids, |db.found|)
    ensures |r.lost| == |db.lost| && |r.found| == |db.found|
  {
    if ids == [] then db
    else Evaluate(MatchLostWith(db, l, ids[..|ids| - 1]), l, ids[|ids| - 1])
  }

  function MatchFoundWith(db: Db, f: nat, ids: seq<nat>): (r: Db)
    requires f < |db.found| && AllBelow(ids, |db.lost|)
    ensures |r.lost| == |db.lost| && |r.found| == |db.found|
  {
    if ids == [] then db
    else Evaluate(MatchFoundWith(db, f, ids[..|ids| - 1]), ids[|ids| - 1], f)
  }

  function MatchNewLost(db: Db, l: nat): Db {
    if l < |db.lost| then MatchLostWith(db, l, Unresolved(db.found)) else db
  }

  function MatchNewFound(db: Db, f: nat): Db {
    if f < |db.found| then MatchFoundWith(db, f, Unresolved(db.lost)) else db
  }

  // ----- requests -----

  datatype Kind = Lost | Found

  datatype Request =
    | Register(email: bytes)
    | ReportLost(item: Item, imageOk: bool)
    | ReportFound(item: Item, imageOk: bool)
    | Visit(kind: Kind, id: nat, user: Option<nat>, resolve: bool, notify: Option<nat>)

  /** The form check of the two report pages. */
  predicate Complete(item: Item) {
    !Empty(item.name) && !Empty(item.category) && !Empty(item.description) && !Empty(item.location)
    && !Empty(item.dateText)
  }

  function Table(db: Db, kind: Kind): seq<Row> { if kind == Lost then db.lost else db.found }

  /** The item page finds the item and its reporter. */
  predicate Shown(db: Db, kind: Kind, id: nat) {
    id < |Table(db, kind)| && Table(db, kind)[id].item.userId < |db.emails|
  }

  /** The resolve branch of the item page: asked for, by the reporter. */
  predicate Resolves(db: Db, kind: Kind, id: nat, user: Option<nat>, resolve: bool) {
    Shown(db, kind, id) && resolve && user == Some(Table(db, kind)[id].item.userId)
  }

  function MarkResolved(rows: seq<Row>, i: nat): (r: seq<Row>)
    requires i < |rows|
    ensures |r| == |rows|
  {
    rows[i := rows[i].(status := Resolved)]
  }

  function AddLost(db: Db, item: Item): Db { db.(lost := db.lost + [Row(item, Open)]) }

  function AddFound(db: Db, item: Item): Db { db.(found := db.found + [Row(item, Open)]) }

  /** The match exists with both its items. */
  predicate MatchKnown(db: Db, matchId: nat) {
    matchId < |db.matches| && InRange(db, db.matches[matchId].lost, db.matches[matchId].found)
  }

  /** The resend branch: the page redirects after a resolve, so that one comes first. */
  predicate Resends(db: Db, r: Request) {
    && r.Visit? && Shown(db, r.kind, r.id) && !Resolves(db, r.kind, r.id, r.user, r.resolve)
    && r.user.Some? && r.notify.Some? && MatchKnown(db, r.notify.value)
  }

  function RowAudience(db: Db, row: MatchRow): seq<nat>
    requires InRange(db, row.lost, row.found)
  {
    Notified(db, db.lost[row.lost].item.userId, db.found[row.found].item.userId)
  }

  function Step(db: Db, r: Request): Db {
    match r
    case Register(email) => db.(emails := db.emails + [email])
    case ReportLost(item, ok) =>
      if Complete(item) && ok then MatchNewLost(AddLost(db, item), |db.lost|) else db
    case ReportFound(item, ok) =>
      if Complete(item) && ok then MatchNewFound(AddFound(db, item), |db.found|) else db
    case Visit(kind, id, user, resolve, notify) =>
      if Resolves(db, kind, id, user, resolve) then
        if kind == Lost then db.(lost := MarkResolved(db.lost, id)) else db.(found := MarkResolved(db.found, id))
      else if Resends(db, r) then db.(notices := db.notices + RowAudience(db, db.matches[notify.value]))
      else db
  }

  function Run(reqs: seq<Request>): Db {
    if reqs == [] then EMPTY else Step(Run(reqs[..|reqs| - 1]), reqs[|reqs| - 1])
  }

  // ----- what one evaluation changes -----

  /** Same items, same resolved flags, same users. */
  ghost predicate SameItems(a: Db, b: Db) {
    && a.emails == b.emails && |a.lost| == |b.lost| && |a.found| == |b.found|
    && (forall i :: 0 <= i < |a.lost| ==>
      a.lost[i].item == b.lost[i].item && (a.lost[i].status == Resolved <==> b.lost[i].status == Resolved))
    && (forall i :: 0 <= i < |a.found| ==>
      a.found[i].item == b.found[i].item && (a.found[i].status == Resolved <==> b.found[i].status == Resolved))
  }

  lemma {:induction false} EvaluateSameItems(db: Db, l: nat, f: nat)
    requires InRange(db, l, f)
    ensures SameItems(db, Evaluate(db, l, f))
  {
  }

  lemma {:induction false} HasRowPush(matches: seq<MatchRow>, row: MatchRow, l: nat, f: nat)
    ensures HasRow(matches + [row], l, f) <==> HasRow(matches, l, f) || (row.lost == l && row.found == f)
  {
    var m := matches + [row];
    if HasRow(matches, l, f) {
      var i :| 0 <= i < |matches| && matches[i].lost == l && matches[i].found == f;
      assert m[i].lost == l && m[i].found == f;
    }
    if row.lost == l && row.found == f {
      assert m[|matches|] == row;
    }
  }

  /** The pairs after an evaluation: those before, and the pair itself if it scores enough. */
  lemma {:induction false} EvaluatePairs(db: Db, l: nat, f: nat, x: nat, y: nat)
    requires InRange(db, l, f)
    ensures HasRow(Evaluate(db, l, f).matches, x, y) <==>
      HasRow(db.matches, x, y) || (x == l && y == f && PairScore(db, l, f) >= MATCH_THRESHOLD)
  {
    HasRowPush(db.matches, MatchRow(l, f, PairScore(db, l, f)), x, y);
  }

  lemma {:induction false} MatchLostPairs(db: Db, l: nat, ids: seq<nat>, x: nat, y: nat)
    requires l < |db.lost| && AllBelow(ids, |db.found|)
    ensures var r := MatchLostWith(db, l, ids);
      && SameItems(db, r)
      && (HasRow(r.matches, x, y) <==>
        HasRow(db.matches, x, y) || (x == l && y in ids && PairScore(db, l, y) >= MATCH_THRESHOLD))
  {
    if ids != [] {
      var n := |ids| - 1;
      var prev := MatchLostWith(db, l, ids[..n]);
      MatchLostPairs(db, l, ids[..n], x, y);
      EvaluateSameItems(prev, l, ids[n]);
      EvaluatePairs(prev, l, ids[n], x, y);
      assert ids == ids[..n] + [ids[n]];
    }
  }

  lemma {:induction false} MatchFoundPairs(db: Db, f: nat, ids: seq<nat>, x: nat, y: nat)
    requires f < |db.found| && AllBelow(ids, |db.lost|)
    ensures var r := MatchFoundWith(db, f, ids);
      && SameItems(db, r)
      && (HasRow(r.matches, x, y) <==>
        HasRow(db.matches, x, y) || (y == f && x in ids && PairScore(db, x, f) >= MATCH_THRESHOLD))
  {
    if ids != [] {
      var n := |ids| - 1;
      var prev := MatchFoundWith(db, f, ids[..n]);
      MatchFoundPairs(db, f, ids[..n], x, y);
      EvaluateSameItems(prev, ids[n], f);
      EvaluatePairs(prev, ids[n], f, x, y);
      assert ids == ids[..n] + [ids[n]];
    }
  }
}
