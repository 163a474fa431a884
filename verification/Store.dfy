/** The match engine as the pages run it: tables that each request updates in place. */
module Store {
  import opened Bytes
  import opened Scoring
  import opened Matching

  lemma {:induction false} LostStep(start: Db, l: nat, ids: seq<nat>, i: nat)
    requires l < |start.lost| && AllBelow(ids, |start.found|) && i < |ids|
    ensures AllBelow(ids[..i], |start.found|) && AllBelow(ids[..i + 1], |start.found|)
    ensures var was := MatchLostWith(start, l, ids[..i]);
      InRange(was, l, ids[i]) && MatchLostWith(start, l, ids[..i + 1]) == Evaluate(was, l, ids[i])
  {
    assert ids[..i + 1][..i] == ids[..i];
  }

  lemma {:induction false} FoundStep(start: Db, f: nat, ids: seq<nat>, i: nat)
    requires f < |start.found| && AllBelow(ids, |start.lost|) && i < |ids|
    ensures AllBelow(ids[..i], |start.lost|) && AllBelow(ids[..i + 1], |start.lost|)
    ensures var was := MatchFoundWith(start, f, ids[..i]);
      InRange(was, ids[i], f) && MatchFoundWith(start, f, ids[..i + 1]) == Evaluate(was, ids[i], f)
  {
    assert ids[..i + 1][..i] == ids[..i];
  }

  class Database {
    var emails: seq<bytes>
    var lost: seq<Row>
    var found: seq<Row>
    var matches: seq<MatchRow>
    var notices: seq<nat>

    ghost function Snapshot(): Db
      reads this
    {
      Db(emails, lost, found, matches, notices)
    }

    constructor ()
      ensures Snapshot() == EMPTY
    {
      emails, lost, found, matches, notices := [], [], [], [], [];
    }

    method Register(email: bytes)
      modifies this
      ensures Snapshot() == Step(old(Snapshot()), Request.Register(email))
    {
      emails := emails + [email];
    }

    // ----- notifications -----

    method CreateNotification(user: nat)
      modifies this`notices
      ensures notices == old(notices) + [user]
    {
      notices := notices + [user];
    }

    /** `ownerSent` and `finderSent` are what the mail transport would answer. */
    method NotifyMatchFound(owner: nat, finder: nat, ownerSent: bool, finderSent: bool) returns (allSent: bool)
      modifies this`notices
      ensures notices == old(notices) + Notified(old(Snapshot()), owner, finder)
      ensures allSent <==>
        (Reachable(old(Snapshot()), owner) ==> ownerSent)
        && (Reachable(old(Snapshot()), finder) && finder != owner ==> finderSent)
    {
      allSent := true;
      if owner < |emails| && !Empty(emails[owner]) {
        CreateNotification(owner);
        if !ownerSent {
          allSent := false;
        }
      }
      if finder < |emails| && !Empty(emails[finder]) && (owner >= |emails| || finder != owner) {
        CreateNotification(finder);
        if !finderSent {
          allSent := false;
        }
      }
    }

    // ----- matching -----

    /** The duplicate check: is there a row for this pair? */
    method FindMatch(l: nat, f: nat) returns (some: bool)
      ensures some <==> HasRow(matches, l, f)
    {
      some := false;
      var i := 0;
      while i < |matches|
        invariant 0 <= i <= |matches|
        invariant some <==> exists k :: 0 <= k < i && matches[k].lost == l && matches[k].found == f
      {
        if matches[i].lost == l && matches[i].found == f {
          some := true;
        }
        i := i + 1;
      }
    }

    method EvaluateAndStoreMatch(l: nat, f: nat)
      requires InRange(Snapshot(), l, f)
      modifies this
      ensures Snapshot() == Evaluate(old(Snapshot()), l, f)
    {
      var score := CalculateMatchScore(lost[l].item, found[f].item);
      if score >= MATCH_THRESHOLD {
        var known := FindMatch(l, f);
        if !known {
          matches := matches + [MatchRow(l, f, score)];
          if lost[l].status == Open {
            lost := lost[l := lost[l].(status := Matched)];
          }
          if found[f].status == Open {
            found := found[f := found[f].(status := Matched)];
          }
          var ownerSent: bool, finderSent: bool := *, *;
          var _ := NotifyMatchFound(lost[l].item.userId, found[f].item.userId, ownerSent, finderSent);
        }
      }
    }

    method SelectUnresolved(rows: seq<Row>) returns (ids: seq<nat>)
      ensures ids == Unresolved(rows)
    {
      ids := [];
      var i := 0;
      while i < |rows|
        invariant 0 <= i <= |rows|
        invariant ids == Unresolved(rows[..i])
      {
        assert rows[..i + 1][..i] == rows[..i];
        if rows[i].status != Resolved {
          ids := ids + [i];
        }
        i := i + 1;
      }
      assert rows[..|rows|] == rows;
    }

    method MatchNewLostItem(l: nat)
      modifies this
      ensures Snapshot() == MatchNewLost(old(Snapshot()), l)
    {
      if l >= |lost| {
        return;
      }
      var ids := SelectUnresolved(found);
      ghost var start := Snapshot();
      var i := 0;
      while i < |ids|
        invariant 0 <= i <= |ids|
        invariant Snapshot() == MatchLostWith(start, l, ids[..i])
      {
        hide Evaluate, MatchLostWith, Unresolved;
        LostStep(start, l, ids, i);
        EvaluateAndStoreMatch(l, ids[i]);
        i := i + 1;
      }
      assert ids[..|ids|] == ids;
    }

    method MatchNewFoundItem(f: nat)
      modifies this
      ensures Snapshot() == MatchNewFound(old(Snapshot()), f)
    {
      if f >= |found| {
        return;
      }
      var ids := SelectUnresolved(lost);
      ghost var start := Snapshot();
      var i := 0;
      while i < |ids|
        invariant 0 <= i <= |ids|
        invariant Snapshot() == MatchFoundWith(start, f, ids[..i])
      {
        hide Evaluate, MatchFoundWith, Unresolved;
        FoundStep(start, f, ids, i);
        EvaluateAndStoreMatch(ids[i], f);
        i := i + 1;
      }
      assert ids[..|ids|] == ids;
    }

    // ----- the pages -----

    method ReportLostPage(item: Item, imageOk: bool)
      modifies this
      ensures Snapshot() == Step(old(Snapshot()), ReportLost(item, imageOk))
    {
      if Complete(item) && imageOk {
        lost := lost + [Row(item, Open)];
        MatchNewLostItem(|lost| - 1);
      }
    }

    method ReportFoundPage(item: Item, imageOk: bool)
      modifies this
      ensures Snapshot() == Step(old(Snapshot()), ReportFound(item, imageOk))
    {
      if Complete(item) && imageOk {
        found := found + [Row(item, Open)];
        MatchNewFoundItem(|found| - 1);
      }
    }

    /** The item page: a resolve by the reporter, else a resend by anyone logged in. */
    method ItemPage(kind: Kind, id: nat, user: Option<nat>, resolve: bool, notify: Option<nat>,
                    ownerSent: bool, finderSent: bool)
      modifies this
      ensures Snapshot() == Step(old(Snapshot()), Visit(kind, id, user, resolve, notify))
    {
      var rows := if kind == Lost then lost else found;
      if id >= |rows| || rows[id].item.userId >= |emails| {
        return;
      }
      var isOwner := user == Some(rows[id].item.userId);
      if isOwner && resolve {
        if kind == Lost {
          lost := lost[id := lost[id].(status := Resolved)];
        } else {
          found := found[id := found[id].(status := Resolved)];
        }
        return;
      }
      if notify.Some? && user.Some? && notify.value < |matches| {
        var row := matches[notify.value];
        if row.lost < |lost| && row.found < |found| {
          var _ := NotifyMatchFound(lost[row.lost].item.userId, found[row.found].item.userId, ownerSent, finderSent);
        }
      }
    }
  }
}
