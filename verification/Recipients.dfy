/** The recipient lists of a message and the index over them. */
module Recipients {
  import opened Bytes

  datatype Recipient = Recipient(address: bytes, name: bytes)

  datatype Kind = To | Cc | Bcc | ReplyTo | Unknown

  /** `to`, `cc`, `bcc`, `ReplyTo` and the keys of `all_recipients`. */
  datatype Lists = Lists(to: seq<Recipient>, cc: seq<Recipient>, bcc: seq<Recipient>, replyTo: seq<Recipient>,
                         all: set<bytes>)

  const EMPTY := Lists([], [], [], [], {})

  function Key(r: Recipient): bytes { Lower(r.address) }

  function Keys(rs: seq<Recipient>): (k: seq<bytes>)
    ensures |k| == |rs|
    ensures forall i :: 0 <= i < |rs| ==> k[i] == Key(rs[i])
  {
    seq(|rs|, i requires 0 <= i < |rs| => Key(rs[i]))
  }

  /** The index holds the lower-cased addresses of the three lists, each of them exactly once. */
  ghost predicate Indexed(l: Lists) {
    multiset(l.all) == multiset(Keys(l.to)) + multiset(Keys(l.cc)) + multiset(Keys(l.bcc))
  }

  /** No reply-to address twice. */
  ghost predicate ReplyToDistinct(l: Lists) {
    forall i, j :: 0 <= i < j < |l.replyTo| ==> Key(l.replyTo[i]) != Key(l.replyTo[j])
  }

  ghost predicate Consistent(l: Lists) { Indexed(l) && ReplyToDistinct(l) }

  // ----- operations on values -----

  /** `addAnAddress`: the new lists and whether the address was added; `valid` is the verdict of the validator. */
  function Added(l: Lists, kind: Kind, address: bytes, name: bytes, valid: bool): (Lists, bool) {
    var r := Recipient(address, name);
    if kind == Unknown || !valid then (l, false)
    else if kind == ReplyTo then
      if Key(r) in Keys(l.replyTo) then (l, false) else (l.(replyTo := l.replyTo + [r]), true)
    else if Key(r) in l.all then (l, false)
    else match kind
      case To => (l.(to := l.to + [r], all := l.all + {Key(r)}), true)
      case Cc => (l.(cc := l.cc + [r], all := l.all + {Key(r)}), true)
      case _ => (l.(bcc := l.bcc + [r], all := l.all + {Key(r)}), true)
  }

  function KeySet(rs: seq<Recipient>): set<bytes> { set i | 0 <= i < |rs| :: Key(rs[i]) }

  function Cleared(l: Lists, kind: Kind): Lists {
    match kind
    case To => l.(to := [], all := l.all - KeySet(l.to))
    case Cc => l.(cc := [], all := l.all - KeySet(l.cc))
    case Bcc => l.(bcc := [], all := l.all - KeySet(l.bcc))
    case ReplyTo => l.(replyTo := [])
    case Unknown => l
  }

  /** `clearAllRecipients` leaves the reply-to list alone. */
  function ClearedAll(l: Lists): Lists { l.(to := [], cc := [], bcc := [], all := {}) }

  datatype Op = Add(kind: Kind, address: bytes, name: bytes, valid: bool) | Clear(kind: Kind) | ClearAll

  function Apply(l: Lists, op: Op): Lists {
    match op
    case Add(k, a, n, v) => Added(l, k, a, n, v).0
    case Clear(k) => Cleared(l, k)
    case ClearAll => ClearedAll(l)
  }

  function ApplyAll(ops: seq<Op>): Lists {
    if ops == [] then EMPTY else Apply(ApplyAll(ops[..|ops| - 1]), ops[|ops| - 1])
  }

  // ----- what one operation does -----

  /** The address stands in the list in some letter case. */
  ghost predicate Listed(rs: seq<Recipient>, address: bytes) {
    exists i :: 0 <= i < |rs| && Lower(rs[i].address) == Lower(address)
  }

  /** The four kinds, each with its own list. An address is taken when it is valid and stands in none of the three lists
      already, for a reply-to address not in that list; then exactly it, with its name, joins the list of its kind, and
      the answer says whether it did. */
  lemma {:induction false} OneIsAdded(l: Lists, address: bytes, name: bytes, valid: bool)
    requires Consistent(l)
    ensures var taken := valid && !Listed(l.to, address) && !Listed(l.cc, address) && !Listed(l.bcc, address);
      var more: seq<Recipient> := if taken then [Recipient(address, name)] else [];
      && (var (n, ok) := Added(l, To, address, name, valid);
          ok == taken && (n.to, n.cc, n.bcc, n.replyTo) == (l.to + more, l.cc, l.bcc, l.replyTo))
      && (var (n, ok) := Added(l, Cc, address, name, valid);
          ok == taken && (n.to, n.cc, n.bcc, n.replyTo) == (l.to, l.cc + more, l.bcc, l.replyTo))
      && (var (n, ok) := Added(l, Bcc, address, name, valid);
          ok == taken && (n.to, n.cc, n.bcc, n.replyTo) == (l.to, l.cc, l.bcc + more, l.replyTo))
    ensures var (n, ok) := Added(l, ReplyTo, address, name, valid);
      && ok == (valid && !Listed(l.replyTo, address)) && (n.to, n.cc, n.bcc) == (l.to, l.cc, l.bcc)
      && n.replyTo == l.replyTo + if ok then [Recipient(address, name)] else []
    ensures Added(l, Unknown, address, name, valid) == (l, false)
  {
    IndexFacts(l);
    KeysListed(l.to, address);
    KeysListed(l.cc, address);
    KeysListed(l.bcc, address);
    KeysListed(l.replyTo, address);
    hide Keys, Lower, Consistent, Listed;
    assert l.to + [] == l.to && l.cc + [] == l.cc && l.bcc + [] == l.bcc && l.replyTo + [] == l.replyTo;
  }

  lemma {:induction false} KeysListed(rs: seq<Recipient>, address: bytes)
    ensures Lower(address) in Keys(rs) <==> Listed(rs, address)
  {
    if i :| 0 <= i < |rs| && Lower(rs[i].address) == Lower(address) {
      assert Keys(rs)[i] == Lower(address);
    }
  }

  /** Each clear empties its own list and no other, and what it removed can be added again. */
  lemma {:induction false} OneIsCleared(l: Lists)
    requires Consistent(l)
    ensures var n := Cleared(l, To); (n.to, n.cc, n.bcc, n.replyTo) == ([], l.cc, l.bcc, l.replyTo)
    ensures var n := Cleared(l, Cc); (n.to, n.cc, n.bcc, n.replyTo) == (l.to, [], l.bcc, l.replyTo)
    ensures var n := Cleared(l, Bcc); (n.to, n.cc, n.bcc, n.replyTo) == (l.to, l.cc, [], l.replyTo)
    ensures var n := Cleared(l, ReplyTo); (n.to, n.cc, n.bcc, n.replyTo) == (l.to, l.cc, l.bcc, [])
    ensures var n := ClearedAll(l); (n.to, n.cc, n.bcc, n.replyTo) == ([], [], [], l.replyTo)
    ensures forall r :: r in l.to ==> Added(Cleared(l, To), To, r.address, r.name, true).1
  {
    forall r | r in l.to ensures Added(Cleared(l, To), To, r.address, r.name, true).1 {
      var i :| 0 <= i < |l.to| && l.to[i] == r;
      assert Key(l.to[i]) in KeySet(l.to);
    }
  }

  // ----- invariance -----

  lemma {:induction false} KeysPush(rs: seq<Recipient>, r: Recipient)
    ensures multiset(Keys(rs + [r])) == multiset(Keys(rs)) + multiset{Key(r)}
  {
    assert Keys(rs + [r]) == Keys(rs) + [Key(r)];
  }

  lemma {:induction false} IndexGrows(all: set<bytes>, k: bytes, m: multiset<bytes>)
    requires multiset(all) == m && k !in all
    ensures multiset(all + {k}) == m + multiset{k}
  {
  }

  /** Removing the keys of one list leaves the index of the other two. */
  lemma {:induction false} IndexShrinks(all: set<bytes>, rs: seq<Recipient>, others: multiset<bytes>)
    requires multiset(all) == multiset(Keys(rs)) + others
    ensures multiset(all - KeySet(rs)) == others
  {
    forall k ensures multiset(all - KeySet(rs))[k] == others[k] {
      assert multiset(all)[k] == multiset(Keys(rs))[k] + others[k];
      assert multiset(all)[k] <= 1;
    }
  }

  lemma {:induction false} AddKeeps(l: Lists, kind: Kind, address: bytes, name: bytes, valid: bool)
    requires Consistent(l)
    ensures Consistent(Added(l, kind, address, name, valid).0)
  {
    var r := Recipient(address, name);
    KeysPush(l.to, r);
    KeysPush(l.cc, r);
    KeysPush(l.bcc, r);
    if Key(r) !in l.all {
      IndexGrows(l.all, Key(r), multiset(l.all));
    }
    if kind == ReplyTo && Key(r) !in Keys(l.replyTo) {
      forall i | 0 <= i < |l.replyTo| ensures Key(l.replyTo[i]) != Key(r) {
        assert Keys(l.replyTo)[i] in Keys(l.replyTo);
      }
    }
  }

  lemma {:induction false} ClearKeeps(l: Lists, kind: Kind)
    requires Consistent(l)
    ensures Consistent(Cleared(l, kind))
  {
    assert Keys([]) == [];
    var t, c, b := multiset(Keys(l.to)), multiset(Keys(l.cc)), multiset(Keys(l.bcc));
    match kind {
      case To => IndexShrinks(l.all, l.to, c + b);
      case Cc => assert t + c + b == c + (t + b); IndexShrinks(l.all, l.cc, t + b);
      case Bcc => assert t + c + b == b + (t + c); IndexShrinks(l.all, l.bcc, t + c);
      case ReplyTo =>
      case Unknown =>
    }
  }

  /** After any run of additions and clears the index is exactly the lower-cased addresses of the three lists,
      none of them twice, so its size is the number of recipients. */
  lemma {:induction false} IndexOverRuns(ops: seq<Op>)
    ensures var l := ApplyAll(ops);
      && Consistent(l)
      && |l.all| == |l.to| + |l.cc| + |l.bcc|
      && (forall k :: k in l.all <==> k in Keys(l.to) || k in Keys(l.cc) || k in Keys(l.bcc))
      && forall a :: Lower(a) in l.all <==> Listed(l.to, a) || Listed(l.cc, a) || Listed(l.bcc, a)
  {
    if ops == [] {
      assert Keys([]) == [];
    } else {
      var init := ops[..|ops| - 1];
      IndexOverRuns(init);
      match ops[|ops| - 1] {
        case Add(k, a, n, v) => AddKeeps(ApplyAll(init), k, a, n, v);
        case Clear(k) => ClearKeeps(ApplyAll(init), k);
        case ClearAll => assert Keys([]) == [];
      }
    }
    var l := ApplyAll(ops);
    IndexFacts(l);
    forall a ensures Lower(a) in l.all <==> Listed(l.to, a) || Listed(l.cc, a) || Listed(l.bcc, a) {
      KeysListed(l.to, a);
      KeysListed(l.cc, a);
      KeysListed(l.bcc, a);
    }
  }

  lemma {:induction false} IndexFacts(l: Lists)
    requires Indexed(l)
    ensures |l.all| == |l.to| + |l.cc| + |l.bcc|
    ensures forall k :: k in l.all <==> k in Keys(l.to) || k in Keys(l.cc) || k in Keys(l.bcc)
  {
    assert |multiset(l.all)| == |Keys(l.to)| + |Keys(l.cc)| + |Keys(l.bcc)|;
    forall k ensures k in l.all <==> k in Keys(l.to) || k in Keys(l.cc) || k in Keys(l.bcc) {
      assert k in l.all <==> k in multiset(l.all);
    }
  }

  // ----- the object -----

  class RecipientBook {
    var to: seq<Recipient>
    var cc: seq<Recipient>
    var bcc: seq<Recipient>
    var replyTo: seq<Recipient>
    var allRecipients: set<bytes>

    ghost function Contents(): Lists
      reads this
    {
      Lists(to, cc, bcc, replyTo, allRecipients)
    }

    constructor ()
      ensures Contents() == EMPTY
    {
      to, cc, bcc, replyTo, allRecipients := [], [], [], [], {};
    }

    /** `PHPMailer::addAnAddress`. */
    method AddAnAddress(kind: Kind, address: bytes, name: bytes, valid: bool) returns (ok: bool)
      requires Consistent(Contents())
      modifies this
      ensures Consistent(Contents())
      ensures (Contents(), ok) == Added(old(Contents()), kind, address, name, valid)
    {
      AddKeeps(Contents(), kind, address, name, valid);
      var r := Recipient(address, name);
      if kind == Unknown || !valid {
        return false;
      }
      if kind != ReplyTo {
        if Key(r) in allRecipients {
          return false;
        }
        if kind == To {
          to := to + [r];
        } else if kind == Cc {
          cc := cc + [r];
        } else {
          bcc := bcc + [r];
        }
        allRecipients := allRecipients + {Key(r)};
        return true;
      }
      for i := 0 to |replyTo|
        invariant forall j :: 0 <= j < i ==> Key(replyTo[j]) != Key(r)
      {
        if Key(replyTo[i]) == Key(r) {
          assert Keys(replyTo)[i] == Key(r);
          return false;
        }
      }
      replyTo := replyTo + [r];
      return true;
    }

    /** The loop that unsets one key of the index for each entry of a list. */
    method UnsetKeys(list: seq<Recipient>)
      modifies this`allRecipients
      ensures allRecipients == old(allRecipients) - KeySet(list)
    {
      for i := 0 to |list|
        invariant allRecipients == old(allRecipients) - KeySet(list[..i])
      {
        allRecipients := allRecipients - {Key(list[i])};
        assert KeySet(list[..i + 1]) == KeySet(list[..i]) + {Key(list[i])};
      }
      assert list[..|list|] == list;
    }

    /** `PHPMailer::clearAddresses`. */
    method ClearAddresses()
      requires Consistent(Contents())
      modifies this
      ensures Consistent(Contents()) && Contents() == Cleared(old(Contents()), To)
    {
      ClearKeeps(Contents(), To);
      UnsetKeys(to);
      to := [];
    }

    /** `PHPMailer::clearCCs`. */
    method ClearCCs()
      requires Consistent(Contents())
      modifies this
      ensures Consistent(Contents()) && Contents() == Cleared(old(Contents()), Cc)
    {
      ClearKeeps(Contents(), Cc);
      UnsetKeys(cc);
      cc := [];
    }

    /** `PHPMailer::clearBCCs`. */
    method ClearBCCs()
      requires Consistent(Contents())
      modifies this
      ensures Consistent(Contents()) && Contents() == Cleared(old(Contents()), Bcc)
    {
      ClearKeeps(Contents(), Bcc);
      UnsetKeys(bcc);
      bcc := [];
    }

    /** `PHPMailer::clearReplyTos`. */
    method ClearReplyTos()
      requires Consistent(Contents())
      modifies this
      ensures Consistent(Contents()) && Contents() == Cleared(old(Contents()), ReplyTo)
    {
      ClearKeeps(Contents(), ReplyTo);
      replyTo := [];
    }

    /** `PHPMailer::clearAllRecipients`. */
    method ClearAllRecipients()
      requires Consistent(Contents())
      modifies this
      ensures Consistent(Contents()) && Contents() == ClearedAll(old(Contents()))
    {
      assert Keys([]) == [];
      to, cc, bcc, allRecipients := [], [], [], {};
    }
  }
}
