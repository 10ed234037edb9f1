/**
 Removal from the host of what nobody holds any more (internal/handlers/trash.go,
 removeUnheld and removeIfUnheld): which messages go, which files go with them,
 and what it leaves of everybody else's trash.
*/
module Removal {
  import opened Basics
  import opened Store
  import opened Walks
  import opened Trash

  predicate Unheld(c: Config, db: Db, id: MsgId, now: Time) {
    id in db.msgs && !Held(c, db, id) && !DeliveryPending(c, db.msgs[id], now)
  }

  function Removable(c: Config, db: Db, ids: set<MsgId>, now: Time): (r: set<MsgId>) {
    set id | id in ids && Unheld(c, db, id, now)
  }

  /** What removal comes to, with no order of removal in it. */
  function RemoveUnheld(c: Config, db: Db, ids: set<MsgId>, now: Time): (after: Db) {
    Drop(db, Removable(c, db, ids, now))
  }

  predicate InUse(db: Db, path: Path) {
    exists id :: id in db.msgs && Uses(db.msgs[id], path)
  }

  function Paths(m: Message): (paths: set<Path>) {
    set p | p in m.parts :: m.parts[p].path
  }

  /** The paths of removed messages that no remaining row uses. */
  function Orphaned(db: Db, gone: set<MsgId>): (paths: set<Path>) {
    var after := Drop(db, gone);
    set id, p | id in gone && id in db.msgs && p in Paths(db.msgs[id]) && !InUse(after, p) :: p
  }

  // ---- One message at a time, as the loop does it ----

  function RemoveOne(c: Config, db: Db, id: MsgId, now: Time): (r: (Db, set<Path>)) {
    if Unheld(c, db, id, now)
    then (Drop(db, {id}), set p | p in Paths(db.msgs[id]) && !InUse(Drop(db, {id}), p))
    else (db, {})
  }

  function RemoveEach(c: Config, db: Db, ids: seq<MsgId>, now: Time): (r: (Db, set<Path>))
    decreases |ids|
  {
    if ids == [] then (db, {})
    else
      var (next, files) := RemoveOne(c, db, ids[0], now);
      var (last, more) := RemoveEach(c, next, ids[1..], now);
      (last, files + more)
  }

  function AsSet(ids: seq<MsgId>): (r: set<MsgId>) {
    set i | 0 <= i < |ids| :: ids[i]
  }

  /** Whether a message is unheld does not depend on what else was removed. */
  lemma UnheldAfterDrop(c: Config, db: Db, gone: set<MsgId>, id: MsgId, now: Time)
    ensures Unheld(c, Drop(db, gone), id, now) <==> id !in gone && Unheld(c, db, id, now)
  {
    var after := Drop(db, gone);
    if id in after.msgs {
      assert after.msgs[id].(pid := None) == db.msgs[id].(pid := None);
      assert Holders(after.msgs[id]) == Holders(db.msgs[id]);
      assert forall a :: OwnPurged(after, a, id) <==> OwnPurged(db, a, id);
      assert Held(c, after, id) <==> Held(c, db, id);
    }
  }

  lemma OrphanedTogether(db: Db, id: MsgId, gone: set<MsgId>)
    requires id in db.msgs && id !in gone
    ensures Orphaned(db, {id} + gone)
            == (set p | p in Paths(db.msgs[id]) && !InUse(Drop(db, {id}), p)) + Orphaned(Drop(db, {id}), gone)
  {
    var first := Drop(db, {id});
    var last := Drop(db, {id} + gone);
    DropTwice(db, {id}, gone);
    assert forall x :: x in first.msgs ==> Paths(first.msgs[x]) == Paths(db.msgs[x]);
    forall p | p in Paths(db.msgs[id]) && !InUse(last, p) && InUse(first, p)
      ensures p in Orphaned(first, gone)
    {
      var x :| x in first.msgs && Uses(first.msgs[x], p);
      if x !in gone {
        assert Uses(last.msgs[x], p);
      }
    }
    forall p | InUse(last, p) ensures InUse(first, p) {
      var x :| x in last.msgs && Uses(last.msgs[x], p);
      assert Uses(first.msgs[x], p);
    }
  }

  /** Removing listed messages one by one, in any order, removes exactly those
      that were unheld to begin with, and schedules exactly the files that some
      removed message used and no remaining row does. */
  lemma {:induction false} RemoveEachIsExact(c: Config, db: Db, ids: seq<MsgId>, now: Time)
    ensures RemoveEach(c, db, ids, now).0 == RemoveUnheld(c, db, AsSet(ids), now)
    ensures RemoveEach(c, db, ids, now).1 == Orphaned(db, Removable(c, db, AsSet(ids), now))
    decreases |ids|
  {
    if ids == [] {
      assert Drop(db, {}) == db by {
        assert Drop(db, {}).msgs == db.msgs && Drop(db, {}).trash == db.trash;
      }
    } else {
      var id, rest := ids[0], ids[1..];
      var next := RemoveOne(c, db, id, now).0;
      var gone := Removable(c, db, AsSet(ids), now);
      RemoveEachIsExact(c, next, rest, now);
      assert AsSet(ids) == {id} + AsSet(rest);
      if Unheld(c, db, id, now) {
        forall x ensures Unheld(c, next, x, now) <==> x != id && Unheld(c, db, x, now) {
          UnheldAfterDrop(c, db, {id}, x, now);
        }
        var restGone := Removable(c, next, AsSet(rest), now);
        assert gone == {id} + restGone;
        DropTwice(db, {id}, restGone);
        OrphanedTogether(db, id, restGone);
      } else {
        assert gone == Removable(c, db, AsSet(rest), now);
      }
    }
  }

  /** So the order in which they are listed does not matter. */
  lemma RemovalOrderIsIrrelevant(c: Config, db: Db, ids: seq<MsgId>, other: seq<MsgId>, now: Time)
    requires forall id :: id in ids <==> id in other
    ensures RemoveEach(c, db, ids, now) == RemoveEach(c, db, other, now)
  {
    RemoveEachIsExact(c, db, ids, now);
    RemoveEachIsExact(c, db, other, now);
    assert forall id :: id in AsSet(ids) <==> id in ids;
    assert forall id :: id in AsSet(other) <==> id in other;
    assert AsSet(ids) == AsSet(other);
  }

  /** What fmsgd may still deliver only lapses: a message that nothing keeps
      any more is not kept again by the passing of time. */
  lemma PendingOnlyLapses(c: Config, m: Message, now: Time, later: Time)
    requires now <= later && DeliveryPending(c, m, later)
    ensures DeliveryPending(c, m, now)
  {
    if b :| 0 <= b < |m.batches| && later - m.batches[b].added < c.retryMaxAge
            && exists d :: d in m.batches[b].notify && Retried(m.batches[b].notify[d]) {
      assert now - m.batches[b].added < c.retryMaxAge;
    }
  }

  // ---- Other people's trash ----

  /** The walk from a survivor now ends below the first removed message. */
  lemma {:induction false} WalkAfterDrop(db: Db, gone: set<MsgId>, id: MsgId, cap: nat)
    requires id !in gone
    ensures UpWalk(Drop(db, gone), id, cap) <= UpWalk(db, id, cap)
    ensures UpWalk(Drop(db, gone), id, cap) !! gone
    ensures UpWalk(db, id, cap) !! gone ==> UpWalk(Drop(db, gone), id, cap) == UpWalk(db, id, cap)
    decreases cap
  {
    if cap > 0 && Parent(db, id).Some? && Parent(db, id).value !in gone {
      WalkAfterDrop(db, gone, Parent(db, id).value, cap - 1);
    }
  }

  function Weight(s: TrashState): (n: nat) {
    match s
    case NotTrashed => 0
    case InMessage => 1
    case InThread => 2
    case Purged => 3
  }

  /** What a's row on x counts for in the messages below x. */
  function MarkWeight(db: Db, a: Addr, x: MsgId): (n: nat) {
    if OwnPurged(db, a, x) then Weight(Purged)
    else if ThreadMarked(db, a, x) then Weight(InThread)
    else 0
  }

  /** k is how far above id the first of gone stands. */
  predicate FirstGone(db: Db, gone: set<MsgId>, id: MsgId, k: nat) {
    && Ancestor(db, id, k).Some? && Ancestor(db, id, k).value in gone
    && forall j: nat :: j < k && Ancestor(db, id, j).Some? ==> Ancestor(db, id, j).value !in gone
  }

  /** From there on nothing is left of the walk. */
  lemma {:induction false} WalkCutAt(db: Db, gone: set<MsgId>, id: MsgId, k: nat, cap: nat)
    requires FirstGone(db, gone, id, k) && 0 < k <= cap
    ensures UpWalk(Drop(db, gone), id, cap) == UpWalk(db, id, k - 1)
    decreases k
  {
    assert Ancestor(db, id, 0).value !in gone;
    var p := Parent(db, id).value;
    if k == 1 {
      assert Ancestor(db, p, 0) == Some(p);
    } else {
      assert Ancestor(db, id, 1) == Some(p) by {
        assert Ancestor(db, p, 0) == Some(p);
      }
      forall j: nat | j < k - 1 && Ancestor(db, p, j).Some? ensures Ancestor(db, p, j).value !in gone {
        assert Ancestor(db, id, j + 1) == Ancestor(db, p, j);
      }
      WalkCutAt(db, gone, p, k - 1, cap - 1);
    }
  }

  /** Removing messages leaves a walk over others what it says. */
  lemma SameOverOthers(db: Db, gone: set<MsgId>, a: Addr, id: MsgId, walk: set<MsgId>)
    requires id !in gone && walk !! gone
    ensures StateOver(Drop(db, gone), a, id, walk) == StateOver(db, a, id, walk)
  {
    assert forall x :: x in walk ==> (OwnPurged(Drop(db, gone), a, x) <==> OwnPurged(db, a, x));
    assert forall x :: x in walk ==> (ThreadMarked(Drop(db, gone), a, x) <==> ThreadMarked(db, a, x));
  }

  /** Where a survivor stands is read off what is left of its walk. */
  lemma StateAfterDrop(db: Db, gone: set<MsgId>, a: Addr, id: MsgId)
    requires id !in gone
    ensures StateOf(Drop(db, gone), a, id) == StateOver(db, a, id, UpWalk(Drop(db, gone), id, WALK_CAP))
  {
    WalkAfterDrop(db, gone, id, WALK_CAP);
    SameOverOthers(db, gone, a, id, UpWalk(Drop(db, gone), id, WALK_CAP));
  }

  /** Walking over more messages makes the answer no lighter, and changes it
      only for a weightier mark. */
  lemma StateOverMore(db: Db, a: Addr, id: MsgId, walk: set<MsgId>, more: set<MsgId>)
    requires walk <= more
    ensures Weight(StateOver(db, a, id, walk)) <= Weight(StateOver(db, a, id, more))
    ensures StateOver(db, a, id, more) == StateOver(db, a, id, walk)
            <==> forall x :: x in more ==> MarkWeight(db, a, x) <= Weight(StateOver(db, a, id, walk))
  {
  }

  /** Some mark of a's from k to cap links above id outweighs a's own row on id
      and every mark of a's nearer than k. */
  predicate MarkOutweighs(db: Db, a: Addr, id: MsgId, k: nat, cap: nat)
    requires k > 0
  {
    exists j: nat | k <= j <= cap ::
      Ancestor(db, id, j).Some?
      && MarkWeight(db, a, Ancestor(db, id, j).value) > Weight(StateOver(db, a, id, UpWalk(db, id, k - 1)))
  }

  lemma WalkGrows(db: Db, id: MsgId, cap: nat, more: nat)
    requires cap <= more
    ensures UpWalk(db, id, cap) <= UpWalk(db, id, more)
  {
    forall x | x in UpWalk(db, id, cap) ensures x in UpWalk(db, id, more) {
      UpWalkIs(db, id, cap, x);
      UpWalkIs(db, id, more, x);
    }
  }

  /** What a longer walk visits and a shorter one does not is beyond the shorter. */
  lemma BeyondReach(db: Db, id: MsgId, x: MsgId, below: nat, cap: nat) returns (j: nat)
    requires x in UpWalk(db, id, cap) && x !in UpWalk(db, id, below)
    ensures below < j <= cap && Ancestor(db, id, j) == Some(x)
  {
    UpWalkIs(db, id, cap, x);
    UpWalkIs(db, id, below, x);
    j :| j <= cap && Ancestor(db, id, j) == Some(x);
    assert j <= below ==> Above(db, id, x, below);
  }

  /** Marks nearer than k never outweigh what they make of the message. */
  lemma OutweighedFromAfar(db: Db, a: Addr, id: MsgId, k: nat, cap: nat)
    requires 0 < k <= cap
    ensures MarkOutweighs(db, a, id, k, cap)
            <==> exists x :: x in UpWalk(db, id, cap)
                             && MarkWeight(db, a, x) > Weight(StateOver(db, a, id, UpWalk(db, id, k - 1)))
  {
    var below: nat := k - 1;
    var near := StateOver(db, a, id, UpWalk(db, id, below));
    if x :| x in UpWalk(db, id, cap) && MarkWeight(db, a, x) > Weight(near) {
      var j := BeyondReach(db, id, x, below, cap);
    }
    if MarkOutweighs(db, a, id, k, cap) {
      var j: nat :| k <= j <= cap && Ancestor(db, id, j).Some?
                    && MarkWeight(db, a, Ancestor(db, id, j).value) > Weight(near);
      UpWalkIs(db, id, cap, Ancestor(db, id, j).value);
      assert Above(db, id, Ancestor(db, id, j).value, cap);
    }
  }

  /** Removing messages leaves where a survivor stands for an address as it was
      if and only if no mark of that address's at or above the first removed
      message outweighs what stands below it. It never makes it weightier. */
  lemma StateSurvivesRemoval(db: Db, gone: set<MsgId>, a: Addr, id: MsgId, k: nat)
    requires id in db.msgs && id !in gone && FirstGone(db, gone, id, k) && k <= WALK_CAP
    ensures k > 0
    ensures StateOf(Drop(db, gone), a, id) == StateOf(db, a, id) <==> !MarkOutweighs(db, a, id, k, WALK_CAP)
    ensures Weight(StateOf(Drop(db, gone), a, id)) <= Weight(StateOf(db, a, id))
  {
    assert Ancestor(db, id, 0) == Some(id);
    var near, all := UpWalk(db, id, k - 1), UpWalk(db, id, WALK_CAP);
    WalkCutAt(db, gone, id, k, WALK_CAP);
    StateAfterDrop(db, gone, a, id);
    WalkGrows(db, id, k - 1, WALK_CAP);
    StateOverMore(db, a, id, near, all);
    OutweighedFromAfar(db, a, id, k, WALK_CAP);
  }

  /** Removing what is not on a message's walk leaves where it stands. */
  lemma StateSurvivesElsewhere(db: Db, gone: set<MsgId>, a: Addr, id: MsgId)
    requires id in db.msgs && UpWalk(db, id, WALK_CAP) !! gone
    ensures StateOf(Drop(db, gone), a, id) == StateOf(db, a, id)
  {
    assert Ancestor(db, id, 0) == Some(id);
    UpWalkIs(db, id, WALK_CAP, id);
    WalkAfterDrop(db, gone, id, WALK_CAP);
    StateAfterDrop(db, gone, a, id);
  }

  /** Either some first removed message stands above within reach, or none does. */
  lemma FirstGoneOrNone(db: Db, gone: set<MsgId>, id: MsgId, cap: nat) returns (first: Option<nat>)
    ensures first.Some? ==> first.value <= cap && FirstGone(db, gone, id, first.value)
    ensures first.None? ==> forall k: nat :: k <= cap ==> !FirstGone(db, gone, id, k)
    ensures first.None? ==> UpWalk(db, id, cap) !! gone
  {
    first := None;
    var k: nat := 0;
    while k <= cap && first.None?
      invariant k <= cap + 1
      invariant forall j: nat :: j < k && first.None? && Ancestor(db, id, j).Some? ==> Ancestor(db, id, j).value !in gone
      invariant first.Some? ==> first.value <= cap && FirstGone(db, gone, id, first.value)
      decreases cap + 1 - k, first.None?
    {
      if Ancestor(db, id, k).Some? && Ancestor(db, id, k).value in gone {
        first := Some(k);
      } else {
        k := k + 1;
      }
    }
    if first.None? {
      forall x | x in UpWalk(db, id, cap) ensures x !in gone {
        UpWalkIs(db, id, cap, x);
      }
    }
  }
}
