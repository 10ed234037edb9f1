/**
 What one identity's trash requests change of what everybody else sees
 (README.md, Trash; internal/handlers/trash.go): their lists, the threads they
 are shown and the replies to what they see. Nothing, but for what a purge
 removes from the host; and when that shows is told before it.
*/
module Bystanders {
  import opened Basics
  import opened Store
  import opened Walks
  import opened Trash
  import opened Removal
  import opened Operations
  import opened Structure

  // ---- Before a purge ----

  /** A purge by caller at top will remove x: it is in the caller's subtree,
      nobody else here holds it, and nothing of it is pending. */
  predicate WillLeave(c: Config, db: Db, caller: Addr, top: MsgId, now: Time, x: MsgId) {
    && x in Subtree(db, caller, top) && !DeliveryPending(c, db.msgs[x], now)
    && forall b :: b in Holders(db.msgs[x]) && Local(c, b) && b != caller ==> OwnPurged(db, b, x)
  }

  /** The first message above id that a purge by caller at top will remove
      stands k links up. */
  ghost predicate FirstLeaving(c: Config, db: Db, caller: Addr, top: MsgId, now: Time, id: MsgId, k: nat) {
    && Ancestor(db, id, k).Some? && WillLeave(c, db, caller, top, now, Ancestor(db, id, k).value)
    && forall j: nat :: j < k && Ancestor(db, id, j).Some? ==> !WillLeave(c, db, caller, top, now, Ancestor(db, id, j).value)
  }

  /** A purge by caller at top will cut id loose from a mark of a's that decides
      where it stands. */
  ghost predicate CutsLoose(c: Config, db: Db, caller: Addr, top: MsgId, now: Time, a: Addr, id: MsgId) {
    exists k: nat | 0 < k <= WALK_CAP :: FirstLeaving(c, db, caller, top, now, id, k) && MarkOutweighs(db, a, id, k, WALK_CAP)
  }

  /** x will carry a purged row of a's once caller has purged at top. */
  predicate PurgedAfter(db: Db, caller: Addr, top: MsgId, a: Addr, x: MsgId) {
    OwnPurged(db, a, x) || (a == caller && x in Subtree(db, caller, top))
  }

  /** Nearer than k links above id something will. */
  ghost predicate PurgedNear(db: Db, caller: Addr, top: MsgId, a: Addr, id: MsgId, k: nat) {
    exists j: nat | j < k :: Ancestor(db, id, j).Some? && PurgedAfter(db, caller, top, a, Ancestor(db, id, j).value)
  }

  /** A purge by caller at top will let go of id for a: of what is left of its
      walk nothing will carry a purged row of a's. */
  ghost predicate LetsGo(c: Config, db: Db, caller: Addr, top: MsgId, now: Time, a: Addr, id: MsgId) {
    exists k: nat | 0 < k <= WALK_CAP ::
      FirstLeaving(c, db, caller, top, now, id, k) && !PurgedNear(db, caller, top, a, id, k)
  }

  lemma PurgeRemoves(c: Config, db: Db, caller: Addr, top: MsgId, thread: bool, now: Time, x: MsgId)
    ensures x in Removable(c, AfterMark(db, caller, top, thread, now), Subtree(db, caller, top), now)
            <==> WillLeave(c, db, caller, top, now, x)
  {
    var marked := AfterMark(db, caller, top, thread, now);
    if x in Subtree(db, caller, top) {
      MarkPurgedCovers(db, caller, top, if thread then Some(top) else None, now, x);
      assert forall b :: b != caller ==> (OwnPurged(marked, b, x) <==> OwnPurged(db, b, x));
    }
  }

  // ---- Rows and links of others ----

  /** a's trash rows on the messages in s are the same. */
  predicate SameRows(db: Db, after: Db, a: Addr, s: set<MsgId>) {
    forall x :: x in s ==> ((a, x) in after.trash <==> (a, x) in db.trash)
                           && ((a, x) in db.trash ==> after.trash[(a, x)] == db.trash[(a, x)])
  }

  lemma SameRowsSameState(db: Db, after: Db, a: Addr, s: set<MsgId>, id: MsgId, walk: set<MsgId>)
    requires SameRows(db, after, a, s) && id in s && walk <= s
    ensures StateOver(after, a, id, walk) == StateOver(db, a, id, walk)
  {
    assert forall x :: x in walk ==> (OwnPurged(after, a, x) <==> OwnPurged(db, a, x));
    assert forall x :: x in walk ==> (ThreadMarked(after, a, x) <==> ThreadMarked(db, a, x));
  }

  /** Links out of s stay in s and are the same. */
  predicate SameLinksWithin(db: Db, after: Db, s: set<MsgId>) {
    forall x :: x in s ==> Parent(after, x) == Parent(db, x) && (Parent(db, x).Some? ==> Parent(db, x).value in s)
  }

  lemma {:induction false} SameWalkWithin(db: Db, after: Db, s: set<MsgId>, id: MsgId, cap: nat)
    requires SameLinksWithin(db, after, s) && id in s
    ensures UpWalk(after, id, cap) == UpWalk(db, id, cap) <= s
    decreases cap
  {
    if cap > 0 && Parent(db, id).Some? {
      SameWalkWithin(db, after, s, Parent(db, id).value, cap - 1);
    }
  }

  lemma SameWithinSameState(db: Db, after: Db, a: Addr, s: set<MsgId>, id: MsgId)
    requires SameLinksWithin(db, after, s) && SameRows(db, after, a, s) && id in s
    ensures StateOf(after, a, id) == StateOf(db, a, id)
  {
    SameWalkWithin(db, after, s, id, WALK_CAP);
    SameRowsSameState(db, after, a, s, id, UpWalk(db, id, WALK_CAP));
  }

  // ---- A purge ----

  /** Marking purged is the caller's own affair. */
  lemma MarkingKeepsOthers(db: Db, caller: Addr, top: MsgId, thread: bool, now: Time, a: Addr, id: MsgId)
    requires a != caller
    ensures var marked := AfterMark(db, caller, top, thread, now);
            && StateOf(marked, a, id) == StateOf(db, a, id)
            && forall k: nat :: k > 0 ==> (MarkOutweighs(marked, a, id, k, WALK_CAP) <==> MarkOutweighs(db, a, id, k, WALK_CAP))
  {
    var marked := AfterMark(db, caller, top, thread, now);
    assert marked.msgs == db.msgs;
    assert forall x :: (a, x) in marked.trash <==> (a, x) in db.trash;
    forall x ensures MarkWeight(marked, a, x) == MarkWeight(db, a, x) {
    }
    forall cap: nat
      ensures UpWalk(marked, id, cap) == UpWalk(db, id, cap)
      ensures StateOver(marked, a, id, UpWalk(db, id, cap)) == StateOver(db, a, id, UpWalk(db, id, cap))
    {
      SameLinksSameWalk(db, marked, id, cap);
      SameRowsSameState(db, marked, a, UpWalk(db, id, cap) + {id}, id, UpWalk(db, id, cap));
    }
    SameAncestors(db, marked);
  }

  lemma SameAncestors(db: Db, other: Db)
    requires db.msgs == other.msgs
    ensures forall id: MsgId, n: nat :: Ancestor(other, id, n) == Ancestor(db, id, n)
  {
    forall id: MsgId, n: nat ensures Ancestor(other, id, n) == Ancestor(db, id, n) {
      SameAncestor(db, other, id, n);
    }
  }

  lemma {:induction false} SameAncestor(db: Db, other: Db, id: MsgId, n: nat)
    requires db.msgs == other.msgs
    ensures Ancestor(other, id, n) == Ancestor(db, id, n)
    decreases n
  {
    if n > 0 && Parent(db, id).Some? {
      SameAncestor(db, other, Parent(db, id).value, n - 1);
    }
  }

  /** What a purge comes to for one message's walk: the purge is a drop of what
      will leave, which stands first k links above id, if anywhere in reach. */
  lemma PurgeCuts(c: Config, db: Db, caller: Addr, top: MsgId, thread: bool, now: Time, id: MsgId)
    returns (marked: Db, gone: set<MsgId>, first: Option<nat>)
    requires Purge(c, db, caller, top, thread, now).Done?
    ensures marked == AfterMark(db, caller, top, thread, now) && marked.msgs == db.msgs
    ensures Purge(c, db, caller, top, thread, now).db == Drop(marked, gone)
    ensures forall x :: x in gone <==> WillLeave(c, db, caller, top, now, x)
    ensures first.Some? ==> first.value <= WALK_CAP && FirstGone(marked, gone, id, first.value)
    ensures first.None? ==> UpWalk(marked, id, WALK_CAP) !! gone
    ensures forall k: nat :: k <= WALK_CAP ==> (FirstLeaving(c, db, caller, top, now, id, k) <==> first == Some(k))
  {
    marked := AfterMark(db, caller, top, thread, now);
    gone := Removable(c, marked, Subtree(db, caller, top), now);
    SameAncestors(db, marked);
    forall x ensures x in gone <==> WillLeave(c, db, caller, top, now, x) {
      PurgeRemoves(c, db, caller, top, thread, now, x);
    }
    forall k: nat ensures FirstGone(marked, gone, id, k) <==> FirstLeaving(c, db, caller, top, now, id, k) {
    }
    first := FirstGoneOrNone(marked, gone, id, WALK_CAP);
    if first.Some? {
      forall k: nat | FirstGone(marked, gone, id, k) ensures k == first.value {
      }
    }
  }

  /** A purge leaves where a surviving message stands for anybody else as it was
      if and only if it does not cut it loose; and never makes it weightier. */
  lemma PurgeKeepsStateIff(c: Config, db: Db, caller: Addr, top: MsgId, thread: bool, now: Time, a: Addr, id: MsgId)
    requires Purge(c, db, caller, top, thread, now).Done? && a != caller
    requires id in Purge(c, db, caller, top, thread, now).db.msgs
    ensures var after := Purge(c, db, caller, top, thread, now).db;
            && (StateOf(after, a, id) == StateOf(db, a, id) <==> !CutsLoose(c, db, caller, top, now, a, id))
            && Weight(StateOf(after, a, id)) <= Weight(StateOf(db, a, id))
  {
    var marked, gone, first := PurgeCuts(c, db, caller, top, thread, now, id);
    MarkingKeepsOthers(db, caller, top, thread, now, a, id);
    if first.None? {
      StateSurvivesElsewhere(marked, gone, a, id);
    } else {
      StateSurvivesRemoval(marked, gone, a, id, first.value);
    }
  }

  // ---- What reads purged ----

  lemma MarkedRows(db: Db, caller: Addr, top: MsgId, thread: bool, now: Time, a: Addr, x: MsgId)
    ensures OwnPurged(AfterMark(db, caller, top, thread, now), a, x) <==> PurgedAfter(db, caller, top, a, x)
  {
  }

  /** The walk below k carries a purged row or not. */
  lemma PurgedNearIff(db: Db, marked: Db, caller: Addr, top: MsgId, a: Addr, id: MsgId, k: nat)
    requires k > 0 && marked.msgs == db.msgs
    requires forall x :: OwnPurged(marked, a, x) <==> PurgedAfter(db, caller, top, a, x)
    ensures PurgedNear(db, caller, top, a, id, k)
            <==> exists x :: x in UpWalk(marked, id, k - 1) && OwnPurged(marked, a, x)
  {
    var below: nat := k - 1;
    SameAncestors(db, marked);
    if x :| x in UpWalk(marked, id, below) && OwnPurged(marked, a, x) {
      UpWalkIs(marked, id, below, x);
      var j: nat :| j <= below && Ancestor(marked, id, j) == Some(x);
      assert j < k && Ancestor(db, id, j) == Some(x);
    }
    if PurgedNear(db, caller, top, a, id, k) {
      var j: nat :| j < k && Ancestor(db, id, j).Some? && PurgedAfter(db, caller, top, a, Ancestor(db, id, j).value);
      var x := Ancestor(db, id, j).value;
      assert Ancestor(marked, id, j) == Some(x);
      assert Above(marked, id, x, below);
      UpWalkIs(marked, id, below, x);
      assert x in UpWalk(marked, id, k - 1) && OwnPurged(marked, a, x);
    }
  }

  /** Where nothing on the walk leaves, a purge ends nothing that read purged. */
  lemma PurgedStays(db: Db, marked: Db, gone: set<MsgId>, a: Addr, id: MsgId)
    requires marked.msgs == db.msgs && StateOf(db, a, id) == Purged && id in db.msgs
    requires forall x :: OwnPurged(db, a, x) ==> OwnPurged(marked, a, x)
    requires UpWalk(marked, id, WALK_CAP) !! gone
    ensures StateOf(Drop(marked, gone), a, id) == Purged
  {
    SameLinksSameWalk(db, marked, id, WALK_CAP);
    StateSurvivesElsewhere(marked, gone, a, id);
  }

  /** Where something does, what is left of the walk decides. */
  lemma PurgedBelow(marked: Db, gone: set<MsgId>, a: Addr, id: MsgId, k: nat)
    requires id !in gone && FirstGone(marked, gone, id, k) && k <= WALK_CAP
    ensures k > 0
    ensures StateOf(Drop(marked, gone), a, id) == Purged
            <==> exists x :: x in UpWalk(marked, id, k - 1) && OwnPurged(marked, a, x)
  {
    assert Ancestor(marked, id, 0) == Some(id);
    WalkCutAt(marked, gone, id, k, WALK_CAP);
    StateAfterDrop(marked, gone, a, id);
  }

  /** One of the two, whichever it is. */
  lemma DropEndsPurgedIff(db: Db, marked: Db, gone: set<MsgId>, first: Option<nat>, caller: Addr, top: MsgId,
                          a: Addr, id: MsgId)
    requires marked.msgs == db.msgs && StateOf(db, a, id) == Purged && id in db.msgs && id !in gone
    requires forall x :: OwnPurged(marked, a, x) <==> PurgedAfter(db, caller, top, a, x)
    requires first.Some? ==> first.value <= WALK_CAP && FirstGone(marked, gone, id, first.value)
    requires first.None? ==> UpWalk(marked, id, WALK_CAP) !! gone
    ensures StateOf(Drop(marked, gone), a, id) != Purged
            <==> first.Some? && !PurgedNear(db, caller, top, a, id, first.value)
    ensures first.Some? ==> first.value > 0
  {
    if first.None? {
      PurgedStays(db, marked, gone, a, id);
    } else {
      PurgedBelow(marked, gone, a, id, first.value);
      PurgedNearIff(db, marked, caller, top, a, id, first.value);
    }
  }

  /** What read purged for anybody, the caller too, reads otherwise after a purge
      if and only if the purge lets go of it. */
  lemma PurgeEndsPurgedIff(c: Config, db: Db, caller: Addr, top: MsgId, thread: bool, now: Time, a: Addr, id: MsgId)
    requires Purge(c, db, caller, top, thread, now).Done? && StateOf(db, a, id) == Purged
    requires id in Purge(c, db, caller, top, thread, now).db.msgs
    ensures StateOf(Purge(c, db, caller, top, thread, now).db, a, id) != Purged <==> LetsGo(c, db, caller, top, now, a, id)
  {
    var marked, gone, first := PurgeCuts(c, db, caller, top, thread, now, id);
    forall x ensures OwnPurged(marked, a, x) <==> PurgedAfter(db, caller, top, a, x) {
      MarkedRows(db, caller, top, thread, now, a, x);
    }
    DropEndsPurgedIff(db, marked, gone, first, caller, top, a, id);
  }

  // ---- Trash requests ----

  /** The request is a purge of a sent message. */
  predicate Purges(db: Db, r: Request) {
    r.DeleteReq? && r.permanent && r.id in db.msgs && db.msgs[r.id].sent.Some?
  }

  predicate TrashRequest(r: Request) {
    r.DeleteReq? || r.RestoreReq?
  }

  /** Other trash requests remove at most a draft of the caller's. */
  lemma OthersStay(c: Config, db: Db, caller: Addr, r: Request) returns (gone: set<MsgId>)
    requires Good(db) && TrashRequest(r) && Handle(c, db, caller, r).Done? && !Purges(db, r)
    ensures gone == if r.DeleteReq? && db.msgs[r.id].sent.None? then {r.id} else {}
    ensures var after := Handle(c, db, caller, r).db;
            && after.msgs == Drop(db, gone).msgs
            && forall x :: x in after.msgs ==> after.msgs[x] == db.msgs[x]
  {
    gone := if r.DeleteReq? && db.msgs[r.id].sent.None? then {r.id} else {};
    var after := Handle(c, db, caller, r).db;
    forall x | x in db.msgs && x !in gone ensures Cut(db.msgs[x], gone) == db.msgs[x] {
      if db.msgs[x].pid.Some? {
        assert Linkable(db, db.msgs[x].pid.value);
      }
    }
    assert Drop(db, {}).msgs == db.msgs;
  }

  lemma OthersKeepRows(c: Config, db: Db, caller: Addr, r: Request, a: Addr)
    requires Good(db) && TrashRequest(r) && Handle(c, db, caller, r).Done? && !Purges(db, r) && a != caller
    ensures SameRows(db, Handle(c, db, caller, r).db, a, Handle(c, db, caller, r).db.msgs.Keys)
  {
    if r.RestoreReq? {
      RestoreKeepsRows(db, caller, r.id, r.thread, a);
    } else if db.msgs[r.id].sent.Some? {
      assert Handle(c, db, caller, r) == TrashSent(db, caller, r.id, r.thread, r.now);
    } else {
      assert Handle(c, db, caller, r) == DeleteDraft(db, caller, r.id);
    }
  }

  lemma RestoreKeepsRows(db: Db, caller: Addr, id: MsgId, thread: bool, a: Addr)
    requires a != caller
    ensures SameRows(db, Unmark(db, caller, if thread then Subtree(db, caller, id) else {id}), a, db.msgs.Keys)
  {
  }

  lemma OthersStand(c: Config, db: Db, caller: Addr, r: Request, a: Addr, id: MsgId)
    requires Good(db) && TrashRequest(r) && Handle(c, db, caller, r).Done? && !Purges(db, r) && a != caller
    requires id in Handle(c, db, caller, r).db.msgs
    ensures StateOf(Handle(c, db, caller, r).db, a, id) == StateOf(db, a, id)
  {
    var after := Handle(c, db, caller, r).db;
    var gone := OthersStay(c, db, caller, r);
    forall x | x in after.msgs && Parent(db, x).Some? ensures Parent(db, x).value in after.msgs {
      assert Linkable(db, db.msgs[x].pid.value);
    }
    OthersKeepRows(c, db, caller, r, a);
    SameWithinSameState(db, after, a, after.msgs.Keys, id);
  }

  // ---- Lists ----

  /** How a's lists have id: not at all, or as it stands. */
  function ListedAs(db: Db, a: Addr, id: MsgId): (state: Option<TrashState>) {
    if id in db.msgs && db.msgs[id].sent.Some? && Participates(db.msgs[id], a) && StateOf(db, a, id) != Purged
    then Some(StateOf(db, a, id)) else None
  }

  lemma ListedAsIs(db: Db, a: Addr, mode: ListMode, id: MsgId)
    ensures id in Listed(db, a, mode) <==> ListedAs(db, a, id).Some? && Lists(mode, ListedAs(db, a, id).value)
  {
  }

  /** The request will change how a's lists have id: it is a purge that removes
      id while a lists it, or cuts it loose. */
  ghost predicate AltersLists(c: Config, db: Db, caller: Addr, r: Request, a: Addr, id: MsgId) {
    && Purges(db, r) && id in db.msgs && db.msgs[id].sent.Some? && Participates(db.msgs[id], a)
    && if WillLeave(c, db, caller, r.id, r.now, id) then StateOf(db, a, id) != Purged
       else CutsLoose(c, db, caller, r.id, r.now, a, id)
  }

  lemma PurgeKeepsRow(c: Config, db: Db, caller: Addr, top: MsgId, thread: bool, now: Time, id: MsgId)
    requires Purge(c, db, caller, top, thread, now).Done?
    ensures var after := Purge(c, db, caller, top, thread, now).db;
            && (id in after.msgs <==> id in db.msgs && !WillLeave(c, db, caller, top, now, id))
            && (id in after.msgs ==> after.msgs[id].(pid := None) == db.msgs[id].(pid := None))
            && (id in after.msgs ==>
                  Parent(after, id) == if Parent(db, id).Some? && WillLeave(c, db, caller, top, now, Parent(db, id).value)
                                       then None else Parent(db, id))
  {
    var _, _, _ := PurgeCuts(c, db, caller, top, thread, now, id);
  }

  /** Whatever somebody else asks of their trash, a message is in a's lists as it
      was, at the same state, unless the request will alter just that. */
  lemma TrashKeepsListsIff(c: Config, db: Db, caller: Addr, r: Request, a: Addr, id: MsgId)
    requires Good(db) && TrashRequest(r) && Handle(c, db, caller, r).Done? && a != caller
    ensures ListedAs(Handle(c, db, caller, r).db, a, id) == ListedAs(db, a, id) <==> !AltersLists(c, db, caller, r, a, id)
  {
    if Purges(db, r) {
      PurgeKeepsRow(c, db, caller, r.id, r.thread, r.now, id);
      if id in Handle(c, db, caller, r).db.msgs {
        PurgeKeepsStateIff(c, db, caller, r.id, r.thread, r.now, a, id);
      }
    } else {
      var gone := OthersStay(c, db, caller, r);
      if id in Handle(c, db, caller, r).db.msgs {
        OthersStand(c, db, caller, r, a, id);
      }
    }
  }

  // ---- Links ----

  /** A purge leaves a survivor's parent as it was if and only if that stays. */
  lemma PurgeKeepsParentIff(c: Config, db: Db, caller: Addr, top: MsgId, thread: bool, now: Time, id: MsgId)
    requires Purge(c, db, caller, top, thread, now).Done? && id in Purge(c, db, caller, top, thread, now).db.msgs
    ensures Parent(Purge(c, db, caller, top, thread, now).db, id) == Parent(db, id)
            <==> !(Parent(db, id).Some? && WillLeave(c, db, caller, top, now, Parent(db, id).value))
  {
    PurgeKeepsRow(c, db, caller, top, thread, now, id);
  }

  /** The sent messages that reply to id: among them the reactions shown on it. */
  function Replies(db: Db, id: MsgId): (ids: set<MsgId>) {
    set x | x in db.msgs && db.msgs[x].sent.Some? && db.msgs[x].pid == Some(id)
  }

  /** A message that stays loses exactly the replies that leave, so what is
      shown of its reactions can change only by those. */
  lemma PurgeKeepsReplies(c: Config, db: Db, caller: Addr, top: MsgId, thread: bool, now: Time, id: MsgId)
    requires Purge(c, db, caller, top, thread, now).Done? && id in Purge(c, db, caller, top, thread, now).db.msgs
    ensures Replies(Purge(c, db, caller, top, thread, now).db, id)
            == set x | x in Replies(db, id) && !WillLeave(c, db, caller, top, now, x)
  {
    var after := Purge(c, db, caller, top, thread, now).db;
    PurgeKeepsRow(c, db, caller, top, thread, now, id);
    forall x ensures x in Replies(after, id) <==> x in Replies(db, id) && !WillLeave(c, db, caller, top, now, x) {
      PurgeKeepsRow(c, db, caller, top, thread, now, x);
      if x in after.msgs {
        assert after.msgs[x].(pid := None).sent == db.msgs[x].(pid := None).sent;
      }
    }
  }
}
