/**
 Where a message stands for an address (dd.sql, fmsg_api_trash_state) and what
 the trash operations write (internal/handlers/trash.go).
*/
module Trash {
  import opened Basics
  import opened Store
  import opened Walks

  /** fmsg_api_trash_state's answer: NULL, 'message', 'thread' or 'purged'. */
  datatype TrashState = NotTrashed | InMessage | InThread | Purged

  predicate ThreadMarked(db: Db, a: Addr, id: MsgId) {
    (a, id) in db.trash && db.trash[(a, id)].thread
  }

  /** The answer given the messages the upward walk visits. */
  function StateOver(db: Db, a: Addr, id: MsgId, walk: set<MsgId>): (state: TrashState) {
    if exists x :: x in walk && OwnPurged(db, a, x) then Purged
    else if exists x :: x in walk && ThreadMarked(db, a, x) then InThread
    else if (a, id) in db.trash then InMessage
    else NotTrashed
  }

  function StateOf(db: Db, a: Addr, id: MsgId): (state: TrashState) {
    StateOver(db, a, id, UpWalk(db, id, WALK_CAP))
  }

  /** A trash row is on a sent message its address takes part in. */
  predicate TrashRowsValid(db: Db) {
    forall k :: k in db.trash ==>
      k.1 in db.msgs && db.msgs[k.1].sent.Some? && Participates(db.msgs[k.1], k.0)
  }

  /** trashSubtree: top and the sent messages below it that a takes part in. */
  function Subtree(db: Db, a: Addr, top: MsgId): (ids: set<MsgId>)
    ensures ids <= db.msgs.Keys
  {
    set id | id in DownWalk(db, top, WALK_CAP) && id in db.msgs
             && db.msgs[id].sent.Some? && Participates(db.msgs[id], a)
  }

  // ---- Writes ----

  /** DELETE without permanent: the upsert of one trash row. */
  function MarkTrashed(db: Db, a: Addr, id: MsgId, thread: bool, now: Time): (after: Db) {
    db.(trash := db.trash[(a, id) :=
          if (a, id) in db.trash then db.trash[(a, id)].(thread := db.trash[(a, id)].thread || thread)
          else Mark(thread, now, None)])
  }

  /** The row markPurged writes over what was there. */
  function PurgedMark(db: Db, a: Addr, id: MsgId, thread: bool, now: Time): (mark: Mark) {
    if (a, id) in db.trash
    then db.trash[(a, id)].(purged := Some(now), thread := db.trash[(a, id)].thread || thread)
    else Mark(thread, now, Some(now))
  }

  /** The ids markPurged does not skip. */
  function NewlyPurged(db: Db, a: Addr, ids: set<MsgId>): (r: set<MsgId>) {
    set id | id in ids && !OwnPurged(db, a, id)
  }

  /** markPurged: every listed message not yet deleted for good by a gets a
      purged row; threadTop's row also marks the thread. */
  function MarkPurged(db: Db, a: Addr, ids: set<MsgId>, threadTop: Option<MsgId>, now: Time): (after: Db) {
    var newly := set id | id in NewlyPurged(db, a, ids) :: (a, id);
    db.(trash := map k | k in db.trash.Keys + newly ::
                   if k in newly then PurgedMark(db, a, k.1, threadTop == Some(k.1), now) else db.trash[k])
  }

  /** Restore's DELETE: the caller's rows on ids that are not purged. */
  function Unmark(db: Db, a: Addr, ids: set<MsgId>): (after: Db) {
    db.(trash := map k | k in db.trash
                         && !(k.0 == a && k.1 in ids && db.trash[k].purged.None?) :: db.trash[k])
  }

  // ---- Walks see only the pid links ----

  predicate SameLinks(db: Db, other: Db) {
    db.msgs.Keys == other.msgs.Keys && forall id :: id in db.msgs ==> db.msgs[id].pid == other.msgs[id].pid
  }

  lemma {:induction false} SameLinksSameWalk(db: Db, other: Db, id: MsgId, cap: nat)
    requires SameLinks(db, other)
    ensures UpWalk(db, id, cap) == UpWalk(other, id, cap)
    decreases cap
  {
    if Parent(db, id).Some? && cap > 0 {
      SameLinksSameWalk(db, other, Parent(db, id).value, cap - 1);
    }
  }

  /** Everything below a message a deleted for good reads purged for a, and
      everything below a's thread mark reads at least as in that thread;
      whenever it arrived, and whether or not a row of its own says so. */
  lemma BelowMark(db: Db, a: Addr, top: MsgId, id: MsgId)
    requires id in DownWalk(db, top, WALK_CAP)
    ensures OwnPurged(db, a, top) ==> StateOf(db, a, id) == Purged
    ensures ThreadMarked(db, a, top) ==> StateOf(db, a, id) in {InThread, Purged}
  {
    WalksAreConverse(db, top, id, WALK_CAP);
  }

  /** Conversely, a message reads purged or in a thread only below such a row. */
  lemma MarkAbove(db: Db, a: Addr, id: MsgId) returns (top: MsgId)
    requires StateOf(db, a, id) in {Purged, InThread}
    ensures id in DownWalk(db, top, WALK_CAP)
    ensures if StateOf(db, a, id) == Purged then OwnPurged(db, a, top) else ThreadMarked(db, a, top)
  {
    top :| top in UpWalk(db, id, WALK_CAP)
           && if StateOf(db, a, id) == Purged then OwnPurged(db, a, top) else ThreadMarked(db, a, top);
    WalksAreConverse(db, top, id, WALK_CAP);
  }

  /** markPurged leaves the caller's whole subtree purged. */
  lemma MarkPurgedCovers(db: Db, a: Addr, top: MsgId, threadTop: Option<MsgId>, now: Time, id: MsgId)
    requires id in Subtree(db, a, top)
    ensures OwnPurged(MarkPurged(db, a, Subtree(db, a, top), threadTop, now), a, id)
    ensures StateOf(MarkPurged(db, a, Subtree(db, a, top), threadTop, now), a, id) == Purged
  {
    var after := MarkPurged(db, a, Subtree(db, a, top), threadTop, now);
    UpWalkIs(after, id, WALK_CAP, id);
    assert Ancestor(after, id, 0) == Some(id);
    assert id in UpWalk(after, id, WALK_CAP);
  }

  // ---- Restore ----

  /** A thread mark of a's on a message strictly above top that the walk from id reaches. */
  ghost predicate ThreadAbove(db: Db, a: Addr, top: MsgId, id: MsgId) {
    exists j: nat :: j > 0 && Ancestor(db, top, j).Some?
                     && ThreadMarked(db, a, Ancestor(db, top, j).value)
                     && Ancestor(db, top, j).value in UpWalk(db, id, WALK_CAP)
  }

  /** On the walk up from a message below top, everything is below top or above it. */
  lemma BetweenOrAbove(db: Db, top: MsgId, id: MsgId, x: MsgId, cap: nat)
    requires id in DownWalk(db, top, cap) && x in UpWalk(db, id, cap)
    ensures x in DownWalk(db, top, cap) || exists j: nat :: j > 0 && Ancestor(db, top, j) == Some(x)
  {
    DownWalkIs(db, top, cap, id);
    UpWalkIs(db, id, cap, x);
    var i: nat :| i <= cap && Ancestor(db, id, i) == Some(top);
    var k: nat :| k <= cap && Ancestor(db, id, k) == Some(x);
    if k <= i {
      var d: nat := i - k;
      AncestorPlus(db, id, k, d);
      assert Above(db, x, top, cap);
      DownWalkIs(db, top, cap, x);
    } else {
      var j: nat := k - i;
      AncestorPlus(db, id, i, j);
      assert Ancestor(db, top, j) == Some(x);
    }
  }

  /** In a forest nothing strictly above a message is also below it. */
  lemma AboveIsNotBelow(db: Db, top: MsgId, x: MsgId, j: nat, cap: nat)
    requires Forest(db) && j > 0 && Ancestor(db, top, j) == Some(x)
    ensures x !in DownWalk(db, top, cap)
  {
    DownWalkIs(db, top, cap, x);
    forall i: nat ensures Ancestor(db, x, i) != Some(top) {
      AncestorPlus(db, top, j, i);
      NoCycle(db, top, j + i);
    }
  }

  /** The thread marks a restore leaves on a walk from below top are above top. */
  lemma ThreadMarksLeft(db: Db, a: Addr, top: MsgId, id: MsgId)
    requires Forest(db) && TrashRowsValid(db) && id in DownWalk(db, top, WALK_CAP) && StateOf(db, a, id) != Purged
    ensures var after := Unmark(db, a, Subtree(db, a, top));
            (exists x :: x in UpWalk(db, id, WALK_CAP) && ThreadMarked(after, a, x)) <==> ThreadAbove(db, a, top, id)
  {
    var after := Unmark(db, a, Subtree(db, a, top));
    var walk := UpWalk(db, id, WALK_CAP);
    if x :| x in walk && ThreadMarked(after, a, x) {
      assert !OwnPurged(db, a, x) && x !in Subtree(db, a, top);
      BetweenOrAbove(db, top, id, x, WALK_CAP);
    }
    if ThreadAbove(db, a, top, id) {
      var j: nat :| j > 0 && Ancestor(db, top, j).Some? && ThreadMarked(db, a, Ancestor(db, top, j).value)
                    && Ancestor(db, top, j).value in walk;
      AboveIsNotBelow(db, top, Ancestor(db, top, j).value, j, WALK_CAP);
      assert ThreadMarked(after, a, Ancestor(db, top, j).value);
    }
  }

  /** After Restore with thread=true on top, a message below top is in the
      caller's trash exactly because it was purged, or because a thread mark
      sits strictly above top within reach of its walk. */
  lemma RestoreThreadIsExact(db: Db, a: Addr, top: MsgId, id: MsgId)
    requires Forest(db) && TrashRowsValid(db) && id in DownWalk(db, top, WALK_CAP)
    ensures StateOf(Unmark(db, a, Subtree(db, a, top)), a, id)
            == if StateOf(db, a, id) == Purged then Purged
               else if ThreadAbove(db, a, top, id) then InThread
               else NotTrashed
  {
    var after := Unmark(db, a, Subtree(db, a, top));
    SameLinksSameWalk(db, after, id, WALK_CAP);
    assert forall x :: OwnPurged(after, a, x) <==> OwnPurged(db, a, x);
    if StateOf(db, a, id) != Purged {
      ThreadMarksLeft(db, a, top, id);
      OwnRowGoes(db, a, top, id);
    }
  }

  /** A restore deletes the row of a message below top, unless purged. */
  lemma OwnRowGoes(db: Db, a: Addr, top: MsgId, id: MsgId)
    requires TrashRowsValid(db) && id in DownWalk(db, top, WALK_CAP) && StateOf(db, a, id) != Purged
    ensures (a, id) !in Unmark(db, a, Subtree(db, a, top)).trash
  {
    assert Ancestor(db, id, 0) == Some(id);
    UpWalkIs(db, id, WALK_CAP, id);
    assert !OwnPurged(db, a, id);
  }

  // ---- The list modes ----

  datatype ListMode = Exclude | Include | TrashOnly

  /** trashListFilter. */
  predicate Lists(mode: ListMode, state: TrashState) {
    match mode
    case Exclude => state == NotTrashed
    case Include => state != Purged
    case TrashOnly => state in {InMessage, InThread}
  }

  function Listed(db: Db, a: Addr, mode: ListMode): (ids: set<MsgId>) {
    set id | id in db.msgs && db.msgs[id].sent.Some? && Participates(db.msgs[id], a)
             && Lists(mode, StateOf(db, a, id))
  }

  /** The include list is the exclude and only lists put together, which share
      nothing; and no mode lists anything deleted for good. */
  lemma ListModesPartition(db: Db, a: Addr)
    ensures Listed(db, a, Include) == Listed(db, a, Exclude) + Listed(db, a, TrashOnly)
    ensures Listed(db, a, Exclude) !! Listed(db, a, TrashOnly)
    ensures forall mode, id :: id in Listed(db, a, mode) ==> !OwnPurged(db, a, id)
  {
    forall mode, id | id in Listed(db, a, mode) ensures !OwnPurged(db, a, id) {
      assert Ancestor(db, id, 0) == Some(id);
      UpWalkIs(db, id, WALK_CAP, id);
    }
  }
}
