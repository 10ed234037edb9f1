/**
 Concrete states in which the code does not do what its documentation says, and
 the runs from an empty host that reach them.
*/
module Witnesses {
  import opened Basics
  import opened Store
  import opened Walks
  import opened Trash
  import opened Removal
  import opened Operations
  import opened Host
  import opened Structure
  import opened Ledger
  import opened Accounting
  import opened Threads
  import opened Bystanders
  import opened Finality
  import opened Writing

  // ---- Somebody else's purge ----

  /** Alice wrote 1 to Bob, replied to it for herself (2), and replied to that
      for Bob again (3). Bob deleted the thread at 1. */
  const THREAD := Db(
    map[1 := Note(None, ALICE, BOB, "1"), 2 := Note(Some(1), ALICE, ALICE, "2"), 3 := Note(Some(2), ALICE, BOB, "3")],
    map[(BOB, 1) := Mark(true, 2, None)],
    4)

  lemma ThreadIsGood()
    ensures Good(THREAD)
  {
    ThreadIsForest();
    assert TrashRowsValid(THREAD) by {
      assert THREAD.msgs[1] == Note(None, ALICE, BOB, "1");
    }
  }

  lemma ThreadIsForest()
    ensures Forest(THREAD)
  {
    var rank: map<MsgId, nat> := map[1 := 0, 2 := 1, 3 := 2];
    assert THREAD.msgs.Keys == {1, 2, 3};
    assert THREAD.msgs[1].pid == None && THREAD.msgs[2].pid == Some(1) && THREAD.msgs[3].pid == Some(2);
    assert Ranks(THREAD, rank);
    assert Linkable(THREAD, 1) && Linkable(THREAD, 2);
  }

  lemma ThreadIsReached()
    ensures Reached(THREAD, {"1", "2", "3"})
  {
    var three := ThreeNotes();
    NothingTrashed(three.db, BOB, 1);
    var e := Api(BOB, DeleteReq(1, true, false, 2), Acknowledged);
    BobDeletes(three, e);
    var _ := OneMore(three, e);
  }

  lemma BobDeletes(w: World, e: Event)
    requires w.db == THREAD.(trash := map[]) && w.files == {"1", "2", "3"}
    requires e == Api(BOB, DeleteReq(1, true, false, 2), Acknowledged)
    ensures Step(HERE, w, e).db == THREAD && Step(HERE, w, e).files == w.files
  {
    assert w.db.msgs[1] == Note(None, ALICE, BOB, "1");
    assert BOB in w.db.msgs[1].to;
    NothingTrashed(w.db, BOB, 1);
    assert MarkTrashed(w.db, BOB, 1, true, 2).trash == THREAD.trash;
    assert w.files + {} - {} == w.files;
  }

  lemma BobDeletedTheThread()
    ensures StateOf(THREAD, BOB, 3) == InThread && StateOf(THREAD, ALICE, 2) == NotTrashed
  {
    assert Ancestor(THREAD, 3, 2) == Some(1) by {
      assert Ancestor(THREAD, 2, 1) == Some(1);
    }
    UpWalkIs(THREAD, 3, WALK_CAP, 1);
    assert Above(THREAD, 3, 1, WALK_CAP);
    assert ThreadMarked(THREAD, BOB, 1);
  }

  lemma NobodyElseHolds2(db: Db)
    requires db.msgs == THREAD.msgs && OwnPurged(db, ALICE, 2)
    ensures Unheld(HERE, db, 2, 9)
  {
    var m := Note(Some(1), ALICE, ALICE, "2");
    assert db.msgs[2] == m;
    assert forall a :: a in Holders(m) ==> a == ALICE;
    assert !DeliveryPending(HERE, m, 9);
  }

  lemma BobHolds3(db: Db)
    requires db.msgs == THREAD.msgs && !OwnPurged(db, BOB, 3)
    ensures !Unheld(HERE, db, 3, 9)
  {
    var m := Note(Some(2), ALICE, BOB, "3");
    assert db.msgs[3] == m;
    assert BOB in Holders(m) && Local(HERE, BOB);
  }

  lemma AlicesSubtree()
    ensures 2 in Subtree(THREAD, ALICE, 2)
  {
    var m := Note(Some(1), ALICE, ALICE, "2");
    assert 2 in THREAD.msgs && THREAD.msgs[2] == m;
    assert m.sent.Some? && m.from == ALICE;
    TopInItsSubtree(THREAD, ALICE, 2);
  }

  lemma AlicesMarks(ids: set<MsgId>)
    requires 2 in ids
    ensures var marked := MarkPurged(THREAD, ALICE, ids, None, 9);
            && marked.msgs == THREAD.msgs
            && OwnPurged(marked, ALICE, 2) && (BOB, 3) !in marked.trash
  {
  }

  lemma AlicePurges2() returns (marked: Db, gone: set<MsgId>)
    ensures Purge(HERE, THREAD, ALICE, 2, false, 9).Done?
    ensures Purge(HERE, THREAD, ALICE, 2, false, 9).db == Drop(marked, gone)
    ensures marked.msgs == THREAD.msgs && 2 in gone && 3 !in gone && (BOB, 3) !in marked.trash
  {
    BobDeletedTheThread();
    marked := AfterMark(THREAD, ALICE, 2, false, 9);
    AlicesSubtree();
    AlicesMarks(Subtree(THREAD, ALICE, 2));
    NobodyElseHolds2(marked);
    BobHolds3(marked);
    gone := Removable(HERE, marked, Subtree(THREAD, ALICE, 2), 9);
    assert MayTrash(THREAD, ALICE, 2);
  }

  /** A purge by one participant can take a message out of another's deleted
      thread: when Alice deletes 2 for good it leaves the host, and 3 comes
      back into Bob's lists. So the trash of an identity does change what
      another sees (README.md:836 says it does not). */
  lemma PurgeCanUndoOthersThreadDelete()
    ensures Good(THREAD) && StateOf(THREAD, BOB, 3) == InThread
    ensures Purge(HERE, THREAD, ALICE, 2, false, 9).Done?
    ensures var after := Purge(HERE, THREAD, ALICE, 2, false, 9).db;
            StateOf(after, BOB, 3) == NotTrashed && 3 in Listed(after, BOB, Exclude)
  {
    ThreadIsGood();
    BobDeletedTheThread();
    var marked, gone := AlicePurges2();
    OrphanIsKept(marked, gone);
  }

  lemma OrphanIsKept(marked: Db, gone: set<MsgId>)
    requires marked.msgs == THREAD.msgs && 2 in gone && 3 !in gone && (BOB, 3) !in marked.trash
    ensures StateOf(Drop(marked, gone), BOB, 3) == NotTrashed && 3 in Listed(Drop(marked, gone), BOB, Exclude)
  {
    var after := Drop(marked, gone);
    assert after.msgs[3].pid == None;
    assert UpWalk(after, 3, WALK_CAP) == {3};
  }

  /** The same thread before Bob deleted anything. */
  const BARE := THREAD.(trash := map[])

  lemma ThreeNotes() returns (w: World)
    ensures Reachable(HERE, w) && w.db == BARE && w.files == {"1", "2", "3"}
  {
    EmptyIsReached();
    var one := Writes(EMPTY_HOST, None, ALICE, BOB, "1");
    NothingTrashed(one.db, ALICE, 1);
    var two := Writes(one, Some(1), ALICE, ALICE, "2");
    NothingTrashed(two.db, ALICE, 2);
    w := Writes(two, Some(2), ALICE, BOB, "3");
    assert w.db.msgs == THREAD.msgs;
  }

  lemma BareIsReached()
    ensures Reached(BARE, {"1", "2", "3"})
  {
    var w := ThreeNotes();
  }

  lemma OnlyAliceHolds2()
    ensures 2 in BARE.msgs && BARE.msgs[2].sent.Some? && Participates(BARE.msgs[2], ALICE)
    ensures WillLeave(HERE, BARE, ALICE, 2, 9, 2)
  {
    var m := Note(Some(1), ALICE, ALICE, "2");
    assert BARE.msgs[2] == m;
    TopInItsSubtree(BARE, ALICE, 2);
    assert forall a :: a in Holders(m) ==> a == ALICE;
    assert !DeliveryPending(HERE, m, 9);
  }

  lemma BobStillHolds3()
    ensures !WillLeave(HERE, BARE, ALICE, 2, 9, 3)
  {
    var m := Note(Some(2), ALICE, BOB, "3");
    assert BARE.msgs[3] == m;
    assert BOB in Holders(m) && Local(HERE, BOB);
  }

  lemma BareLeaves()
    ensures Purge(HERE, BARE, ALICE, 2, false, 9).Done?
    ensures WillLeave(HERE, BARE, ALICE, 2, 9, 2) && !WillLeave(HERE, BARE, ALICE, 2, 9, 3)
  {
    NothingTrashed(BARE, ALICE, 2);
    OnlyAliceHolds2();
    BobStillHolds3();
  }

  lemma BareShows()
    ensures ThreadMessages(BARE, BOB, {BOB}, 3)
            == Thread([Shown(1, NotTrashed), Hidden(2), Shown(3, NotTrashed)], false)
  {
    var path := [1, 2, 3];
    assert BARE.msgs[1] == Note(None, ALICE, BOB, "1") && BOB in BARE.msgs[1].to;
    assert BARE.msgs[2] == Note(Some(1), ALICE, ALICE, "2");
    assert BARE.msgs[3] == Note(Some(2), ALICE, BOB, "3") && BOB in BARE.msgs[3].to;
    assert Lineage(BARE, path, 3);
    forall x ensures StateOf(BARE, BOB, x) == NotTrashed {
      NothingTrashed(BARE, BOB, x);
    }
    ThreadIsExactOrRefused(BARE, BOB, {BOB}, path, 3);
    assert Render(BARE, BOB, {BOB}, path).messages == [Shown(1, NotTrashed), Hidden(2), Shown(3, NotTrashed)];
    assert Render(BARE, BOB, {BOB}, path).messages[1] == Hidden(2);
  }

  lemma StubShows(db: Db)
    requires 3 in db.msgs && db.msgs[3] == Note(None, ALICE, BOB, "3") && StateOf(db, BOB, 3) == NotTrashed
    ensures ThreadMessages(db, BOB, {BOB}, 3) == Thread([Shown(3, NotTrashed)], true)
  {
    assert BOB in db.msgs[3].to;
    assert Lineage(db, [3], 3);
    ThreadIsExactOrRefused(db, BOB, {BOB}, [3], 3);
    assert Render(db, BOB, {BOB}, [3]).messages == [Shown(3, NotTrashed)];
  }

  lemma StubIsLeft()
    requires Purge(HERE, BARE, ALICE, 2, false, 9).Done?
    ensures var after := Purge(HERE, BARE, ALICE, 2, false, 9).db;
            3 in after.msgs && after.msgs[3] == Note(None, ALICE, BOB, "3") && StateOf(after, BOB, 3) == NotTrashed
  {
    var after := Purge(HERE, BARE, ALICE, 2, false, 9).db;
    BareLeaves();
    var m := Note(Some(2), ALICE, BOB, "3");
    assert BARE.msgs[3] == m;
    PurgeKeepsRow(HERE, BARE, ALICE, 2, false, 9, 3);
    assert after.msgs[3].pid == None;
    assert after.msgs[3] == after.msgs[3].(pid := None) == m.(pid := None) == Note(None, ALICE, BOB, "3");
    NothingTrashed(BARE, BOB, 3);
    PurgeKeepsStateIff(HERE, BARE, ALICE, 2, false, 9, BOB, 3);
  }

  /** Without any mark of Bob's a purge shortens the thread he is shown for what
      stays: when Alice deletes 2 for good, 3 has lost what it replied to. */
  lemma PurgeCutsOthersThread()
    ensures Reached(BARE, {"1", "2", "3"}) && Purge(HERE, BARE, ALICE, 2, false, 9).Done?
    ensures ThreadMessages(BARE, BOB, {BOB}, 3)
            == Thread([Shown(1, NotTrashed), Hidden(2), Shown(3, NotTrashed)], false)
    ensures ThreadMessages(Purge(HERE, BARE, ALICE, 2, false, 9).db, BOB, {BOB}, 3) == Thread([Shown(3, NotTrashed)], true)
  {
    BareIsReached();
    BareLeaves();
    BareShows();
    StubIsLeft();
    StubShows(Purge(HERE, BARE, ALICE, 2, false, 9).db);
  }

  // ---- A refused delivery ----

  const NOT_ACCEPTING := 102

  /** Alice wrote to Bob, who is not accepting new messages. */
  const TURNED_AWAY := Db(map[1 := Letter(None, ALICE, BOB, "1", map[BOB := NOT_ACCEPTING])], map[], 2)

  lemma TurnedAwayIsReached()
    ensures Reached(TURNED_AWAY, {"1"})
  {
    EmptyIsReached();
    var w := Mails(EMPTY_HOST, None, ALICE, BOB, "1", map[BOB := NOT_ACCEPTING]);
    assert w.db.msgs == TURNED_AWAY.msgs;
  }

  lemma TurnedAwayLeaves()
    ensures Purge(HERE, TURNED_AWAY, ALICE, 1, false, 9).Done? && WillLeave(HERE, TURNED_AWAY, ALICE, 1, 9, 1)
    ensures 1 in Listed(TURNED_AWAY, BOB, Exclude)
  {
    var m := Letter(None, ALICE, BOB, "1", map[BOB := NOT_ACCEPTING]);
    assert TURNED_AWAY.msgs[1] == m && BOB in m.to;
    assert m.to[BOB] == Delivery(None, Some(NOT_ACCEPTING));
    NothingTrashed(TURNED_AWAY, ALICE, 1);
    NothingTrashed(TURNED_AWAY, BOB, 1);
    TopInItsSubtree(TURNED_AWAY, ALICE, 1);
    assert forall a :: a in Holders(m) ==> a == ALICE;
    assert !DeliveryPending(HERE, m, 9);
  }

  /** A message a recipient did not accept is in its list, but is not held by it:
      when Alice deletes hers for good, it is gone from Bob's list too. */
  lemma PurgeTakesFromOthersList()
    ensures Reached(TURNED_AWAY, {"1"}) && 1 in Listed(TURNED_AWAY, BOB, Exclude)
    ensures Purge(HERE, TURNED_AWAY, ALICE, 1, false, 9).Done?
    ensures 1 !in Purge(HERE, TURNED_AWAY, ALICE, 1, false, 9).db.msgs
  {
    TurnedAwayIsReached();
    TurnedAwayLeaves();
    PurgeKeepsRow(HERE, TURNED_AWAY, ALICE, 1, false, 9, 1);
  }

  // ---- A message nobody holds ----

  /** Alice wrote to Carol, on another host, and deleted it for good while it was
      still to be delivered. */
  const LINGERING := Db(map[1 := Letter(None, ALICE, CAROL, "1", map[])], PurgedBy(ALICE), 2)

  lemma LingeringIsReached()
    ensures Reached(LINGERING, {"1"})
  {
    EmptyIsReached();
    var w := Mails(EMPTY_HOST, None, ALICE, CAROL, "1", map[]);
    assert w.db.msgs == LINGERING.msgs;
    PurgeLeavesLingering(w.db);
    var after := Deletes(w, ALICE, 1, 2);
    assert w.files - {} == w.files;
  }

  lemma PurgeLeavesLingering(db: Db)
    requires db.msgs == LINGERING.msgs && db.trash == map[] && db.nextId == 2
    ensures var o := Purge(HERE, db, ALICE, 1, false, 2);
            o.Done? && o.db == LINGERING && o.created == {} && o.removed == {} && o.after.Release?
  {
    var m := Letter(None, ALICE, CAROL, "1", map[]);
    assert db.msgs[1] == m && CAROL in m.to && m.to[CAROL] == PENDING;
    NothingTrashed(db, ALICE, 1);
    TopInItsSubtree(db, ALICE, 1);
    var ids := Subtree(db, ALICE, 1);
    assert ids == {1};
    var marked := AfterMark(db, ALICE, 1, false, 2);
    assert marked.trash == PurgedBy(ALICE);
    assert Retried(m.to[CAROL]) && DeliveryPending(HERE, m, 2);
    assert Removable(HERE, marked, ids, 2) == {};
    DropNone(marked);
    assert Orphaned(marked, {}) == {};
  }

  /** Removal comes with purges only: what is pending when its last holder deletes
      it for good stays when it no longer is, held by nobody, and the holder that
      was can neither find nor delete it (README.md:847-850 says it is removed). */
  lemma NobodyHoldsAndItStays(later: Time)
    requires later >= 86401
    ensures Reached(LINGERING, {"1"}) && Unheld(HERE, LINGERING, 1, later)
    ensures Handle(HERE, LINGERING, ALICE, DeleteReq(1, false, true, later)).Refused?
    ensures ThreadMessages(LINGERING, ALICE, {ALICE}, 1) == NotFound
  {
    LingeringIsReached();
    var m := Letter(None, ALICE, CAROL, "1", map[]);
    assert LINGERING.msgs[1] == m && m.to[CAROL] == PENDING;
    assert OwnPurged(LINGERING, ALICE, 1);
    OwnRowDecides(LINGERING, ALICE, 1);
    assert forall a :: a in Holders(m) ==> a == ALICE;
    assert !DeliveryPending(HERE, m, later);
  }

  // ---- A late reply ----

  /** Bob wrote 1 to Alice, who deleted it for good; then Bob replied to it. */
  const LATE := Db(
    map[1 := Note(None, BOB, ALICE, "1"), 2 := Note(Some(1), BOB, ALICE, "2")],
    map[(ALICE, 1) := Mark(false, 2, Some(2))],
    3)

  lemma LateReplyReadsPurged()
    ensures StateOf(LATE, ALICE, 2) == Purged && StateOf(LATE, BOB, 1) == NotTrashed
  {
    NothingTrashed(LATE, BOB, 1);
    assert Ancestor(LATE, 2, 1) == Some(1) by {
      assert LATE.msgs[2].pid == Some(1) && Ancestor(LATE, 1, 0) == Some(1);
    }
    assert Above(LATE, 2, 1, WALK_CAP);
    UpWalkIs(LATE, 2, WALK_CAP, 1);
    assert OwnPurged(LATE, ALICE, 1);
  }

  lemma NobodyElseHolds1(marked: Db)
    requires marked.msgs == LATE.msgs && OwnPurged(marked, ALICE, 1) && OwnPurged(marked, BOB, 1)
    ensures Unheld(HERE, marked, 1, 9)
  {
    var m := Note(None, BOB, ALICE, "1");
    assert marked.msgs[1] == m;
    assert forall a :: a in Holders(m) ==> a == ALICE || a == BOB;
    assert !DeliveryPending(HERE, m, 9);
  }

  lemma AliceHolds2(marked: Db)
    requires marked.msgs == LATE.msgs && !OwnPurged(marked, ALICE, 2)
    ensures !Unheld(HERE, marked, 2, 9)
  {
    var m := Note(Some(1), BOB, ALICE, "2");
    assert marked.msgs[2] == m;
    assert ALICE in Holders(m) && Local(HERE, ALICE);
  }

  lemma BobsSubtree()
    ensures 1 in LATE.msgs && LATE.msgs[1].sent.Some? && Participates(LATE.msgs[1], BOB)
    ensures 1 in Subtree(LATE, BOB, 1)
  {
    assert LATE.msgs[1] == Note(None, BOB, ALICE, "1");
    TopInItsSubtree(LATE, BOB, 1);
  }

  lemma BobsMarks(ids: set<MsgId>)
    requires 1 in ids
    ensures var marked := MarkPurged(LATE, BOB, ids, None, 9);
            && marked.msgs == LATE.msgs
            && OwnPurged(marked, BOB, 1) && OwnPurged(marked, ALICE, 1) && (ALICE, 2) !in marked.trash
  {
  }

  lemma BobPurges1() returns (marked: Db, gone: set<MsgId>)
    ensures Purge(HERE, LATE, BOB, 1, false, 9).Done?
    ensures Purge(HERE, LATE, BOB, 1, false, 9).db == Drop(marked, gone)
    ensures marked.msgs == LATE.msgs && 1 in gone && 2 !in gone && (ALICE, 2) !in marked.trash
  {
    LateReplyReadsPurged();
    BobsSubtree();
    BobsMarks(Subtree(LATE, BOB, 1));
    marked := AfterMark(LATE, BOB, 1, false, 9);
    NobodyElseHolds1(marked);
    AliceHolds2(marked);
    gone := Removable(HERE, marked, Subtree(LATE, BOB, 1), 9);
    assert MayTrash(LATE, BOB, 1);
  }

  lemma LateReplyIsLoose(marked: Db, gone: set<MsgId>)
    requires marked.msgs == LATE.msgs && 1 in gone && 2 !in gone && (ALICE, 2) !in marked.trash
    ensures StateOf(Drop(marked, gone), ALICE, 2) == NotTrashed && 2 in Listed(Drop(marked, gone), ALICE, Exclude)
  {
    var after := Drop(marked, gone);
    assert marked.msgs[2] == Note(Some(1), BOB, ALICE, "2");
    assert after.msgs[2] == Note(None, BOB, ALICE, "2") && ALICE in after.msgs[2].to;
    assert UpWalk(after, 2, WALK_CAP) == {2};
  }

  /** A reply that arrived after its message was deleted for good reads purged
      only through that message: when Bob deletes 1 too it leaves the host, and
      2 is back in Alice's lists (README.md:843 says it is never listed again). */
  lemma LateReplyComesBack()
    ensures StateOf(LATE, ALICE, 2) == Purged && Purge(HERE, LATE, BOB, 1, false, 9).Done?
    ensures var after := Purge(HERE, LATE, BOB, 1, false, 9).db;
            StateOf(after, ALICE, 2) == NotTrashed && 2 in Listed(after, ALICE, Exclude)
  {
    LateReplyReadsPurged();
    var marked, gone := BobPurges1();
    LateReplyIsLoose(marked, gone);
  }

  // ---- A purge of all there is ----

  /** One message, and whatever trash its recipient may have of it. */
  function Alone(from: Addr, to: Addr, path: Path, trash: map<(Addr, MsgId), Mark>): (db: Db) {
    Db(map[1 := Note(None, from, to, path)], trash, 2)
  }

  function PurgedBy(a: Addr): (trash: map<(Addr, MsgId), Mark>) {
    map[(a, 1) := Mark(false, 2, Some(2))]
  }

  lemma AlonesSubtree(from: Addr, to: Addr, path: Path)
    ensures Subtree(Alone(from, to, path, map[]), to, 1) == {1}
  {
    var db := Alone(from, to, path, map[]);
    assert db.msgs[1] == Note(None, from, to, path) && to in db.msgs[1].to;
    TopInItsSubtree(db, to, 1);
  }

  lemma SenderStillHolds(from: Addr, to: Addr, path: Path, trash: map<(Addr, MsgId), Mark>)
    requires Local(HERE, from) && (from, 1) !in trash
    ensures Removable(HERE, Alone(from, to, path, trash), {1}, 2) == {}
    ensures Orphaned(Alone(from, to, path, trash), {}) == {}
  {
    var m := Note(None, from, to, path);
    assert Alone(from, to, path, trash).msgs[1] == m;
    assert from in Holders(m) && Local(HERE, from);
  }

  lemma PurgeOfAlone(from: Addr, to: Addr, path: Path)
    requires Local(HERE, from) && to != from
    ensures var o := Purge(HERE, Alone(from, to, path, map[]), to, 1, false, 2);
            o.Done? && o.db == Alone(from, to, path, PurgedBy(to)) && o.removed == {}
  {
    var db := Alone(from, to, path, map[]);
    assert db.msgs[1] == Note(None, from, to, path) && to in db.msgs[1].to;
    NothingTrashed(db, to, 1);
    AlonesSubtree(from, to, path);
    var marked := AfterMark(db, to, 1, false, 2);
    assert marked.trash == PurgedBy(to);
    SenderStillHolds(from, to, path, PurgedBy(to));
    DropNone(marked);
  }

  /** The recipient deletes it for good, and the sender still holds it. */
  lemma RecipientPurges(w: World, from: Addr, to: Addr, path: Path) returns (after: World)
    requires Reachable(HERE, w) && w.db == Alone(from, to, path, map[]) && w.files == {path}
    requires Local(HERE, from) && to != from
    ensures Reachable(HERE, after) && after.db == Alone(from, to, path, PurgedBy(to)) && after.files == {path}
  {
    PurgeOfAlone(from, to, path);
    after := Deletes(w, to, 1, 2);
    assert w.files - {} == w.files;
  }

  /** Somebody here writes to somebody else, who deletes it for good. */
  lemma WrittenAndPurged(from: Addr, to: Addr, path: Path) returns (w: World)
    requires Local(HERE, from) && Local(HERE, to) && to != from
    ensures Reachable(HERE, w) && w.db == Alone(from, to, path, PurgedBy(to)) && w.files == {path}
  {
    EmptyIsReached();
    var one := Writes(EMPTY_HOST, None, from, to, path);
    assert one.db.msgs == Alone(from, to, path, map[]).msgs;
    w := RecipientPurges(one, from, to, path);
  }

  lemma LateIsReached()
    ensures Reached(LATE, {"1", "2"})
  {
    var two := WrittenAndPurged(BOB, ALICE, "1");
    NothingTrashed(two.db, BOB, 1);
    var three := Writes(two, Some(1), BOB, ALICE, "2");
    assert three.db.msgs == LATE.msgs;
  }

  // ---- Long lineages ----

  function Name(i: nat): (path: Path) {
    seq(i, _ => 'x')
  }

  /** n messages from Alice to Bob, each replying to the one before. */
  function Line(n: nat, trash: map<(Addr, MsgId), Mark>): (db: Db) {
    Db(map i: nat | 1 <= i <= n :: Note(if i == 1 then None else Some(i - 1), ALICE, BOB, Name(i)), trash, n + 1)
  }

  function Names(n: nat): (files: set<Path>) {
    set i: nat | 1 <= i <= n :: Name(i)
  }

  function Upto(n: nat): (path: seq<MsgId>) {
    seq(n, i => i + 1)
  }

  lemma LineNext(n: nat, trash: map<(Addr, MsgId), Mark>)
    requires n > 0
    ensures Line(n, trash).msgs
            == Line(n - 1, trash).msgs[n := Note(if n == 1 then None else Some(n - 1), ALICE, BOB, Name(n))]
    ensures Names(n) == Names(n - 1) + {Name(n)} && Name(n) !in Names(n - 1)
  {
    forall i: nat | i < n ensures Name(i) != Name(n) {
      assert |Name(i)| == i && |Name(n)| == n;
    }
  }

  /** From its first message a line of any length is written. */
  lemma {:induction false} LineIsReached(first: World, n: nat) returns (w: World)
    requires Reachable(HERE, first) && first.db == Line(1, first.db.trash) && first.files == Names(1)
    requires n > 0 && forall x :: (ALICE, x) !in first.db.trash
    ensures Reachable(HERE, w) && w.db == Line(n, first.db.trash) && w.files == Names(n)
    decreases n
  {
    if n == 1 {
      w := first;
    } else {
      var before := LineIsReached(first, n - 1);
      LineNext(n, first.db.trash);
      NothingTrashed(before.db, ALICE, n - 1);
      w := Writes(before, Some(n - 1), ALICE, BOB, Name(n));
    }
  }

  lemma LineIsLineage(n: nat, trash: map<(Addr, MsgId), Mark>)
    requires n > 0
    ensures Lineage(Line(n, trash), Upto(n), n)
  {
  }

  lemma FirstOfLine(trash: map<(Addr, MsgId), Mark>)
    ensures Line(1, trash) == Alone(ALICE, BOB, Name(1), trash) && Names(1) == {Name(1)}
  {
    assert Line(1, trash).msgs == Alone(ALICE, BOB, Name(1), trash).msgs;
  }

  /** Lineages of every length come about, so the indicator walk does miss roots. */
  lemma RootsComeApart(n: nat)
    requires n > INDICATOR_CAP + 1
    ensures Reached(Line(n, map[]), Names(n)) && Lineage(Line(n, map[]), Upto(n), n)
    ensures PushRoot(Line(n, map[]), n, 1) && IndicatorRoot(Line(n, map[]), n) != 1
  {
    EmptyIsReached();
    var first := Writes(EMPTY_HOST, None, ALICE, BOB, Name(1));
    FirstOfLine(map[]);
    assert first.db.msgs == Alone(ALICE, BOB, Name(1), map[]).msgs;
    var w := LineIsReached(first, n);
    LineIsLineage(n, map[]);
    ReachableIsForest(HERE, w);
    PushRootIsRoot(w.db, Upto(n), n, 1);
    IndicatorRootIsRoot(w.db, Upto(n), n);
  }

  /** A row out of reach of the walk does not say where a message stands. */
  lemma OutOfReach(db: Db, a: Addr, id: MsgId, top: MsgId, cap: nat)
    requires top !in UpWalk(db, id, cap) && top != id && forall x :: (a, x) in db.trash ==> x == top
    ensures StateOver(db, a, id, UpWalk(db, id, cap)) == NotTrashed
  {
  }

  lemma EndOfLine(n: nat, trash: map<(Addr, MsgId), Mark>, cap: nat)
    requires n > cap + 1 && Forest(Line(n, trash))
    ensures Ancestor(Line(n, trash), n, n - 1) == Some(1) && 1 !in UpWalk(Line(n, trash), n, cap)
  {
    LineIsLineage(n, trash);
    LineageAncestor(Line(n, trash), Upto(n), n, n - 1);
    InReachIff(Line(n, trash), n, 1, n - 1, cap);
  }

  lemma BobMayListEnd(n: nat, trash: map<(Addr, MsgId), Mark>)
    requires n > 1 && StateOf(Line(n, trash), BOB, n) == NotTrashed
    ensures n in Listed(Line(n, trash), BOB, Exclude)
  {
    assert Line(n, trash).msgs[n] == Note(Some(n - 1), ALICE, BOB, Name(n)) && BOB in Line(n, trash).msgs[n].to;
  }

  lemma PurgedLineIsReached(n: nat) returns (w: World)
    requires n > 0
    ensures Reachable(HERE, w) && w.db == Line(n, PurgedBy(BOB)) && w.files == Names(n)
  {
    var first := WrittenAndPurged(ALICE, BOB, Name(1));
    FirstOfLine(PurgedBy(BOB));
    w := LineIsReached(first, n);
  }

  /** Bob deleted the first message of the line for good; what replies to it more
      than 1000 links below is in his lists all the same, with nothing removed
      (README.md:843 says it is never listed). */
  lemma DeepReplyIsListed(n: nat)
    requires n > 1001
    ensures var db := Line(n, PurgedBy(BOB));
            && Reached(db, Names(n))
            && Ancestor(db, n, n - 1) == Some(1) && OwnPurged(db, BOB, 1)
            && StateOf(db, BOB, n) == NotTrashed && n in Listed(db, BOB, Exclude)
  {
    var w := PurgedLineIsReached(n);
    ReachableIsForest(HERE, w);
    EndOfLine(n, PurgedBy(BOB), WALK_CAP);
    OutOfReach(w.db, BOB, n, 1, WALK_CAP);
    BobMayListEnd(n, PurgedBy(BOB));
  }

  // ---- Accounting ----

  const UNSENT := Note(None, ALICE, CAROL, "1").(sent := None, to := map[CAROL := PENDING])

  /** Carol wrote to Alice from another host, with a compressed body. */
  const COMPRESSED := Note(None, CAROL, ALICE, "1").(expanded := map[Body := 9])

  lemma SizeOf(m: Message, path: Path)
    requires m.parts == map[Body := Stored(path, 5)]
    ensures StoredSize(m) == 5
  {
    TotalSplit(Sizes(m.parts), Body);
    assert Sizes(m.parts) - {Body} == map[];
  }

  const CREATING := Api(ALICE, CreateReq(Drafted(None, CAROL, "1")), Acknowledged)
  const SENDING := Api(ALICE, SendReq(1, true, 9, map[], map[]), AckLost)

  lemma CreatingStores()
    ensures var w := Step(HERE, EMPTY_HOST, CREATING); 1 in w.db.msgs && w.db.msgs[1] == UNSENT
  {
    assert NewMessage(ALICE, Drafted(None, CAROL, "1")) == UNSENT by {
      assert Unresolved({CAROL}) == map[CAROL := PENDING];
    }
  }

  lemma EmptyOwesNothing(a: Addr, way: Way)
    ensures Excess(HERE, EMPTY_HOST, a, way) == 0
  {
    assert Charges(HERE, EMPTY_DB, a, way) == map[];
  }

  /** An event that does not drift leaves the totals of the empty host right. */
  lemma FirstStep(e: Event, a: Addr, way: Way)
    requires Local(HERE, a) && Drift(HERE, EMPTY_HOST, e, a, way) == 0
    ensures var w := Step(HERE, EMPTY_HOST, e); Reachable(HERE, w) && Good(w.db) && Excess(HERE, w, a, way) == 0
  {
    EmptyIsReached();
    var _ := OneMore(EMPTY_HOST, e);
    EmptyIsGood();
    StepKeepsGood(HERE, EMPTY_HOST, e);
    EmptyOwesNothing(a, way);
    StepDrifts(HERE, EMPTY_HOST, e, a, way);
  }

  lemma SendingIsOff(w: World)
    requires 1 in w.db.msgs && w.db.msgs[1] == UNSENT
    ensures Drift(HERE, w, SENDING, ALICE, Sent) == -5
  {
    assert CAROL in UNSENT.to;
    SizeOf(UNSENT, "1");
  }

  /** A commit whose acknowledgement is lost is not posted: when that of Alice's
      first message is, her total misses it. */
  lemma LostAcknowledgementDrifts() returns (w: World)
    ensures w == Step(HERE, EMPTY_HOST, CREATING) && Reachable(HERE, w) && Excess(HERE, w, ALICE, Sent) == 0
    ensures Drift(HERE, w, SENDING, ALICE, Sent) == -5 == Excess(HERE, Step(HERE, w, SENDING), ALICE, Sent)
  {
    w := Step(HERE, EMPTY_HOST, CREATING);
    CreatingStores();
    FirstStep(CREATING, ALICE, Sent);
    SendingIsOff(w);
    StepDrifts(HERE, w, SENDING, ALICE, Sent);
  }

  const ADDING := Api(ALICE, AddReq(1, {BOB}, 9, map[BOB := ACCEPTED]), Acknowledged)

  lemma AliceMayAdd(w: World)
    requires w == Step(HERE, EMPTY_HOST, Receive(COMPRESSED))
    ensures 1 in w.db.msgs && w.db.msgs[1] == COMPRESSED && w.db.trash == map[]
    ensures MayAdd(w.db, ALICE, 1, {BOB})
  {
    assert MayReceive(HERE, EMPTY_HOST, COMPRESSED);
    NothingTrashed(w.db, ALICE, 1);
    assert ALICE in COMPRESSED.to;
  }

  lemma AddingIsOff(w: World)
    requires 1 in w.db.msgs && w.db.msgs[1] == COMPRESSED && w.db.trash == map[] && MayAdd(w.db, ALICE, 1, {BOB})
    ensures Drift(HERE, w, ADDING, BOB, Received) == 5 - 9
  {
    assert !OwnPurged(w.db, BOB, 1);
    SizeOf(COMPRESSED, "1");
    assert ExpandedSizes(COMPRESSED) == map[Body := 9];
    TotalSplit(ExpandedSizes(COMPRESSED), Body);
    assert ExpandedSizes(COMPRESSED) - {Body} == map[];
  }

  /** When Alice adds Bob to a message that came compressed, its stored size is
      recorded for him, but his purge will release its expanded size. */
  lemma CompressedAddToDrifts() returns (w: World)
    ensures w == Step(HERE, EMPTY_HOST, Receive(COMPRESSED)) && Reachable(HERE, w) && Excess(HERE, w, BOB, Received) == 0
    ensures Drift(HERE, w, ADDING, BOB, Received) == 5 - 9 == Excess(HERE, Step(HERE, w, ADDING), BOB, Received)
  {
    w := Step(HERE, EMPTY_HOST, Receive(COMPRESSED));
    FirstStep(Receive(COMPRESSED), BOB, Received);
    AliceMayAdd(w);
    AddingIsOff(w);
    StepDrifts(HERE, w, ADDING, BOB, Received);
  }
}
