/**
 What the trash requests do, told from the rows of the tables and not from the
 steps that do it (README.md, Trash; internal/handlers/trash.go; dd.sql).
*/
module TrashLaws {
  import opened Basics
  import opened Store
  import opened Walks
  import opened Trash
  import opened Operations
  import opened Host
  import opened Structure
  import opened Bystanders
  import opened Finality

  // ---- What keeps a message on the host ----

  /** Not delivered, and fmsgd tries again: no attempt yet, or one that got no
      response, undisclosed, insufficient resources or user full. */
  predicate StillTried(row: Delivery) {
    row.delivered.None? && (row.code.None? || row.code == Some(-1) || row.code == Some(3) || row.code == Some(5)
                            || row.code == Some(101))
  }

  /** A recipient may still get m, as measured from when m was sent. */
  predicate OwedToRecipient(c: Config, m: Message, now: Time, a: Addr) {
    m.sent.Some? && a in m.to && StillTried(m.to[a]) && now - m.sent.value < c.retryMaxAge
  }

  /** An added recipient may still get m, as measured from when it was added. */
  predicate OwedToAdded(c: Config, m: Message, now: Time, a: Addr) {
    a in m.addTo && StillTried(m.addTo[a].delivery)
    && m.addTo[a].batch < |m.batches| && now - m.batches[m.addTo[a].batch].added < c.retryMaxAge
  }

  /** A host may still be told of a batch, as measured from the batch. */
  predicate OwedNotice(c: Config, m: Message, now: Time, b: nat, d: Domain) {
    b < |m.batches| && d in m.batches[b].notify && StillTried(m.batches[b].notify[d])
    && now - m.batches[b].added < c.retryMaxAge
  }

  /** Somebody here sent or accepted m and has not deleted it for good. */
  predicate HeldHereBy(c: Config, db: Db, id: MsgId, b: Addr)
    requires id in db.msgs
  {
    var m := db.msgs[id];
    && c.local != "" && b.domain == c.local
    && ((m.sent.Some? && m.from == b) || (b in m.to && m.to[b].delivered.Some?)
        || (b in m.addTo && m.addTo[b].delivery.delivered.Some?))
    && !((b, id) in db.trash && db.trash[(b, id)].purged.Some?)
  }

  /** Whatever the event, a message still owed to a recipient stays stored. */
  lemma StaysForRecipient(c: Config, w: World, e: Event, id: MsgId, a: Addr)
    requires Good(w.db) && id in w.db.msgs && w.db.msgs[id].sent.Some?
    requires e.Api? && e.req.DeleteReq? ==> OwedToRecipient(c, w.db.msgs[id], e.req.now, a)
    ensures id in Step(c, w, e).db.msgs
  {
    LeavesIff(c, w, e, id);
  }

  /** Nor one still owed to an added recipient. */
  lemma StaysForAdded(c: Config, w: World, e: Event, id: MsgId, a: Addr)
    requires Good(w.db) && id in w.db.msgs && w.db.msgs[id].sent.Some?
    requires e.Api? && e.req.DeleteReq? ==> OwedToAdded(c, w.db.msgs[id], e.req.now, a)
    ensures id in Step(c, w, e).db.msgs
  {
    LeavesIff(c, w, e, id);
  }

  /** Nor one of whose batch a host is still to be told. */
  lemma StaysForNotice(c: Config, w: World, e: Event, id: MsgId, b: nat, d: Domain)
    requires Good(w.db) && id in w.db.msgs && w.db.msgs[id].sent.Some?
    requires e.Api? && e.req.DeleteReq? ==> OwedNotice(c, w.db.msgs[id], e.req.now, b, d)
    ensures id in Step(c, w, e).db.msgs
  {
    LeavesIff(c, w, e, id);
    assert e.Api? && e.req.DeleteReq? ==> DeliveryPending(c, w.db.msgs[id], e.req.now);
  }

  /** Nor one that somebody else here holds. */
  lemma StaysForHolder(c: Config, w: World, e: Event, id: MsgId, b: Addr)
    requires Good(w.db) && id in w.db.msgs && w.db.msgs[id].sent.Some? && HeldHereBy(c, w.db, id, b)
    requires e.Api? ==> e.caller != b
    ensures id in Step(c, w, e).db.msgs
  {
    LeavesIff(c, w, e, id);
    assert b in Holders(w.db.msgs[id]);
  }

  /** Nothing is owed of m. */
  ghost predicate NothingOwed(c: Config, m: Message, now: Time) {
    && (forall a :: !OwedToRecipient(c, m, now, a)) && (forall a :: !OwedToAdded(c, m, now, a))
    && forall b: nat, d :: !OwedNotice(c, m, now, b, d)
  }

  lemma NothingPending(c: Config, m: Message, now: Time)
    requires NothingOwed(c, m, now)
    ensures !DeliveryPending(c, m, now)
  {
    if a :| a in m.to && Retried(m.to[a]) && m.sent.Some? && now - m.sent.value < c.retryMaxAge {
      assert OwedToRecipient(c, m, now, a);
    }
    if a :| a in m.addTo && Retried(m.addTo[a].delivery) && m.addTo[a].batch < |m.batches|
            && now - m.batches[m.addTo[a].batch].added < c.retryMaxAge {
      assert OwedToAdded(c, m, now, a);
    }
    if b: nat, d :| b < |m.batches| && now - m.batches[b].added < c.retryMaxAge
                    && d in m.batches[b].notify && Retried(m.batches[b].notify[d]) {
      assert OwedNotice(c, m, now, b, d);
    }
  }

  /** x is a sent message at most 1000 links below top that a wrote, received or
      was added to. */
  ghost predicate InThreadOf(db: Db, a: Addr, top: MsgId, x: MsgId) {
    && x in db.msgs && db.msgs[x].sent.Some?
    && (db.msgs[x].from == a || a in db.msgs[x].to || a in db.msgs[x].addTo)
    && exists n: nat :: n <= 1000 && Ancestor(db, x, n) == Some(top)
  }

  lemma SubtreeIs(db: Db, a: Addr, top: MsgId, x: MsgId)
    ensures x in Subtree(db, a, top) <==> InThreadOf(db, a, top, x)
  {
    DownWalkIs(db, top, WALK_CAP, x);
  }

  /** Conversely a purge that commits removes every message of the caller's thread
      of which nothing is owed and that nobody else here holds. */
  lemma LeavesWhenNothingKeeps(c: Config, w: World, e: Event, id: MsgId)
    requires Good(w.db) && CommittedPurge(w.db, e) && InThreadOf(w.db, e.caller, e.req.id, id)
    requires NothingOwed(c, w.db.msgs[id], e.req.now)
    requires forall b :: b != e.caller ==> !HeldHereBy(c, w.db, id, b)
    ensures id !in Step(c, w, e).db.msgs
  {
    SubtreeIs(w.db, e.caller, e.req.id, id);
    NothingPending(c, w.db.msgs[id], e.req.now);
    forall b | b in Holders(w.db.msgs[id]) && Local(c, b) && b != e.caller ensures OwnPurged(w.db, b, id) {
      assert !HeldHereBy(c, w.db, id, b);
    }
    LeavesIff(c, w, e, id);
  }

  /** Deleting for good is granted to who takes part in a sent message that does
      not read deleted for good for it. */
  lemma PurgeIsGranted(c: Config, db: Db, a: Addr, id: MsgId, thread: bool, now: Time)
    ensures id in db.msgs && db.msgs[id].sent.Some? ==>
              (Handle(c, db, a, DeleteReq(id, thread, true, now)).Done?
               <==> && (db.msgs[id].from == a || a in db.msgs[id].to || a in db.msgs[id].addTo)
                    && StateOf(db, a, id) != Purged)
    ensures id !in db.msgs ==> Handle(c, db, a, DeleteReq(id, thread, true, now)).Refused?
  {
  }

  /** Every row a purge leaves: the caller's on its thread are purged, since when
      they were or from now; the top's marks the thread if asked to; and every
      other row on a message that stays is as it was. */
  lemma PurgeLeavesRows(c: Config, w: World, e: Event, a: Addr, x: MsgId)
    requires Good(w.db) && CommittedPurge(w.db, e)
    ensures var db, after := w.db, Step(c, w, e).db;
            var mine := a == e.caller && InThreadOf(db, a, e.req.id, x);
            && ((a, x) in after.trash <==> x in after.msgs && (mine || (a, x) in db.trash))
            && ((a, x) in after.trash ==>
                  var row := after.trash[(a, x)];
                  if !mine || ((a, x) in db.trash && db.trash[(a, x)].purged.Some?) then
                    (a, x) in db.trash && row == db.trash[(a, x)]
                  else
                    && row.purged == Some(e.req.now)
                    && row.deleted == (if (a, x) in db.trash then db.trash[(a, x)].deleted else e.req.now)
                    && (row.thread <==> ((a, x) in db.trash && db.trash[(a, x)].thread) || (e.req.thread && x == e.req.id)))
  {
    var r := e.req;
    CommittedPurgeIs(c, w, e);
    SubtreeIs(w.db, e.caller, r.id, x);
    PurgeRowsAre(c, w.db, e.caller, r.id, r.thread, r.now, a, x);
  }

  lemma PurgeRowsAre(c: Config, db: Db, caller: Addr, top: MsgId, thread: bool, now: Time, a: Addr, x: MsgId)
    requires TrashRowsValid(db) && Purge(c, db, caller, top, thread, now).Done?
    ensures var after := Purge(c, db, caller, top, thread, now).db;
            var mine := a == caller && x in Subtree(db, caller, top);
            && ((a, x) in after.trash <==> x in after.msgs && (mine || (a, x) in db.trash))
            && ((a, x) in after.trash ==>
                  if !mine || OwnPurged(db, a, x) then (a, x) in db.trash && after.trash[(a, x)] == db.trash[(a, x)]
                  else after.trash[(a, x)] == PurgedMark(db, a, x, thread && top == x, now))
  {
    var marked, gone, _ := PurgeCuts(c, db, caller, top, thread, now, x);
    MarkedRowIs(db, caller, top, thread, now, a, x);
  }

  lemma MarkedRowIs(db: Db, caller: Addr, top: MsgId, thread: bool, now: Time, a: Addr, x: MsgId)
    ensures var marked := AfterMark(db, caller, top, thread, now);
            var mine := a == caller && x in Subtree(db, caller, top);
            && ((a, x) in marked.trash <==> mine || (a, x) in db.trash)
            && ((a, x) in marked.trash ==>
                  if !mine || OwnPurged(db, a, x) then (a, x) in db.trash && marked.trash[(a, x)] == db.trash[(a, x)]
                  else marked.trash[(a, x)] == PurgedMark(db, a, x, thread && top == x, now))
  {
  }

  /** Some part of a stored message is at path. */
  predicate NamedBy(db: Db, id: MsgId, path: Path) {
    id in db.msgs && exists p :: p in db.msgs[id].parts && db.msgs[id].parts[p].path == path
  }

  /** And an acknowledged purge deletes exactly the files that a message it removed
      named and none that is left does. */
  lemma PurgeDeletesFiles(c: Config, w: World, e: Event, path: Path)
    requires Good(w.db) && CommittedPurge(w.db, e) && e.commit == Acknowledged && path in w.files
    ensures var after := Step(c, w, e);
            path !in after.files
            <==> && (exists id :: id !in after.db.msgs && NamedBy(w.db, id, path))
                 && forall id :: !NamedBy(after.db, id, path)
  {
    var r := e.req;
    PurgedFiles(c, w, e);
    PurgeOrphans(c, w.db, e.caller, r.id, r.thread, r.now, path);
    CommittedPurgeIs(c, w, e);
  }

  lemma PurgedFiles(c: Config, w: World, e: Event)
    requires CommittedPurge(w.db, e) && e.commit == Acknowledged
    ensures Purge(c, w.db, e.caller, e.req.id, e.req.thread, e.req.now).Done?
    ensures Step(c, w, e).files == w.files - Purge(c, w.db, e.caller, e.req.id, e.req.thread, e.req.now).removed
  {
    ReleasedFiles(c, w, Handle(c, w.db, e.caller, e.req));
  }

  lemma ReleasedFiles(c: Config, w: World, o: Outcome)
    requires o.Done? && o.created == {} && o.after.Release?
    ensures Conclude(c, w, o, Acknowledged).files == w.files - o.removed
  {
    assert w.files + {} == w.files;
  }

  lemma PurgeOrphans(c: Config, db: Db, caller: Addr, top: MsgId, thread: bool, now: Time, path: Path)
    requires Purge(c, db, caller, top, thread, now).Done?
    ensures var o := Purge(c, db, caller, top, thread, now);
            path in o.removed
            <==> (exists id :: id !in o.db.msgs && NamedBy(db, id, path)) && forall id :: !NamedBy(o.db, id, path)
  {
    var marked, gone, _ := PurgeCuts(c, db, caller, top, thread, now, top);
    OrphanedIs(marked, gone, path);
    forall id ensures NamedBy(marked, id, path) <==> NamedBy(db, id, path) {
    }
    GoneIsRemovable(c, db, caller, top, thread, now, gone);
  }

  lemma GoneIsRemovable(c: Config, db: Db, caller: Addr, top: MsgId, thread: bool, now: Time, gone: set<MsgId>)
    requires Purge(c, db, caller, top, thread, now).Done?
    requires forall x :: x in gone <==> WillLeave(c, db, caller, top, now, x)
    ensures Purge(c, db, caller, top, thread, now).removed == Removal.Orphaned(AfterMark(db, caller, top, thread, now), gone)
  {
    forall x ensures x in gone
        <==> x in Removal.Removable(c, AfterMark(db, caller, top, thread, now), Subtree(db, caller, top), now)
    {
      PurgeRemoves(c, db, caller, top, thread, now, x);
    }
    assert gone == Removal.Removable(c, AfterMark(db, caller, top, thread, now), Subtree(db, caller, top), now);
  }

  lemma OrphanedIs(db: Db, gone: set<MsgId>, path: Path)
    ensures path in Removal.Orphaned(db, gone)
            <==> (exists id :: id !in Drop(db, gone).msgs && NamedBy(db, id, path))
                 && forall id :: !NamedBy(Drop(db, gone), id, path)
  {
    var after := Drop(db, gone);
    if Removal.InUse(after, path) {
      var id :| id in after.msgs && Uses(after.msgs[id], path);
      assert NamedBy(after, id, path);
    }
    if id :| NamedBy(after, id, path) {
      assert Uses(after.msgs[id], path);
    }
    if id :| id !in after.msgs && NamedBy(db, id, path) {
      assert id in gone && path in Removal.Paths(db.msgs[id]);
    }
    if path in Removal.Orphaned(db, gone) {
      var id :| id in gone && id in db.msgs && path in Removal.Paths(db.msgs[id]);
      assert NamedBy(db, id, path) && id !in after.msgs;
    }
  }

  // ---- Moving to the trash ----

  /** The message j links above id has a thread mark of a's. */
  predicate MarkAt(db: Db, a: Addr, id: MsgId, j: nat) {
    && Ancestor(db, id, j).Some?
    && (a, Ancestor(db, id, j).value) in db.trash && db.trash[(a, Ancestor(db, id, j).value)].thread
  }

  /** One from least to 1000 links above has. */
  ghost predicate MarkedFrom(db: Db, a: Addr, id: MsgId, least: nat) {
    exists j: nat :: least <= j <= 1000 && MarkAt(db, a, id, j)
  }

  lemma InThreadIff(db: Db, a: Addr, id: MsgId)
    ensures (exists x :: x in UpWalk(db, id, WALK_CAP) && ThreadMarked(db, a, x)) <==> MarkedFrom(db, a, id, 0)
  {
    MarkedWithin(db, a, id, WALK_CAP);
  }

  lemma MarkedWithin(db: Db, a: Addr, id: MsgId, cap: nat)
    ensures (exists x :: x in UpWalk(db, id, cap) && ThreadMarked(db, a, x)) <==> HasMarked(db, a, id, cap)
  {
    if x :| x in UpWalk(db, id, cap) && ThreadMarked(db, a, x) {
      UpWalkIs(db, id, cap, x);
      var j: nat :| j <= cap && Ancestor(db, id, j) == Some(x);
      assert MarkAt(db, a, id, j);
    }
    if HasMarked(db, a, id, cap) {
      var j: nat :| j <= cap && MarkAt(db, a, id, j);
      UpWalkIs(db, id, cap, Ancestor(db, id, j).value);
      assert Above(db, id, Ancestor(db, id, j).value, cap);
    }
  }

  ghost predicate HasMarked(db: Db, a: Addr, id: MsgId, cap: nat) {
    exists j: nat :: j <= cap && MarkAt(db, a, id, j)
  }

  /** Where a message stands, told from the rows on it and above it: deleted for
      good before in a thread, in a thread before by itself. */
  lemma StateIs(db: Db, a: Addr, id: MsgId)
    ensures StateOf(db, a, id) == if PurgedWithin(db, a, id, 1000) then Purged
                                  else if MarkedFrom(db, a, id, 0) then InThread
                                  else if (a, id) in db.trash then InMessage else NotTrashed
  {
    PurgedIff(db, a, id, WALK_CAP);
    InThreadIff(db, a, id);
  }

  /** What is listed is sent, of one who takes part, and not deleted for good; by
      default nothing that is in the trash, and with "only" nothing that is not. */
  lemma ListedIff(db: Db, a: Addr, mode: ListMode, id: MsgId)
    ensures id in Listed(db, a, mode)
            <==> && id in db.msgs && db.msgs[id].sent.Some?
                 && (db.msgs[id].from == a || a in db.msgs[id].to || a in db.msgs[id].addTo)
                 && !PurgedWithin(db, a, id, 1000)
                 && (mode == Exclude ==> (a, id) !in db.trash && !MarkedFrom(db, a, id, 0))
                 && (mode == TrashOnly ==> (a, id) in db.trash || MarkedFrom(db, a, id, 0))
  {
    StateIs(db, a, id);
  }

  /** Moving a sent message to the trash is granted as deleting it for good is,
      and writes the caller's row of it alone: a thread mark is kept or set, and
      when it was first deleted stays. */
  lemma TrashWritesOneRow(c: Config, db: Db, a: Addr, id: MsgId, thread: bool, now: Time)
    requires id in db.msgs && db.msgs[id].sent.Some?
    ensures var o := Handle(c, db, a, DeleteReq(id, thread, false, now));
            && (o.Done? <==> && (db.msgs[id].from == a || a in db.msgs[id].to || a in db.msgs[id].addTo)
                             && StateOf(db, a, id) != Purged)
            && (o.Done? ==>
                  && o.db.msgs == db.msgs && (a, id) in o.db.trash
                  && (o.db.trash[(a, id)].thread <==> thread || ((a, id) in db.trash && db.trash[(a, id)].thread))
                  && o.db.trash[(a, id)].deleted == (if (a, id) in db.trash then db.trash[(a, id)].deleted else now)
                  && o.db.trash[(a, id)].purged.None?
                  && (forall k :: k != (a, id) ==>
                        (k in o.db.trash <==> k in db.trash) && (k in db.trash ==> o.db.trash[k] == db.trash[k])))
  {
    if (a, id) in db.trash && db.trash[(a, id)].purged.Some? {
      OwnRowDecides(db, a, id);
    }
  }

  /** It is then in the caller's trash: in a thread if its row or one of the marks
      above says so, and by itself otherwise; and listed there and nowhere else. */
  lemma TrashedIsInTrash(c: Config, db: Db, a: Addr, id: MsgId, thread: bool, now: Time)
    requires id in db.msgs && db.msgs[id].sent.Some? && Handle(c, db, a, DeleteReq(id, thread, false, now)).Done?
    ensures var after := Handle(c, db, a, DeleteReq(id, thread, false, now)).db;
            && StateOf(after, a, id) == (if thread || MarkedFrom(db, a, id, 0) then InThread else InMessage)
            && id in Listed(after, a, TrashOnly) && id in Listed(after, a, Include) && id !in Listed(after, a, Exclude)
  {
    var after := Handle(c, db, a, DeleteReq(id, thread, false, now)).db;
    TrashWritesOneRow(c, db, a, id, thread, now);
    NewRowReads(db, after, a, id);
    assert ThreadMarked(db, a, id) ==> MarkAt(db, a, id, 0);
  }

  /** Where a message stands after a row on it that is not purged. */
  lemma NewRowReads(db: Db, after: Db, a: Addr, id: MsgId)
    requires after.msgs == db.msgs && (a, id) in after.trash && after.trash[(a, id)].purged.None?
    requires ThreadMarked(db, a, id) ==> after.trash[(a, id)].thread
    requires forall k :: k != (a, id) ==>
               (k in after.trash <==> k in db.trash) && (k in db.trash ==> after.trash[k] == db.trash[k])
    requires StateOf(db, a, id) != Purged
    ensures StateOf(after, a, id)
            == if after.trash[(a, id)].thread || MarkedFrom(db, a, id, 0) then InThread else InMessage
  {
    SameLinksSameWalk(db, after, id, WALK_CAP);
    assert forall x :: OwnPurged(after, a, x) ==> OwnPurged(db, a, x);
    assert Ancestor(db, id, 0) == Some(id);
    UpWalkIs(db, id, WALK_CAP, id);
    InThreadIff(db, a, id);
    assert forall x :: x != id ==> (ThreadMarked(after, a, x) <==> ThreadMarked(db, a, x));
  }

  // ---- Restoring ----

  /** Restoring is granted to who takes part and has not deleted it for good. It
      deletes the caller's rows that are not purged, on the message or on those
      of its thread; every other row and every message is as before. */
  lemma RestoreDeletesRows(c: Config, db: Db, a: Addr, id: MsgId, thread: bool)
    requires Good(db)
    ensures var o := Handle(c, db, a, RestoreReq(id, thread));
            && (o.Done? <==> && id in db.msgs && (db.msgs[id].from == a || a in db.msgs[id].to || a in db.msgs[id].addTo)
                             && StateOf(db, a, id) != Purged)
            && (o.Done? ==>
                  && o.db.msgs == db.msgs
                  && (forall k :: k in o.db.trash
                        <==> k in db.trash && !(k.0 == a && db.trash[k].purged.None?
                                                && if thread then InThreadOf(db, a, id, k.1) else k.1 == id))
                  && (forall k :: k in o.db.trash ==> o.db.trash[k] == db.trash[k]))
  {
    forall x ensures x in Subtree(db, a, id) <==> InThreadOf(db, a, id, x) {
      SubtreeIs(db, a, id, x);
    }
  }

  /** After restoring a thread each message n links below its top, as far down as
      1000, reads purged if it did, in a thread if a mark above the top reaches
      it, and otherwise not trashed. */
  lemma RestoredThreadReads(c: Config, db: Db, a: Addr, top: MsgId, id: MsgId, n: nat)
    requires Good(db) && Handle(c, db, a, RestoreReq(top, true)).Done?
    requires n <= 1000 && Ancestor(db, id, n) == Some(top)
    ensures StateOf(Handle(c, db, a, RestoreReq(top, true)).db, a, id)
            == if StateOf(db, a, id) == Purged then Purged else if MarkedFrom(db, a, id, n + 1) then InThread else NotTrashed
  {
    ThreadUnmarked(c, db, a, top);
    UnmarkedReads(db, a, top, id, n);
  }

  lemma ThreadUnmarked(c: Config, db: Db, a: Addr, top: MsgId)
    requires Handle(c, db, a, RestoreReq(top, true)).Done?
    ensures Handle(c, db, a, RestoreReq(top, true)).db == Unmark(db, a, Subtree(db, a, top))
  {
  }

  lemma UnmarkedReads(db: Db, a: Addr, top: MsgId, id: MsgId, n: nat)
    requires Good(db) && n <= 1000 && Ancestor(db, id, n) == Some(top)
    ensures StateOf(Unmark(db, a, Subtree(db, a, top)), a, id)
            == if StateOf(db, a, id) == Purged then Purged else if MarkedFrom(db, a, id, n + 1) then InThread else NotTrashed
  {
    FoundBelow(db, id, top, n, WALK_CAP);
    RestoreThreadIsExact(db, a, top, id);
    ThreadAboveIs(db, a, top, id, n);
  }

  lemma FoundBelow(db: Db, id: MsgId, top: MsgId, n: nat, cap: nat)
    requires n <= cap && Ancestor(db, id, n) == Some(top)
    ensures id in DownWalk(db, top, cap)
  {
    DownWalkIs(db, top, cap, id);
  }

  /** A mark above the top that the walk from id reaches, seen from id. */
  lemma AboveToMarked(db: Db, a: Addr, top: MsgId, id: MsgId, n: nat, j: nat, cap: nat)
    requires Forest(db) && Ancestor(db, id, n) == Some(top) && MarkAt(db, a, top, j)
    ensures Ancestor(db, top, j).value in UpWalk(db, id, cap) <==> n + j <= cap
    ensures MarkAt(db, a, id, n + j)
  {
    AncestorPlus(db, id, n, j);
    InReachIff(db, id, Ancestor(db, top, j).value, n + j, cap);
  }

  lemma ThreadAboveIs(db: Db, a: Addr, top: MsgId, id: MsgId, n: nat)
    requires Forest(db) && Ancestor(db, id, n) == Some(top)
    ensures ThreadAbove(db, a, top, id) <==> MarkedFrom(db, a, id, n + 1)
  {
    if ThreadAbove(db, a, top, id) {
      var j: nat :| j > 0 && Ancestor(db, top, j).Some? && ThreadMarked(db, a, Ancestor(db, top, j).value)
                    && Ancestor(db, top, j).value in UpWalk(db, id, WALK_CAP);
      assert MarkAt(db, a, top, j);
      AboveToMarked(db, a, top, id, n, j, WALK_CAP);
      assert n + 1 <= n + j <= 1000;
    }
    if MarkedFrom(db, a, id, n + 1) {
      var k: nat :| n + 1 <= k <= 1000 && MarkAt(db, a, id, k);
      MarkedIsAbove(db, a, top, id, n, k - n);
    }
  }

  lemma MarkedIsAbove(db: Db, a: Addr, top: MsgId, id: MsgId, n: nat, j: nat)
    requires Forest(db) && Ancestor(db, id, n) == Some(top) && j > 0 && n + j <= 1000 && MarkAt(db, a, id, n + j)
    ensures ThreadAbove(db, a, top, id)
  {
    AncestorPlus(db, id, n, j);
    assert MarkAt(db, a, top, j);
    AboveToMarked(db, a, top, id, n, j, WALK_CAP);
    assert ThreadMarked(db, a, Ancestor(db, top, j).value);
  }

  /** After restoring one message it has no row of the caller's, and is in a
      thread exactly when a mark strictly above it reaches it; else it is listed
      again. */
  lemma RestoredReads(c: Config, db: Db, a: Addr, id: MsgId)
    requires Good(db) && Handle(c, db, a, RestoreReq(id, false)).Done?
    ensures var after := Handle(c, db, a, RestoreReq(id, false)).db;
            && (a, id) !in after.trash
            && StateOf(after, a, id) == (if MarkedFrom(db, a, id, 1) then InThread else NotTrashed)
            && (db.msgs[id].sent.Some? && !MarkedFrom(db, a, id, 1) ==>
                  id in Listed(after, a, Exclude) && id !in Listed(after, a, TrashOnly))
  {
    var after := Handle(c, db, a, RestoreReq(id, false)).db;
    RestoreDeletesRows(c, db, a, id, false);
    assert Ancestor(db, id, 0) == Some(id);
    UpWalkIs(db, id, WALK_CAP, id);
    assert !OwnPurged(db, a, id);
    SameLinksSameWalk(db, after, id, WALK_CAP);
    SameAncestors(db, after);
    InThreadIff(after, a, id);
    assert forall x :: OwnPurged(after, a, x) <==> OwnPurged(db, a, x);
    MarksAboveStay(db, after, a, id);
  }

  /** Marks other than id's own are what they were. */
  lemma MarksAboveStay(db: Db, after: Db, a: Addr, id: MsgId)
    requires Forest(db) && after.msgs == db.msgs && (a, id) !in after.trash
    requires forall k :: k != (a, id) ==>
               (k in after.trash <==> k in db.trash) && (k in db.trash ==> after.trash[k] == db.trash[k])
    ensures MarkedFrom(after, a, id, 0) <==> MarkedFrom(db, a, id, 1)
  {
    SameAncestors(db, after);
    assert Ancestor(db, id, 0) == Some(id);
    forall j: nat | j > 0 ensures Ancestor(db, id, j) != Some(id) && (MarkAt(after, a, id, j) <==> MarkAt(db, a, id, j)) {
      NoCycle(db, id, j);
    }
    assert !MarkAt(after, a, id, 0);
  }
}
