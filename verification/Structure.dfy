/**
 What every step keeps of the message tables: the pid links are a forest under
 linkable parents, trash rows stand on sent messages of their address, and
 nothing in a draft has been delivered.
*/
module Structure {
  import opened Basics
  import opened Store
  import opened Walks
  import opened Trash
  import opened Removal
  import opened Operations
  import opened Host

  predicate DraftPlain(m: Message) {
    m.expanded == map[]
    && (forall a :: a in m.to ==> m.to[a] == PENDING)
    && (forall a :: a in m.addTo ==> m.addTo[a].delivery == PENDING)
  }

  predicate DraftsPlain(db: Db) {
    forall id :: id in db.msgs && db.msgs[id].sent.None? ==> DraftPlain(db.msgs[id])
  }

  ghost predicate Good(db: Db) {
    Forest(db) && TrashRowsValid(db) && DraftsPlain(db) && db.nextId > 0
  }

  /** A row may replace id's: its links are kept, and a sent message keeps its
      sender and loses no recipient. */
  predicate RowKept(db: Db, id: MsgId, m: Message) {
    && LinkKept(db, id, m)
    && (m.sent.None? ==> DraftPlain(m))
    && (id in db.msgs && db.msgs[id].sent.Some? ==>
          m.from == db.msgs[id].from && db.msgs[id].to.Keys <= m.to.Keys && db.msgs[id].addTo.Keys <= m.addTo.Keys)
  }

  lemma PutKeepsGood(db: Db, id: MsgId, m: Message)
    requires Good(db) && RowKept(db, id, m)
    ensures Good(Put(db, id, m))
  {
    PutKeepsForest(db, id, m);
  }

  lemma DropKeepsGood(db: Db, ids: set<MsgId>)
    requires Good(db)
    ensures Good(Drop(db, ids))
  {
    DropKeepsForest(db, ids);
  }

  lemma NewTrashKeepsGood(db: Db, after: Db)
    requires Good(db) && after == db.(trash := after.trash) && TrashRowsValid(after)
    ensures Good(after)
  {
    var rank :| Ranks(db, rank);
    assert Ranks(after, rank);
    assert forall id :: Linkable(db, id) <==> Linkable(after, id);
    assert ParentsLinkable(after) by {
      forall id | id in after.msgs && after.msgs[id].pid.Some? ensures Linkable(after, after.msgs[id].pid.value) {
        assert Linkable(db, db.msgs[id].pid.value);
      }
    }
  }

  lemma MarkPurgedKeepsGood(db: Db, a: Addr, top: MsgId, threadTop: Option<MsgId>, now: Time)
    requires Good(db)
    ensures Good(MarkPurged(db, a, Subtree(db, a, top), threadTop, now))
  {
    NewTrashKeepsGood(db, MarkPurged(db, a, Subtree(db, a, top), threadTop, now));
  }

  lemma KeepsOwnParent(db: Db, id: MsgId)
    requires Forest(db) && id in db.msgs
    ensures db.msgs[id].pid.Some? ==> Linkable(db, db.msgs[id].pid.value)
  {
  }

  /** Trash requests. */
  lemma TrashingKeepsGood(c: Config, db: Db, caller: Addr, r: Request)
    requires Good(db) && Handle(c, db, caller, r).Done? && (r.DeleteReq? || r.RestoreReq?)
    ensures Good(Handle(c, db, caller, r).db)
  {
    if r.RestoreReq? {
      NewTrashKeepsGood(db, Handle(c, db, caller, r).db);
    } else if db.msgs[r.id].sent.None? {
      DropKeepsGood(db, {r.id});
    } else if r.permanent {
      MarkPurgedKeepsGood(db, caller, r.id, if r.thread then Some(r.id) else None, r.now);
      var marked := AfterMark(db, caller, r.id, r.thread, r.now);
      DropKeepsGood(marked, Removable(c, marked, Subtree(db, caller, r.id), r.now));
    } else {
      NewTrashKeepsGood(db, Handle(c, db, caller, r).db);
    }
  }

  lemma HandleKeepsGood(c: Config, db: Db, caller: Addr, r: Request)
    requires Good(db) && Handle(c, db, caller, r).Done?
    ensures Good(Handle(c, db, caller, r).db)
  {
    var after := Handle(c, db, caller, r).db;
    match r
    case CreateReq(d) => PutKeepsGood(db, db.nextId, NewMessage(caller, d));
    case UpdateReq(id, d) => PutKeepsGood(db, id, Updated(db.msgs[id], d));
    case DeleteReq(_, _, _, _) => TrashingKeepsGood(c, db, caller, r);
    case RestoreReq(_, _) => TrashingKeepsGood(c, db, caller, r);
    case SendReq(id, _, now, _, _) =>
      KeepsOwnParent(db, id);
      PutKeepsGood(db, id, after.msgs[id]);
    case AddReq(id, added, now, _) =>
      KeepsOwnParent(db, id);
      PutKeepsGood(db, id, WithBatch(c, db.msgs[id], caller, added, now));
    case ReactReq(id, file, _, _, now, _) => PutKeepsGood(db, db.nextId, after.msgs[db.nextId]);
    case UploadReq(id, name, file) =>
      KeepsOwnParent(db, id);
      PutKeepsGood(db, id, after.msgs[id]);
    case DeleteAttachmentReq(id, name) =>
      KeepsOwnParent(db, id);
      PutKeepsGood(db, id, after.msgs[id]);
  }

  lemma RunAfterKeepsGood(c: Config, w: World, after: After)
    requires Good(w.db)
    requires after.Deliver? && after.id in w.db.msgs ==> w.db.msgs[after.id].sent.Some?
    ensures Good(RunAfter(c, w, after).db)
  {
    if after.Deliver? && after.id in w.db.msgs {
      PutKeepsGood(w.db, after.id, DeliverTo(c, w.db.msgs[after.id], after));
    }
  }

  /** What is delivered after the commit is sent. */
  lemma DeliversSent(c: Config, db: Db, caller: Addr, r: Request)
    requires Handle(c, db, caller, r).Done?
    ensures var o := Handle(c, db, caller, r);
            o.after.Deliver? && o.after.id in o.db.msgs ==> o.db.msgs[o.after.id].sent.Some?
  {
  }

  lemma ConcludeKeepsGood(c: Config, w: World, o: Outcome, commit: Commit)
    requires Good(w.db) && o.Done? && Good(o.db)
    requires o.after.Deliver? && o.after.id in o.db.msgs ==> o.db.msgs[o.after.id].sent.Some?
    ensures Good(Conclude(c, w, o, commit).db)
  {
    if commit == Acknowledged {
      RunAfterKeepsGood(c, w.(db := o.db, files := w.files + o.created - o.removed), o.after);
    }
  }

  lemma StepKeepsGood(c: Config, w: World, e: Event)
    requires Good(w.db)
    ensures Good(Step(c, w, e).db)
  {
    match e
    case Api(caller, req, commit) =>
      var o := Handle(c, w.db, caller, req);
      if o.Done? && o.created !! w.files {
        HandleKeepsGood(c, w.db, caller, req);
        DeliversSent(c, w.db, caller, req);
        ConcludeKeepsGood(c, w, o, commit);
      }
    case Receive(m) =>
      if MayReceive(c, w, m) {
        PutKeepsGood(w.db, w.db.nextId, m);
      }
    case SetOutcome(id, row, outcome) =>
      if MaySetOutcome(c, w.db, id, row) {
        PutKeepsGood(w.db, id, WithOutcome(w.db.msgs[id], row, outcome));
      }
  }

  // ---- Batches ----

  lemma PutKeepsBatches(db: Db, id: MsgId, m: Message)
    requires BatchesValid(db) && BatchRowsValid(m)
    ensures BatchesValid(Put(db, id, m))
  {
  }

  lemma DropKeepsBatches(db: Db, ids: set<MsgId>)
    requires BatchesValid(db)
    ensures BatchesValid(Drop(db, ids))
  {
    forall id | id in Drop(db, ids).msgs ensures BatchRowsValid(Drop(db, ids).msgs[id]) {
      assert BatchRowsValid(db.msgs[id]);
    }
  }

  lemma HandleKeepsBatches(c: Config, db: Db, caller: Addr, r: Request)
    requires BatchesValid(db) && Handle(c, db, caller, r).Done?
    ensures BatchesValid(Handle(c, db, caller, r).db)
  {
    var after := Handle(c, db, caller, r).db;
    match r
    case DeleteReq(id, thread, permanent, now) =>
      if db.msgs[id].sent.None? {
        DropKeepsBatches(db, {id});
      } else if permanent {
        var marked := AfterMark(db, caller, id, thread, now);
        DropKeepsBatches(marked, Removable(c, marked, Subtree(db, caller, id), now));
      }
    case RestoreReq(_, _) =>
    case CreateReq(d) => PutKeepsBatches(db, db.nextId, NewMessage(caller, d));
    case ReactReq(_, _, _, _, _, _) => PutKeepsBatches(db, db.nextId, after.msgs[db.nextId]);
    case _ =>
      assert BatchRowsValid(db.msgs[r.id]);
      PutKeepsBatches(db, r.id, after.msgs[r.id]);
  }

  lemma RunAfterKeepsBatches(c: Config, w: World, after: After)
    requires BatchesValid(w.db)
    ensures BatchesValid(RunAfter(c, w, after).db)
  {
    if after.Deliver? && after.id in w.db.msgs {
      assert BatchRowsValid(w.db.msgs[after.id]);
      PutKeepsBatches(w.db, after.id, DeliverTo(c, w.db.msgs[after.id], after));
    }
  }

  lemma ConcludeKeepsBatches(c: Config, w: World, o: Outcome, commit: Commit)
    requires BatchesValid(w.db) && o.Done? && BatchesValid(o.db)
    ensures BatchesValid(Conclude(c, w, o, commit).db)
  {
    if commit == Acknowledged {
      RunAfterKeepsBatches(c, w.(db := o.db, files := w.files + o.created - o.removed), o.after);
    }
  }

  /** Every step keeps added recipients' rows in batches that are there. */
  lemma StepKeepsBatches(c: Config, w: World, e: Event)
    requires BatchesValid(w.db)
    ensures BatchesValid(Step(c, w, e).db)
  {
    match e
    case Api(caller, req, commit) =>
      if Handle(c, w.db, caller, req).Done? {
        HandleKeepsBatches(c, w.db, caller, req);
        ConcludeKeepsBatches(c, w, Handle(c, w.db, caller, req), commit);
      }
    case Receive(m) =>
      if MayReceive(c, w, m) {
        PutKeepsBatches(w.db, w.db.nextId, m);
      }
    case SetOutcome(id, row, outcome) =>
      if MaySetOutcome(c, w.db, id, row) {
        assert BatchRowsValid(w.db.msgs[id]);
        PutKeepsBatches(w.db, id, WithOutcome(w.db.msgs[id], row, outcome));
      }
  }

  // ---- Runs ----

  lemma {:induction false} RunKeepsBatches(c: Config, w: World, events: seq<Event>)
    requires BatchesValid(w.db)
    ensures BatchesValid(Run(c, w, events).db)
    decreases |events|
  {
    if events != [] {
      StepKeepsBatches(c, w, events[0]);
      RunKeepsBatches(c, Step(c, w, events[0]), events[1..]);
    }
  }

  lemma {:induction false} RunKeepsGood(c: Config, w: World, events: seq<Event>)
    requires Good(w.db)
    ensures Good(Run(c, w, events).db)
    decreases |events|
  {
    if events != [] {
      StepKeepsGood(c, w, events[0]);
      RunKeepsGood(c, Step(c, w, events[0]), events[1..]);
    }
  }

  lemma EmptyIsGood()
    ensures Good(EMPTY_DB)
  {
    assert Ranks(EMPTY_DB, map[]);
  }

  /** In every reachable state no message is its own ancestor, every parent is
      stored, sent and not terminal, and so drafts and terminal messages have
      no replies. */
  lemma ReachableIsForest(c: Config, w: World)
    requires Reachable(c, w)
    ensures Good(w.db)
    ensures forall id: MsgId, n: nat :: n > 0 ==> Ancestor(w.db, id, n) != Some(id)
    ensures forall id :: id in w.db.msgs && w.db.msgs[id].pid.Some? ==>
              var p := w.db.msgs[id].pid.value;
              p in w.db.msgs && w.db.msgs[p].sent.Some? && !w.db.msgs[p].terminal
  {
    var events :| w == Run(c, EMPTY_HOST, events);
    EmptyIsGood();
    RunKeepsGood(c, EMPTY_HOST, events);
    forall id: MsgId, n: nat | n > 0 ensures Ancestor(w.db, id, n) != Some(id) {
      NoCycle(w.db, id, n);
    }
    forall id | id in w.db.msgs && w.db.msgs[id].pid.Some? ensures Linkable(w.db, w.db.msgs[id].pid.value) {
      KeepsOwnParent(w.db, id);
    }
  }
}
