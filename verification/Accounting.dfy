/**
 Storage accounting over whole runs: fmsgid's totals follow what is held, step
 by step, from an empty host; and the two ways in which they can come apart.
*/
module Accounting {
  import opened Basics
  import opened Store
  import opened Trash
  import opened Operations
  import opened Host
  import opened Structure
  import opened Ledger

  /** What a request leaves to be posted to fmsgid moves what is held this much
      before it is posted. */
  ghost function Announced(o: Outcome, a: Addr, way: Way): (n: int)
    requires o.Done? && (o.after.Deliver? ==> o.after.id in o.db.msgs)
  {
    match o.after
    case Nothing => 0
    case Release(b, send, recv) => if a != b then 0 else if way == Sent then -send else -recv
    case Deliver(id, recordSend, _, _, _, _, _) =>
      if recordSend && way == Sent && o.db.msgs[id].from == a then StoredSize(o.db.msgs[id]) else 0
  }

  /** The message a request delivers is stored, sent, and either fresh from this
      host or the one recipients were added to. */
  lemma DeliversStored(c: Config, db: Db, caller: Addr, r: Request)
    requires Good(db) && Handle(c, db, caller, r).Done? && Handle(c, db, caller, r).after.Deliver?
    ensures var o := Handle(c, db, caller, r);
            && o.after.id in o.db.msgs && o.db.msgs[o.after.id].sent.Some?
            && (o.after.recordSend ==> o.db.msgs[o.after.id].expanded == map[])
            && (!o.after.recordSend ==> r.AddReq? && r.id == o.after.id && r.id in db.msgs
                                        && o.db.msgs[r.id].parts == db.msgs[r.id].parts
                                        && o.db.msgs[r.id].expanded == db.msgs[r.id].expanded
                                        && o.db.msgs[r.id].from == db.msgs[r.id].from)
  {
  }

  lemma SendMoves(c: Config, db: Db, id: MsgId, m: Message, a: Addr, way: Way)
    requires Good(db) && Local(c, a) && m.sent.Some? && DraftPlain(m)
    requires if id in db.msgs then db.msgs[id].sent.None? else id == db.nextId
    ensures Holding(c, Put(db, id, m), a, way)
            == Holding(c, db, a, way) + if way == Sent && m.from == a then StoredSize(m) else 0
  {
    PutMoves(c, db, id, m, a, way);
    assert !OwnPurged(Put(db, id, m), a, id);
    if id in db.msgs {
      DraftCountsNothing(c, db, id, a, way);
    }
  }

  /** Editing a draft changes nothing anyone holds. */
  lemma DraftEditMoves(c: Config, db: Db, caller: Addr, r: Request, a: Addr, way: Way)
    requires Good(db) && Handle(c, db, caller, r).Done?
    requires r.CreateReq? || r.UpdateReq? || r.UploadReq? || r.DeleteAttachmentReq?
    ensures Handle(c, db, caller, r).after == Nothing
    ensures Holding(c, Handle(c, db, caller, r).db, a, way) == Holding(c, db, a, way)
  {
    match r
    case CreateReq(d) => DraftPutMoves(c, db, db.nextId, NewMessage(caller, d), a, way);
    case UpdateReq(id, d) => DraftPutMoves(c, db, id, Updated(db.msgs[id], d), a, way);
    case UploadReq(id, name, file) =>
      DraftPutMoves(c, db, id, db.msgs[id].(parts := db.msgs[id].parts[Attachment(name) := file]), a, way);
    case DeleteAttachmentReq(id, name) =>
      DraftPutMoves(c, db, id, db.msgs[id].(parts := db.msgs[id].parts - {Attachment(name)}), a, way);
  }

  lemma DeleteDraftMoves(c: Config, db: Db, caller: Addr, id: MsgId, a: Addr, way: Way)
    requires DraftsPlain(db) && DeleteDraft(db, caller, id).Done?
    ensures Holding(c, DeleteDraft(db, caller, id).db, a, way) == Holding(c, db, a, way)
  {
    DraftCountsNothing(c, db, id, a, way);
    DropMoves(c, db, {id}, a, way);
  }

  lemma TrashingMoves(c: Config, db: Db, caller: Addr, id: MsgId, thread: bool, now: Time, a: Addr, way: Way)
    requires TrashSent(db, caller, id, thread, now).Done?
    ensures Holding(c, TrashSent(db, caller, id, thread, now).db, a, way) == Holding(c, db, a, way)
  {
    TrashMoves(c, db, MarkTrashed(db, caller, id, thread, now), a, way);
  }

  /** Deleting a draft, trashing and purging move what they announce. */
  lemma DeleteMoves(c: Config, db: Db, caller: Addr, r: Request, a: Addr, way: Way)
    requires Good(db) && Local(c, a) && r.DeleteReq? && Handle(c, db, caller, r).Done?
    ensures var o := Handle(c, db, caller, r);
            !o.after.Deliver? && Holding(c, o.db, a, way) == Holding(c, db, a, way) + Announced(o, a, way)
  {
    var DeleteReq(id, thread, permanent, now) := r;
    if db.msgs[id].sent.None? {
      DeleteDraftMoves(c, db, caller, id, a, way);
    } else if permanent {
      PurgeMoves(c, db, caller, id, thread, now, a, way);
    } else {
      TrashingMoves(c, db, caller, id, thread, now, a, way);
    }
  }

  /** Each request changes what a local address holds by exactly what it leaves
      to be posted. */
  lemma HandleMoves(c: Config, db: Db, caller: Addr, r: Request, a: Addr, way: Way)
    requires Good(db) && Local(c, a) && Handle(c, db, caller, r).Done?
    requires var o := Handle(c, db, caller, r); o.after.Deliver? ==> o.after.id in o.db.msgs
    ensures var o := Handle(c, db, caller, r);
            Holding(c, o.db, a, way) == Holding(c, db, a, way) + Announced(o, a, way)
  {
    var o := Handle(c, db, caller, r);
    match r
    case CreateReq(_) => DraftEditMoves(c, db, caller, r, a, way);
    case UpdateReq(_, _) => DraftEditMoves(c, db, caller, r, a, way);
    case UploadReq(_, _, _) => DraftEditMoves(c, db, caller, r, a, way);
    case DeleteAttachmentReq(_, _) => DraftEditMoves(c, db, caller, r, a, way);
    case DeleteReq(_, _, _, _) => DeleteMoves(c, db, caller, r, a, way);
    case SendReq(id, _, _, _, _) => SendMoves(c, db, id, o.db.msgs[id], a, way);
    case ReactReq(_, _, _, _, _, _) => SendMoves(c, db, db.nextId, o.db.msgs[db.nextId], a, way);
    case AddReq(id, added, now, _) => AddingMoves(c, db, id, caller, added, now, a, way);
    case RestoreReq(_, _) => TrashMoves(c, db, o.db, a, way);
  }

  lemma AddingMoves(c: Config, db: Db, id: MsgId, caller: Addr, added: set<Addr>, now: Time, a: Addr, way: Way)
    requires id in db.msgs && added !! db.msgs[id].addTo.Keys
    ensures Holding(c, Put(db, id, WithBatch(c, db.msgs[id], caller, added, now)), a, way) == Holding(c, db, a, way)
  {
    SameOwedMoves(c, db, id, WithBatch(c, db.msgs[id], caller, added, now), a, way);
  }

  // ---- Posting ----

  /** How far fmsgid's totals for a are from what it holds and what reached it
      after it had deleted that message for good. */
  ghost function Excess(c: Config, w: World, a: Addr, way: Way): (n: int) {
    match way
    case Sent => Count(w.send, a) - Holding(c, w.db, a, Sent)
    case Received => Count(w.recv, a) - Holding(c, w.db, a, Received) - Count(w.late, a)
  }

  ghost predicate ConservedFor(c: Config, w: World, a: Addr) {
    && Count(w.send, a) == Holding(c, w.db, a, Sent)
    && Count(w.recv, a) == Holding(c, w.db, a, Received) + Count(w.late, a)
  }

  /** What delivering d posts for a, and how much of it is late. */
  lemma DeliveryPosts(c: Config, w: World, d: After, a: Addr)
    requires d.Deliver? && d.id in w.db.msgs
    ensures var m := w.db.msgs[d.id];
            var posted := Posted(m, DeliverTo(c, m, d), a);
            var after := RunAfter(c, w, d);
            && Count(after.send, a) == Count(w.send, a) + (if d.recordSend && m.from == a then StoredSize(m) else 0)
            && Count(after.recv, a) == Count(w.recv, a) + posted
            && Count(after.late, a) == Count(w.late, a) + (if OwnPurged(w.db, a, d.id) then posted else 0)
            && after.db == Put(w.db, d.id, DeliverTo(c, m, d))
  {
    var m := w.db.msgs[d.id];
    var m' := DeliverTo(c, m, d);
    assert Count(RecvPosts(m, m'), a) == Posted(m, m', a);
    assert Count(LatePosts(w.db, d.id, m, m'), a) == if OwnPurged(w.db, a, d.id) then Posted(m, m', a) else 0;
  }

  /** How much more local delivery records for a than a purge will release. */
  ghost function Mismatch(c: Config, db: Db, d: After, a: Addr): (n: int)
    requires d.Deliver? && d.id in db.msgs
  {
    var m := db.msgs[d.id];
    var m' := DeliverTo(c, m, d);
    if OwnPurged(db, a, d.id) then 0 else Gained(m, m', a, StoredSize(m)) - Gained(m, m', a, RecordedSize(c, m))
  }

  lemma DeliveryExcess(c: Config, w: World, d: After, a: Addr)
    requires d.Deliver? && d.id in w.db.msgs
    ensures var m := w.db.msgs[d.id];
            Excess(c, RunAfter(c, w, d), a, Sent)
            == Excess(c, w, a, Sent) + if d.recordSend && m.from == a then StoredSize(m) else 0
    ensures Excess(c, RunAfter(c, w, d), a, Received) == Excess(c, w, a, Received) + Mismatch(c, w.db, d, a)
  {
    DeliveryMoves(c, w.db, d, a);
    DeliveryPosts(c, w, d, a);
  }

  /** Posting what was announced, at the sizes local delivery takes. */
  lemma PostingExcess(c: Config, w: World, o: Outcome, a: Addr, way: Way)
    requires o.Done? && w.db == o.db && (o.after.Deliver? ==> o.after.id in o.db.msgs)
    ensures Excess(c, RunAfter(c, w, o.after), a, way)
            == Excess(c, w, a, way) + Announced(o, a, way)
               + if o.after.Deliver? && way == Received then Mismatch(c, o.db, o.after, a) else 0
  {
    if o.after.Deliver? {
      DeliveryExcess(c, w, o.after, a);
    }
  }

  /** What each end of a request does to how far a's totals are off. */
  lemma ConcludeExcess(c: Config, w: World, o: Outcome, commit: Commit, a: Addr, way: Way)
    requires o.Done? && (o.after.Deliver? ==> o.after.id in o.db.msgs)
    requires Holding(c, o.db, a, way) == Holding(c, w.db, a, way) + Announced(o, a, way)
    ensures Excess(c, Conclude(c, w, o, commit), a, way) - Excess(c, w, a, way)
            == match commit
               case StatementFailed => 0
               case NotCommitted => 0
               case AckLost => -Announced(o, a, way)
               case Acknowledged => if o.after.Deliver? && way == Received then Mismatch(c, o.db, o.after, a) else 0
  {
    if commit == Acknowledged {
      PostingExcess(c, w.(db := o.db, files := w.files + o.created - o.removed), o, a, way);
    }
  }

  // ---- Drift, as it can be told beforehand ----

  /** Adding recipients to a sent message will deliver it to a. */
  predicate AddingDelivers(db: Db, caller: Addr, id: MsgId, added: set<Addr>, codes: map<Addr, int>, a: Addr) {
    MayAdd(db, caller, id, added) && db.msgs[id].sent.Some? && a in added && a in codes && codes[a] == ACCEPTED
  }

  /** How far an event takes a local address's totals away from what it holds,
      read off the event and the state before it. Two kinds of event do: one
      whose acknowledgement is lost leaves a send, a reaction or a purge
      unposted; and adding a to a received message that it has not deleted for
      good records the stored size, where a purge will release the recorded one. */
  ghost function Drift(c: Config, w: World, e: Event, a: Addr, way: Way): (n: int) {
    match e
    case Api(caller, SendReq(id, admitted, _, _, _), AckLost) =>
      if way == Sent && a == caller && MaySend(w.db, caller, id, admitted) then -StoredSize(w.db.msgs[id]) else 0
    case Api(caller, ReactReq(id, file, idle, admitted, _, _), AckLost) =>
      if way == Sent && a == caller && MayReact(w.db, caller, id, idle, admitted) && file.path !in w.files
      then -(file.size as int) else 0
    case Api(caller, DeleteReq(id, _, permanent, _), AckLost) =>
      if a == caller && permanent && MayTrash(w.db, caller, id) && w.db.msgs[id].sent.Some?
      then Released(c, w.db, caller, Subtree(w.db, caller, id), way) else 0
    case Api(caller, AddReq(id, added, _, codes), Acknowledged) =>
      if way == Received && AddingDelivers(w.db, caller, id, added, codes, a) && !OwnPurged(w.db, a, id)
      then StoredSize(w.db.msgs[id]) - RecordedSize(c, w.db.msgs[id]) else 0
    case _ => 0
  }

  lemma FreshBodySize(file: Stored)
    ensures Total(Sizes(map[Body := file])) == file.size
  {
    var sizes := Sizes(map[Body := file]);
    TotalSplit(sizes, Body);
    assert sizes - {Body} == map[];
  }

  /** A lost acknowledgement leaves unposted what the request announced. */
  lemma LostIsDrift(c: Config, w: World, caller: Addr, r: Request, a: Addr, way: Way)
    requires Good(w.db) && Handle(c, w.db, caller, r).Done? && Handle(c, w.db, caller, r).created !! w.files
    ensures var o := Handle(c, w.db, caller, r);
            && (o.after.Deliver? ==> o.after.id in o.db.msgs)
            && Drift(c, w, Api(caller, r, AckLost), a, way) == -Announced(o, a, way)
  {
    if r.ReactReq? {
      FreshBodySize(r.file);
    }
  }

  /** What is sent from here is stored at the size recorded for it. */
  lemma SentSizesAgree(c: Config, db: Db, caller: Addr, r: Request, a: Addr)
    requires Good(db) && Handle(c, db, caller, r).Done? && Handle(c, db, caller, r).after.Deliver? && !r.AddReq?
    ensures var o := Handle(c, db, caller, r);
            o.after.id in o.db.msgs && Mismatch(c, o.db, o.after, a) == 0
  {
    DeliversStored(c, db, caller, r);
    var o := Handle(c, db, caller, r);
    NothingExpanded(c, o.db.msgs[o.after.id]);
  }

  lemma AddedGains(c: Config, before: Message, m: Message, d: After, added: set<Addr>, a: Addr)
    requires Local(c, a) && added !! before.addTo.Keys && d.Deliver? && d.to == {} && d.addTo == added
    requires m.to == before.to && m.addTo == before.addTo + map b | b in added :: Added(|before.batches|, PENDING)
    ensures forall size :: Gained(m, DeliverTo(c, m, d), a, size)
              == if a in added && a in d.addToCodes && d.addToCodes[a] == ACCEPTED then size else 0
  {
    assert a in added ==> m.addTo[a].delivery == PENDING;
  }

  /** What delivering to added recipients records amiss. */
  lemma AddingMismatch(c: Config, db: Db, caller: Addr, id: MsgId, added: set<Addr>, now: Time,
                       codes: map<Addr, int>, a: Addr)
    requires Local(c, a) && id in db.msgs && added !! db.msgs[id].addTo.Keys
    ensures var after := Put(db, id, WithBatch(c, db.msgs[id], caller, added, now));
            Mismatch(c, after, Deliver(id, false, {}, added, now, map[], codes), a)
            == if a in added && a in codes && codes[a] == ACCEPTED && !OwnPurged(db, a, id)
               then StoredSize(db.msgs[id]) - RecordedSize(c, db.msgs[id]) else 0
  {
    var m := WithBatch(c, db.msgs[id], caller, added, now);
    AddedGains(c, db.msgs[id], m, Deliver(id, false, {}, added, now, map[], codes), added, a);
    SameSizes(c, db.msgs[id], m);
  }

  /** An acknowledged request drifts by what its local delivery records amiss. */
  lemma MismatchIsDrift(c: Config, w: World, caller: Addr, r: Request, a: Addr, way: Way)
    requires Good(w.db) && Local(c, a) && Handle(c, w.db, caller, r).Done?
    ensures var o := Handle(c, w.db, caller, r);
            && (o.after.Deliver? ==> o.after.id in o.db.msgs)
            && Drift(c, w, Api(caller, r, Acknowledged), a, way)
               == if o.after.Deliver? && way == Received then Mismatch(c, o.db, o.after, a) else 0
  {
    var o := Handle(c, w.db, caller, r);
    if o.after.Deliver? {
      if r.AddReq? {
        AddingMismatch(c, w.db, caller, r.id, r.added, r.now, r.addToCodes, a);
      } else {
        SentSizesAgree(c, w.db, caller, r, a);
      }
    }
  }

  /** Refused or clashing requests change nothing, and drift by nothing. */
  lemma NoDriftUnlessDone(c: Config, w: World, caller: Addr, r: Request, commit: Commit, a: Addr, way: Way)
    requires var o := Handle(c, w.db, caller, r); o.Refused? || !(o.created !! w.files)
    ensures Drift(c, w, Api(caller, r, commit), a, way) == 0
  {
  }

  lemma ApiDrifts(c: Config, w: World, caller: Addr, r: Request, commit: Commit, a: Addr, way: Way)
    requires Good(w.db) && Local(c, a)
    ensures Excess(c, Step(c, w, Api(caller, r, commit)), a, way)
            == Excess(c, w, a, way) + Drift(c, w, Api(caller, r, commit), a, way)
  {
    var o := Handle(c, w.db, caller, r);
    if o.Refused? || !(o.created !! w.files) {
      NoDriftUnlessDone(c, w, caller, r, commit, a, way);
    } else {
      LostIsDrift(c, w, caller, r, a, way);
      MismatchIsDrift(c, w, caller, r, a, way);
      HandleMoves(c, w.db, caller, r, a, way);
      ConcludeExcess(c, w, o, commit, a, way);
    }
  }

  lemma ReceiveDrifts(c: Config, w: World, m: Message, a: Addr, way: Way)
    requires Good(w.db) && Local(c, a)
    ensures Excess(c, Step(c, w, Receive(m)), a, way) == Excess(c, w, a, way)
  {
    if MayReceive(c, w, m) {
      var after := Put(w.db, w.db.nextId, m);
      assert !OwnPurged(after, a, w.db.nextId);
      PutMoves(c, w.db, w.db.nextId, m, a, way);
      assert Count(ReceivedPosts(c, m), a) == Owed(c, m, a, Received);
    }
  }

  lemma OutcomeOwes(c: Config, db: Db, id: MsgId, row: RowRef, outcome: Delivery, a: Addr, way: Way)
    requires Local(c, a) && MaySetOutcome(c, db, id, row)
    ensures Owed(c, WithOutcome(db.msgs[id], row, outcome), a, way) == Owed(c, db.msgs[id], a, way)
  {
    var m, m' := db.msgs[id], WithOutcome(db.msgs[id], row, outcome);
    assert RecordedSize(c, m') == RecordedSize(c, m);
  }

  lemma OutcomeDrifts(c: Config, w: World, id: MsgId, row: RowRef, outcome: Delivery, a: Addr, way: Way)
    requires Local(c, a)
    ensures Excess(c, Step(c, w, SetOutcome(id, row, outcome)), a, way) == Excess(c, w, a, way)
  {
    if MaySetOutcome(c, w.db, id, row) {
      OutcomeOwes(c, w.db, id, row, outcome, a, way);
      SameOwedMoves(c, w.db, id, WithOutcome(w.db.msgs[id], row, outcome), a, way);
    }
  }

  /** Every event moves a's totals away from what it holds by its drift. */
  lemma StepDrifts(c: Config, w: World, e: Event, a: Addr, way: Way)
    requires Good(w.db) && Local(c, a)
    ensures Excess(c, Step(c, w, e), a, way) == Excess(c, w, a, way) + Drift(c, w, e, a, way)
  {
    match e
    case Api(caller, r, commit) => ApiDrifts(c, w, caller, r, commit, a, way);
    case Receive(m) => ReceiveDrifts(c, w, m, a, way);
    case SetOutcome(id, row, outcome) => OutcomeDrifts(c, w, id, row, outcome, a, way);
  }

  ghost predicate Drifts(c: Config, w: World, e: Event, a: Addr) {
    Drift(c, w, e, a, Sent) != 0 || Drift(c, w, e, a, Received) != 0
  }

  /** So totals that agree go on agreeing exactly when the event does not drift. */
  lemma StepConserves(c: Config, w: World, e: Event, a: Addr)
    requires Good(w.db) && Local(c, a) && ConservedFor(c, w, a)
    ensures ConservedFor(c, Step(c, w, e), a) <==> !Drifts(c, w, e, a)
  {
    StepDrifts(c, w, e, a, Sent);
    StepDrifts(c, w, e, a, Received);
  }

  /** The drifts of a run's events, added up. */
  ghost function Drifted(c: Config, w: World, events: seq<Event>, a: Addr, way: Way): (n: int)
    decreases |events|
  {
    if events == [] then 0
    else Drift(c, w, events[0], a, way) + Drifted(c, Step(c, w, events[0]), events[1..], a, way)
  }

  lemma {:induction false} RunDrifts(c: Config, w: World, events: seq<Event>, a: Addr, way: Way)
    requires Good(w.db) && Local(c, a)
    ensures Excess(c, Run(c, w, events), a, way) == Excess(c, w, a, way) + Drifted(c, w, events, a, way)
    decreases |events|
  {
    if events != [] {
      StepDrifts(c, w, events[0], a, way);
      StepKeepsGood(c, w, events[0]);
      RunDrifts(c, Step(c, w, events[0]), events[1..], a, way);
    }
  }

  /** From an empty host, over every run: fmsgid's totals for a local address
      are what it still holds, what was delivered to it after it had deleted
      that message for good, and the drifts of the events, and nothing else. */
  lemma UsageIs(c: Config, events: seq<Event>, a: Addr)
    requires Local(c, a)
    ensures var w := Run(c, EMPTY_HOST, events);
            && Count(w.send, a) == Holding(c, w.db, a, Sent) + Drifted(c, EMPTY_HOST, events, a, Sent)
            && Count(w.recv, a) == Holding(c, w.db, a, Received) + Count(w.late, a)
                                   + Drifted(c, EMPTY_HOST, events, a, Received)
  {
    EmptyIsGood();
    forall way ensures Excess(c, EMPTY_HOST, a, way) == 0 {
      assert Charges(c, EMPTY_DB, a, way) == map[];
    }
    RunDrifts(c, EMPTY_HOST, events, a, Sent);
    RunDrifts(c, EMPTY_HOST, events, a, Received);
  }

  ghost predicate NeverDrifts(c: Config, w: World, events: seq<Event>, a: Addr)
    decreases |events|
  {
    events == [] || (!Drifts(c, w, events[0], a) && NeverDrifts(c, Step(c, w, events[0]), events[1..], a))
  }

  lemma {:induction false} NoDriftAddsUp(c: Config, w: World, events: seq<Event>, a: Addr, way: Way)
    requires NeverDrifts(c, w, events, a)
    ensures Drifted(c, w, events, a, way) == 0
    decreases |events|
  {
    if events != [] {
      NoDriftAddsUp(c, Step(c, w, events[0]), events[1..], a, way);
    }
  }

  /** Over a run none of whose events drifts, whatever is sent, delivered,
      received, trashed, restored, purged (again) and removed, the totals are
      exactly what is still held plus what came late: no release is made twice
      or missed. */
  lemma UsageIsConserved(c: Config, events: seq<Event>, a: Addr)
    requires Local(c, a) && NeverDrifts(c, EMPTY_HOST, events, a)
    ensures var w := Run(c, EMPTY_HOST, events);
            && Count(w.send, a) == Holding(c, w.db, a, Sent)
            && Count(w.recv, a) == Holding(c, w.db, a, Received) + Count(w.late, a)
  {
    UsageIs(c, events, a);
    NoDriftAddsUp(c, EMPTY_HOST, events, a, Sent);
    NoDriftAddsUp(c, EMPTY_HOST, events, a, Received);
  }
}
