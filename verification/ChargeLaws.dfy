/**
 What each step charges to an address or gives back, and what fmsgd does beside
 the requests, told from the rows and sizes (internal/handlers/messages.go,
 resolveLocalDelivery; internal/handlers/trash.go, usageOf).
*/
module ChargeLaws {
  import opened Basics
  import opened Store
  import opened Walks
  import opened Trash
  import opened Operations
  import opened Host
  import opened Structure
  import opened FileSafety
  import opened Bystanders
  import opened Finality
  import opened TrashLaws
  import opened RequestLaws

  // ---- What is charged ----

  /** The size of all that is stored of a message. */
  ghost function SizeStored(m: Message): (n: int) {
    Total(map p | p in m.parts :: m.parts[p].size)
  }

  /** The size a message is charged at: what came compressed from another host
      counts at its size before. */
  ghost function SizeCharged(c: Config, m: Message): (n: int) {
    if c.local != "" && m.from.domain == c.local then SizeStored(m)
    else Total(map p | p in m.parts :: if p in m.expanded then m.expanded[p] else m.parts[p].size)
  }

  predicate GotDirectly(db: Db, id: MsgId, b: Addr) {
    id in db.msgs && b in db.msgs[id].to && db.msgs[id].to[b].delivered.Some?
  }

  predicate GotAdded(db: Db, id: MsgId, b: Addr) {
    id in db.msgs && b in db.msgs[id].addTo && db.msgs[id].addTo[b].delivery.delivered.Some?
  }

  /** The size of message id once for each row of b's the step delivered. */
  ghost function NewlyGot(db: Db, after: Db, id: MsgId, b: Addr): (n: int)
    requires id in after.msgs
  {
    (if GotDirectly(after, id, b) && !GotDirectly(db, id, b) then SizeStored(after.msgs[id]) else 0)
    + (if GotAdded(after, id, b) && !GotAdded(db, id, b) then SizeStored(after.msgs[id]) else 0)
  }

  /** Sending and reacting charge the size to the caller as sent; they and adding
      charge it to each recipient as received for each row delivered. */
  lemma DeliveryCharges(c: Config, w: World, a: Addr, r: Request, b: Addr)
    requires Good(w.db) && (r.SendReq? || r.AddReq? || r.ReactReq?)
    requires Handle(c, w.db, a, r).Done? && Handle(c, w.db, a, r).created !! w.files
    ensures var after := Step(c, w, Api(a, r, Acknowledged));
            var id := if r.ReactReq? then w.db.nextId else r.id;
            && id in after.db.msgs
            && Count(after.send, b) == Count(w.send, b) + (if b == a && !r.AddReq? then SizeStored(after.db.msgs[id]) else 0)
            && Count(after.recv, b) == Count(w.recv, b) + NewlyGot(w.db, after.db, id, b)
  {
    var o := Handle(c, w.db, a, r);
    AcknowledgedStep(c, w, a, r, o);
    var id := if r.ReactReq? then w.db.nextId else r.id;
    WritesWanted(c, w, a, r, id);
    DeliveredCharges(c, w.(db := o.db, files := w.files + o.created - o.removed), w.db, o.after, id, b);
  }

  /** What the three write before delivery: one row, in which nobody new has it. */
  lemma WritesWanted(c: Config, w: World, a: Addr, r: Request, id: MsgId)
    requires Good(w.db) && (r.SendReq? || r.AddReq? || r.ReactReq?)
    requires Handle(c, w.db, a, r).Done? && id == if r.ReactReq? then w.db.nextId else r.id
    ensures var o := Handle(c, w.db, a, r);
            && id in o.db.msgs && (!r.AddReq? ==> o.db.msgs[id].from == a)
            && (if o.after.Deliver? then o.after.id == id && (o.after.recordSend <==> !r.AddReq?)
                else r.AddReq? && o.after == Nothing)
            && forall b :: (GotDirectly(o.db, id, b) <==> GotDirectly(w.db, id, b))
                           && (GotAdded(o.db, id, b) <==> GotAdded(w.db, id, b))
  {
  }

  lemma DeliveredCharges(c: Config, w: World, before: Db, d: After, id: MsgId, b: Addr)
    requires id in w.db.msgs && (d == Nothing || (d.Deliver? && d.id == id))
    requires GotDirectly(w.db, id, b) <==> GotDirectly(before, id, b)
    requires GotAdded(w.db, id, b) <==> GotAdded(before, id, b)
    ensures var after := RunAfter(c, w, d);
            && id in after.db.msgs
            && Count(after.send, b) == Count(w.send, b)
                 + (if d.Deliver? && d.recordSend && b == w.db.msgs[id].from then SizeStored(after.db.msgs[id]) else 0)
            && Count(after.recv, b) == Count(w.recv, b) + NewlyGot(before, after.db, id, b)
  {
    if d.Deliver? {
      PostedIs(w.db.msgs[id], DeliverTo(c, w.db.msgs[id], d), b);
    }
  }

  lemma PostedIs(m: Message, m': Message, b: Addr)
    requires m'.parts == m.parts
    ensures StoredSize(m) == SizeStored(m')
    ensures Count(RecvPosts(m, m'), b) == Gained(m, m', b, SizeStored(m'))
  {
    assert Sizes(m.parts) == map p | p in m.parts :: m.parts[p].size;
  }

  /** The size a message was charged to b at, once if b sent it, or once for each of its rows. */
  ghost function ChargedTo(c: Config, db: Db, id: MsgId, b: Addr, sent: bool): (n: int)
    requires id in db.msgs
  {
    var size := SizeCharged(c, db.msgs[id]);
    if sent then if db.msgs[id].from == b then size else 0
    else (if GotDirectly(db, id, b) then size else 0) + (if GotAdded(db, id, b) then size else 0)
  }

  /** The messages of b's thread that b had not deleted for good, with what each was charged at. */
  ghost function NotYetDeleted(c: Config, db: Db, b: Addr, top: MsgId, sent: bool): (sizes: map<MsgId, int>) {
    map id | id in db.msgs && InThreadOf(db, b, top, id) && !((b, id) in db.trash && db.trash[(b, id)].purged.Some?)
      :: ChargedTo(c, db, id, b, sent)
  }

  /** An acknowledged purge gives back to the caller, as sent and as received, what
      the messages of its thread it had not deleted for good were charged at; and
      nothing to anybody else. */
  lemma PurgeReleases(c: Config, w: World, e: Event, b: Addr)
    requires CommittedPurge(w.db, e) && e.commit == Acknowledged
    ensures var after := Step(c, w, e);
            && Count(after.send, b) == Count(w.send, b)
                 - (if b == e.caller then Total(NotYetDeleted(c, w.db, b, e.req.id, true)) else 0)
            && Count(after.recv, b) == Count(w.recv, b)
                 - (if b == e.caller then Total(NotYetDeleted(c, w.db, b, e.req.id, false)) else 0)
  {
    assert e == Api(e.caller, e.req, Acknowledged);
    var o := Handle(c, w.db, e.caller, e.req);
    PurgeHandled(c, w.db, e.caller, e.req);
    AcknowledgedStep(c, w, e.caller, e.req, o);
    ReleasePosts(c, w, o);
    GivenUpIs(c, w.db, e.caller, e.req.id, true);
    GivenUpIs(c, w.db, e.caller, e.req.id, false);
  }

  lemma ReleasePosts(c: Config, w: World, o: Outcome)
    requires o.Done? && o.after.Release?
    ensures var after := Conclude(c, w, o, Acknowledged);
            && after.send == Plus(w.send, map[o.after.addr := -o.after.send])
            && after.recv == Plus(w.recv, map[o.after.addr := -o.after.recv])
  {
    ReleaseRuns(c, w.(db := o.db, files := w.files + o.created - o.removed), o.after);
  }

  lemma ReleaseRuns(c: Config, w: World, after: After)
    requires after.Release?
    ensures RunAfter(c, w, after).send == Plus(w.send, map[after.addr := -after.send])
    ensures RunAfter(c, w, after).recv == Plus(w.recv, map[after.addr := -after.recv])
  {
  }

  lemma PurgeHandled(c: Config, db: Db, a: Addr, r: Request)
    requires Purges(db, r) && MayTrash(db, a, r.id)
    ensures var o, ids := Handle(c, db, a, r), Subtree(db, a, r.id);
            && o.Done? && o.created == {}
            && o.after == Release(a, Released(c, db, a, ids, Sent), Released(c, db, a, ids, Received))
  {
  }

  lemma GivenUpIs(c: Config, db: Db, b: Addr, top: MsgId, sent: bool)
    ensures GivenUp(c, db, b, Subtree(db, b, top), if sent then Sent else Received) == NotYetDeleted(c, db, b, top, sent)
  {
    forall id | id in db.msgs ensures id in Subtree(db, b, top) <==> InThreadOf(db, b, top, id) {
      SubtreeIs(db, b, top, id);
    }
    forall id | id in db.msgs && db.msgs[id].sent.Some?
      ensures Owed(c, db.msgs[id], b, if sent then Sent else Received) == ChargedTo(c, db, id, b, sent)
    {
      ChargedIs(c, db.msgs[id]);
    }
  }

  lemma ChargedIs(c: Config, m: Message)
    ensures RecordedSize(c, m) == SizeCharged(c, m)
  {
    assert Sizes(m.parts) == map p | p in m.parts :: m.parts[p].size;
    assert ExpandedSizes(m) == map p | p in m.parts :: if p in m.expanded then m.expanded[p] else m.parts[p].size;
  }

  /** The other requests charge nothing, nor does one that is not acknowledged. */
  lemma OthersChargeNothing(c: Config, w: World, a: Addr, r: Request, commit: Commit)
    requires Good(w.db)
    requires commit == Acknowledged ==> !(r.SendReq? || r.AddReq? || r.ReactReq?) && !Purges(w.db, r)
    ensures var after := Step(c, w, Api(a, r, commit));
            after.send == w.send && after.recv == w.recv
  {
    var o := Handle(c, w.db, a, r);
    if o.Done? {
      if commit == Acknowledged {
        LeavesNothing(c, w.db, a, r);
      }
      PostsNothing(c, w, o, commit);
    }
  }

  lemma LeavesNothing(c: Config, db: Db, a: Addr, r: Request)
    requires !(r.SendReq? || r.AddReq? || r.ReactReq?) && !Purges(db, r)
    requires Handle(c, db, a, r).Done?
    ensures Handle(c, db, a, r).after == Nothing
  {
  }

  lemma PostsNothing(c: Config, w: World, o: Outcome, commit: Commit)
    requires o.Done? && (commit == Acknowledged ==> o.after == Nothing)
    ensures Conclude(c, w, o, commit).send == w.send && Conclude(c, w, o, commit).recv == w.recv
  {
  }

  // ---- What fmsgd does beside ----

  /** A message from another host is stored under the next id with its files, in
      answer to none or to a sent message that is not terminal; its size is charged
      to each recipient here that it was delivered to. */
  lemma ReceiveStores(c: Config, w: World, m: Message, b: Addr)
    requires m.sent.Some? && !(c.local != "" && m.from.domain == c.local) && m.addTo == map[] && m.batches == []
    requires m.pid.Some? ==> var up := m.pid.value; up in w.db.msgs && w.db.msgs[up].sent.Some? && !w.db.msgs[up].terminal
    requires forall p :: p in m.parts ==> m.parts[p].path !in w.files
    requires FilesSafe(w.db, w.files)
    ensures var after := Step(c, w, Receive(m));
            && OnlyTouches(w.db, after.db, w.db.nextId) && w.db.nextId in after.db.msgs && after.db.msgs[w.db.nextId] == m
            && (forall path :: path in after.files
                  <==> path in w.files || exists p :: p in m.parts && m.parts[p].path == path)
            && after.send == w.send
            && Count(after.recv, b) == Count(w.recv, b)
                 + (if c.local != "" && b.domain == c.local && b in m.to && m.to[b].delivered.Some?
                    then SizeCharged(c, m) else 0)
  {
    ReceiveAllowed(c, w, m);
    ChargedIs(c, m);
    assert Count(ReceivedPosts(c, m), b)
        == if c.local != "" && b.domain == c.local && b in m.to && m.to[b].delivered.Some? then SizeCharged(c, m) else 0;
  }

  lemma ReceiveAllowed(c: Config, w: World, m: Message)
    requires m.sent.Some? && !Local(c, m.from) && m.addTo == map[] && m.batches == []
    requires m.pid.Some? ==> Linkable(w.db, m.pid.value)
    requires forall p :: p in m.parts ==> m.parts[p].path !in w.files
    requires FilesSafe(w.db, w.files)
    ensures MayReceive(c, w, m)
  {
    forall p, id | p in m.parts && id in w.db.msgs && w.db.msgs[id].sent.None?
      ensures !Uses(w.db.msgs[id], m.parts[p].path)
    {
      if q :| q in w.db.msgs[id].parts && w.db.msgs[id].parts[q].path == m.parts[p].path {
        assert Has(w.db, id, q);
      }
    }
  }

  /** Of a sent message fmsgd sets the outcome of a row for another host, or of a
      notice, until it is delivered; nothing else changes. */
  lemma OutcomeIsSet(c: Config, w: World, id: MsgId, b: Addr, outcome: Delivery)
    requires id in w.db.msgs && w.db.msgs[id].sent.Some? && !(c.local != "" && b.domain == c.local)
    ensures var m := w.db.msgs[id];
            && (b in m.to && m.to[b].delivered.None? ==>
                  RowSet(w, Step(c, w, SetOutcome(id, ToRow(b), outcome)), id, m.(to := m.to[b := outcome])))
            && (b in m.addTo && m.addTo[b].delivery.delivered.None? ==>
                  RowSet(w, Step(c, w, SetOutcome(id, AddToRow(b), outcome)), id,
                         m.(addTo := m.addTo[b := Added(m.addTo[b].batch, outcome)])))
  {
  }

  lemma NoticeIsSet(c: Config, w: World, id: MsgId, i: nat, d: Domain, outcome: Delivery)
    requires id in w.db.msgs && w.db.msgs[id].sent.Some? && i < |w.db.msgs[id].batches|
    requires d in w.db.msgs[id].batches[i].notify && w.db.msgs[id].batches[i].notify[d].delivered.None?
    ensures var m := w.db.msgs[id];
            var told := Batch(m.batches[i].adder, m.batches[i].added, m.batches[i].notify[d := outcome]);
            RowSet(w, Step(c, w, SetOutcome(id, NotifyRow(i, d), outcome)), id, m.(batches := m.batches[i := told]))
  {
  }

  /** Message id has become m; all else is as it was. */
  predicate RowSet(w: World, after: World, id: MsgId, m: Message) {
    after == w.(db := after.db) && after.db.msgs == w.db.msgs[id := m] && after.db.trash == w.db.trash
  }
}
