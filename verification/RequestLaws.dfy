/**
 What the other requests do, told from the rows of the tables and not from the
 steps that do it: who may make them, the row they leave, and that nothing else
 changes (internal/handlers/messages.go, references.go, reactions.go and
 attachments.go).
*/
module RequestLaws {
  import opened Basics
  import opened Store
  import opened Walks
  import opened Trash
  import opened Operations
  import opened Host
  import opened Structure

  // ---- What stays ----

  /** Every message but id, and all trash, is as it was. */
  ghost predicate OnlyTouches(db: Db, after: Db, id: MsgId) {
    && after.trash == db.trash
    && forall x :: x != id ==> (x in after.msgs <==> x in db.msgs) && (x in db.msgs ==> after.msgs[x] == db.msgs[x])
  }

  /** a's own unsent message. */
  predicate IsDraftOf(db: Db, a: Addr, id: MsgId) {
    id in db.msgs && db.msgs[id].from == a && db.msgs[id].sent.None?
  }

  /** A request that is refused changes nothing. Of one that is granted a failed
      statement leaves nothing behind, and a failed commit only the files it
      created; a lost acknowledgement stores its rows and the files it created, and
      an acknowledged commit also deletes the files it left. */
  lemma CommitEndings(c: Config, w: World, a: Addr, r: Request)
    ensures var o := Handle(c, w.db, a, r);
            && (o.Refused? ==> forall commit :: Step(c, w, Api(a, r, commit)) == w)
            && (o.Done? && o.created !! w.files ==>
                  && Step(c, w, Api(a, r, StatementFailed)) == w
                  && Step(c, w, Api(a, r, NotCommitted)) == w.(files := w.files + o.created)
                  && Step(c, w, Api(a, r, AckLost)) == w.(db := o.db, files := w.files + o.created)
                  && Step(c, w, Api(a, r, Acknowledged)).files == w.files + o.created - o.removed)
  {
    var o := Handle(c, w.db, a, r);
    if o.Done? {
      assert o.created !! w.files ==> w.files + o.created - o.created == w.files;
    }
  }

  // ---- Who may reply to what ----

  /** a may link a draft to the message referred to: it is stored, sent and not
      terminal, does not read deleted for good for a, and a sent it, received it,
      or was added to it in just the batch referred to. */
  predicate MayReplyTo(db: Db, a: Addr, ref: ParentRef) {
    && ref.id in db.msgs && StateOf(db, a, ref.id) != Purged
    && var m := db.msgs[ref.id];
       && m.sent.Some? && !m.terminal
       && (ref.InBatch? ==> ref.batch < |m.batches|)
       && (m.from == a || a in m.to || (ref.InBatch? && a in m.addTo && m.addTo[a].batch == ref.batch))
  }

  /** The parent of what is drafted as a reply to ref. */
  function ParentId(parent: Option<ParentRef>): (pid: Option<MsgId>) {
    match parent
    case None => None
    case Some(ref) => Some(ref.id)
  }

  /** The draft's parent is allowed, a reply brings no topic, and its data is
      within the limit. */
  predicate Draftable(c: Config, db: Db, a: Addr, d: Draft) {
    && (d.parent.Some? ==> !d.topic && MayReplyTo(db, a, d.parent.value)) && d.size <= c.maxDataSize
  }

  /** m has d's parent, flag and recipients, none of which has an outcome. */
  ghost predicate DraftedAs(m: Message, d: Draft) {
    && m.sent.None? && m.pid == ParentId(d.parent) && m.terminal == d.terminal
    && (forall b :: b in m.to <==> b in d.to) && (forall b :: b in m.to ==> m.to[b] == Delivery(None, None))
  }

  // ---- Drafts ----

  /** Creating stores one new draft of the caller's under the next id. */
  lemma CreateStoresDraft(c: Config, db: Db, a: Addr, d: Draft)
    ensures var o := Handle(c, db, a, CreateReq(d));
            && (o.Done? <==> d.to != {} && Draftable(c, db, a, d))
            && (o.Done? ==>
                  && db.nextId in o.db.msgs && o.db.nextId == db.nextId + 1 && OnlyTouches(db, o.db, db.nextId)
                  && var m := o.db.msgs[db.nextId];
                     && DraftedAs(m, d) && m.from == a && m.addTo == map[] && m.batches == [] && m.expanded == map[]
                     && m.parts == map[Body := Stored(d.path, d.size)]
                     && o.created == {d.path} && o.removed == {} && o.after == Nothing)
  {
  }

  /** The size of a message's attachments. */
  ghost function AttachedSize(m: Message): (n: int) {
    Total(map p | p in m.parts && p != Body :: m.parts[p].size)
  }

  lemma SizeWithBody(m: Message, body: Stored)
    ensures StoredSize(m.(parts := m.parts[Body := body])) == body.size + AttachedSize(m)
  {
    var sizes := Sizes(m.parts[Body := body]);
    TotalSplit(sizes, Body);
    assert sizes - {Body} == map p | p in m.parts && p != Body :: m.parts[p].size;
  }

  /** Updating rewrites an own draft: its parent, flag, recipients and body; what
      was attached and added stays, and the old body's file is left. */
  lemma UpdateRewritesDraft(c: Config, db: Db, a: Addr, id: MsgId, d: Draft)
    requires IdsBelow(db)
    ensures var o := Handle(c, db, a, UpdateReq(id, d));
            && (o.Done? <==> IsDraftOf(db, a, id) && Draftable(c, db, a, d)
                             && d.size + AttachedSize(db.msgs[id]) <= c.maxMsgSize)
            && (o.Done? ==>
                  && id in o.db.msgs && o.db.nextId == db.nextId && OnlyTouches(db, o.db, id)
                  && var m, m' := db.msgs[id], o.db.msgs[id];
                     && DraftedAs(m', d) && m'.from == a && m'.addTo == m.addTo && m'.batches == m.batches
                     && m'.expanded == m.expanded && m'.parts == m.parts[Body := Stored(d.path, d.size)]
                     && o.created == {d.path} && o.after == Nothing
                     && o.removed == if Body in m.parts then {m.parts[Body].path} else {})
  {
    if id in db.msgs {
      SizeWithBody(db.msgs[id].(pid := LinkedTo(d.parent), terminal := d.terminal, to := Unresolved(d.to)),
                   Stored(d.path, d.size));
    }
  }

  /** Deleting a draft, which only its owner may, takes its row, any trash rows of
      it and all its files. */
  lemma DeleteTakesDraft(c: Config, db: Db, a: Addr, id: MsgId, thread: bool, permanent: bool, now: Time)
    requires Good(db) && id in db.msgs && db.msgs[id].sent.None?
    ensures var o := Handle(c, db, a, DeleteReq(id, thread, permanent, now));
            && (o.Done? <==> db.msgs[id].from == a)
            && (o.Done? ==>
                  && id !in o.db.msgs && (forall x :: x in o.db.msgs ==> x in db.msgs && o.db.msgs[x] == db.msgs[x])
                  && (forall x :: x in db.msgs && x != id ==> x in o.db.msgs)
                  && (forall k :: k in o.db.trash <==> k in db.trash && k.1 != id)
                  && (forall k :: k in o.db.trash ==> o.db.trash[k] == db.trash[k])
                  && o.created == {} && o.after == Nothing
                  && forall path :: path in o.removed
                       <==> exists p :: p in db.msgs[id].parts && db.msgs[id].parts[p].path == path)
  {
    forall x | x in db.msgs && db.msgs[x].pid.Some? ensures db.msgs[x].pid.value != id {
      assert Linkable(db, db.msgs[x].pid.value);
    }
  }

  /** Uploading names one more attachment in an own draft, or another file for one
      of that name, within the limits on attachments and messages. */
  lemma UploadAttaches(c: Config, db: Db, a: Addr, id: MsgId, name: string, file: Stored)
    requires IdsBelow(db)
    ensures var o := Handle(c, db, a, UploadReq(id, name, file));
            && (o.Done? <==> IsDraftOf(db, a, id) && file.size <= c.maxAttachSize
                             && Total(map p | p in db.msgs[id].parts :: db.msgs[id].parts[p].size) + file.size
                                <= c.maxMsgSize)
            && (o.Done? ==>
                  && id in o.db.msgs && o.db.nextId == db.nextId && OnlyTouches(db, o.db, id)
                  && o.db.msgs[id] == db.msgs[id].(parts := db.msgs[id].parts[Attachment(name) := file])
                  && o.created == {file.path} && o.removed == {} && o.after == Nothing)
  {
    if id in db.msgs {
      assert Sizes(db.msgs[id].parts) == map p | p in db.msgs[id].parts :: db.msgs[id].parts[p].size;
    }
  }

  /** Deleting an attachment takes just it from an own draft, and leaves its file. */
  lemma DeleteAttachmentDetaches(c: Config, db: Db, a: Addr, id: MsgId, name: string)
    requires IdsBelow(db)
    ensures var o := Handle(c, db, a, DeleteAttachmentReq(id, name));
            && (o.Done? <==> IsDraftOf(db, a, id) && Attachment(name) in db.msgs[id].parts)
            && (o.Done? ==>
                  && id in o.db.msgs && o.db.nextId == db.nextId && OnlyTouches(db, o.db, id)
                  && var m, m' := db.msgs[id], o.db.msgs[id];
                     && m' == m.(parts := m'.parts)
                     && (forall p :: p in m'.parts <==> p in m.parts && p != Attachment(name))
                     && (forall p :: p in m'.parts ==> m'.parts[p] == m.parts[p])
                     && o.created == {} && o.removed == {m.parts[Attachment(name)].path} && o.after == Nothing)
  {
  }

  // ---- Sending and local delivery ----

  /** What local delivery makes of a row without an outcome: a local address that
      fmsgid answers for has the answer, and is delivered if that is 200. */
  function Resolution(c: Config, b: Addr, codes: map<Addr, int>, now: Time): (row: Delivery) {
    if c.local != "" && b.domain == c.local && b in codes
    then Delivery(if codes[b] == 200 then Some(now) else None, Some(codes[b]))
    else Delivery(None, None)
  }

  /** Sending makes an own draft that has recipients a sent message, and resolves
      its local recipients and added recipients; the rest of it stays. */
  lemma SendDelivers(c: Config, w: World, a: Addr, id: MsgId, admitted: bool, now: Time,
                     toCodes: map<Addr, int>, addToCodes: map<Addr, int>)
    requires Good(w.db)
    ensures var r := SendReq(id, admitted, now, toCodes, addToCodes);
            && (Handle(c, w.db, a, r).Done? <==> IsDraftOf(w.db, a, id) && w.db.msgs[id].to != map[] && admitted)
            && (Handle(c, w.db, a, r).Done? ==>
                  var after := Step(c, w, Api(a, r, Acknowledged));
                  && id in after.db.msgs && OnlyTouches(w.db, after.db, id) && after.files == w.files
                  && var m, m' := w.db.msgs[id], after.db.msgs[id];
                     && m' == m.(sent := Some(now), to := m'.to, addTo := m'.addTo)
                     && m'.to.Keys == m.to.Keys && m'.addTo.Keys == m.addTo.Keys
                     && (forall b :: b in m'.to ==> m'.to[b] == Resolution(c, b, toCodes, now))
                     && (forall b :: b in m'.addTo ==>
                           m'.addTo[b] == Added(m.addTo[b].batch, Resolution(c, b, addToCodes, now))))
  {
    var r := SendReq(id, admitted, now, toCodes, addToCodes);
    if Handle(c, w.db, a, r).Done? {
      SentStep(c, w, a, id, admitted, now, toCodes, addToCodes);
      var m := w.db.msgs[id];
      DeliveredRows(c, m, Deliver(id, true, m.to.Keys, m.addTo.Keys, now, toCodes, addToCodes));
    }
  }

  /** One row written and acknowledged, with what local delivery makes of it. */
  lemma OneRowWritten(c: Config, w: World, id: MsgId, m: Message, created: set<Path>, after: After)
    requires after == Nothing || (after.Deliver? && after.id == id)
    ensures var v := Conclude(c, w, Done(Put(w.db, id, m), created, {}, after), Acknowledged);
            && v.files == w.files + created && OnlyTouches(w.db, v.db, id) && id in v.db.msgs
            && v.db.msgs[id] == if after.Deliver? then DeliverTo(c, m, after) else m
  {
    assert w.files + created - {} == w.files + created;
  }

  lemma AcknowledgedStep(c: Config, w: World, a: Addr, r: Request, o: Outcome)
    requires Handle(c, w.db, a, r) == o && o.Done? && o.created !! w.files
    ensures Step(c, w, Api(a, r, Acknowledged)) == Conclude(c, w, o, Acknowledged)
  {
  }

  lemma SentStep(c: Config, w: World, a: Addr, id: MsgId, admitted: bool, now: Time,
                 toCodes: map<Addr, int>, addToCodes: map<Addr, int>)
    requires Good(w.db) && Handle(c, w.db, a, SendReq(id, admitted, now, toCodes, addToCodes)).Done?
    ensures var m := w.db.msgs[id];
            var after := Step(c, w, Api(a, SendReq(id, admitted, now, toCodes, addToCodes), Acknowledged));
            && after.files == w.files && OnlyTouches(w.db, after.db, id) && id in after.db.msgs
            && after.db.msgs[id]
               == DeliverTo(c, m.(sent := Some(now)), Deliver(id, true, m.to.Keys, m.addTo.Keys, now, toCodes, addToCodes))
  {
    var m, r := w.db.msgs[id], SendReq(id, admitted, now, toCodes, addToCodes);
    AcknowledgedStep(c, w, a, r, Handle(c, w.db, a, r));
    OneRowWritten(c, w, id, m.(sent := Some(now)), {},
                  Deliver(id, true, m.to.Keys, m.addTo.Keys, now, toCodes, addToCodes));
  }

  /** Local delivery gives the rows listed that have no outcome what Resolution
      says; every other row, and all else of the message, stays. */
  lemma DeliveredRows(c: Config, m: Message, d: After)
    requires d.Deliver?
    ensures var m' := DeliverTo(c, m, d);
            && m' == m.(to := m'.to, addTo := m'.addTo) && m'.to.Keys == m.to.Keys && m'.addTo.Keys == m.addTo.Keys
            && (forall b :: b in m'.to ==>
                  m'.to[b] == if b in d.to && m.to[b] == Delivery(None, None)
                              then Resolution(c, b, d.toCodes, d.now) else m.to[b])
            && (forall b :: b in m'.addTo ==>
                  m'.addTo[b] == if b in d.addTo && m.addTo[b].delivery == Delivery(None, None)
                                 then Added(m.addTo[b].batch, Resolution(c, b, d.addToCodes, d.now)) else m.addTo[b])
  {
  }

  // ---- Adding recipients ----

  /** a may add these: it sent the message or received it directly, the message is
      not terminal and not deleted for good for a, a draft is a's own, and none of
      them has been added before. */
  predicate MayAddThem(db: Db, a: Addr, id: MsgId, added: set<Addr>) {
    && added != {} && id in db.msgs && StateOf(db, a, id) != Purged
    && var m := db.msgs[id];
       && !m.terminal && (m.from == a || (a in m.to && m.sent.Some?)) && forall b :: b in added ==> b !in m.addTo
  }

  /** A batch's notices: to every other host that has the sender or a direct
      recipient and none of the added. */
  ghost predicate NoticesOf(c: Config, m: Message, added: set<Addr>, notify: map<Domain, Delivery>) {
    && (forall d :: d in notify ==> notify[d] == Delivery(None, None))
    && forall d :: d in notify
         <==> d != c.local && (m.from.domain == d || exists b :: b in m.to && b.domain == d)
              && !exists b :: b in added && b.domain == d
  }

  lemma NoticesAre(c: Config, m: Message, added: set<Addr>)
    ensures NoticesOf(c, m, added, map d | d in NotifyDomains(c, m, added) :: PENDING)
  {
    forall d ensures d in NotifyDomains(c, m, added)
        <==> d != c.local && (m.from.domain == d || exists b :: b in m.to && b.domain == d)
             && !exists b :: b in added && b.domain == d
    {
      if b :| b in m.to && b.domain == d {
        assert b in {m.from} + m.to.Keys;
      }
    }
  }

  /** m' is m with one more batch: a's, with a row for each of the added, resolved
      at once if m is sent, and its notices. */
  ghost predicate BatchAdded(c: Config, m: Message, m': Message, a: Addr, added: set<Addr>, now: Time,
                             codes: map<Addr, int>)
  {
    && m' == m.(addTo := m'.addTo, batches := m'.batches) && m'.addTo.Keys == m.addTo.Keys + added
    && (forall b :: b in m.addTo ==> m'.addTo[b] == m.addTo[b])
    && (forall b :: b in added ==>
          m'.addTo[b] == Added(|m.batches|, if m.sent.Some? then Resolution(c, b, codes, now) else Delivery(None, None)))
    && |m'.batches| == |m.batches| + 1 && m'.batches[..|m.batches|] == m.batches
    && var batch := m'.batches[|m.batches|];
       batch.adder == a && batch.added == now && NoticesOf(c, m, added, batch.notify)
  }

  lemma BatchRows(c: Config, m: Message, a: Addr, added: set<Addr>, now: Time)
    requires added !! m.addTo.Keys
    ensures var m' := WithBatch(c, m, a, added, now);
            && m' == m.(addTo := m'.addTo, batches := m'.batches) && m'.addTo.Keys == m.addTo.Keys + added
            && (forall b :: b in m.addTo ==> m'.addTo[b] == m.addTo[b])
            && (forall b :: b in added ==> m'.addTo[b] == Added(|m.batches|, PENDING))
  {
  }

  /** Local delivery of just the added leaves all else of a message. */
  lemma AddedDelivered(c: Config, m: Message, id: MsgId, added: set<Addr>, now: Time, codes: map<Addr, int>)
    requires forall b :: b in added && b in m.addTo ==> m.addTo[b].delivery == PENDING
    ensures var m' := DeliverTo(c, m, Deliver(id, false, {}, added, now, map[], codes));
            && m' == m.(addTo := m'.addTo) && m'.addTo.Keys == m.addTo.Keys
            && forall b :: b in m'.addTo ==>
                 m'.addTo[b] == if b in added then Added(m.addTo[b].batch, Resolution(c, b, codes, now)) else m.addTo[b]
  {
    var d := Deliver(id, false, {}, added, now, map[], codes);
    DeliveredRows(c, m, d);
    assert DeliverTo(c, m, d).to == m.to;
  }

  lemma WithBatchAdded(c: Config, m: Message, a: Addr, id: MsgId, added: set<Addr>, now: Time, codes: map<Addr, int>)
    requires added !! m.addTo.Keys
    ensures var m' := WithBatch(c, m, a, added, now);
            BatchAdded(c, m, if m.sent.Some? then DeliverTo(c, m', Deliver(id, false, {}, added, now, map[], codes)) else m',
                       a, added, now, codes)
  {
    NoticesAre(c, m, added);
    BatchRows(c, m, a, added, now);
    AddedDelivered(c, WithBatch(c, m, a, added, now), id, added, now, codes);
  }

  /** Adding recipients writes one batch of the caller's, a row of it for each of
      them and its notices; of a sent message those here are resolved at once. */
  lemma AddWritesBatch(c: Config, w: World, a: Addr, id: MsgId, added: set<Addr>, now: Time, codes: map<Addr, int>)
    requires Good(w.db)
    ensures var r := AddReq(id, added, now, codes);
            && (Handle(c, w.db, a, r).Done? <==> MayAddThem(w.db, a, id, added))
            && (Handle(c, w.db, a, r).Done? ==>
                  var after := Step(c, w, Api(a, r, Acknowledged));
                  && id in after.db.msgs && OnlyTouches(w.db, after.db, id) && after.files == w.files
                  && BatchAdded(c, w.db.msgs[id], after.db.msgs[id], a, added, now, codes))
  {
    if Handle(c, w.db, a, AddReq(id, added, now, codes)).Done? {
      AddedStep(c, w, a, id, added, now, codes);
      WithBatchAdded(c, w.db.msgs[id], a, id, added, now, codes);
    }
  }

  lemma AddedStep(c: Config, w: World, a: Addr, id: MsgId, added: set<Addr>, now: Time, codes: map<Addr, int>)
    requires Good(w.db) && Handle(c, w.db, a, AddReq(id, added, now, codes)).Done?
    ensures var m' := WithBatch(c, w.db.msgs[id], a, added, now);
            var after := Step(c, w, Api(a, AddReq(id, added, now, codes), Acknowledged));
            && after.files == w.files && OnlyTouches(w.db, after.db, id) && id in after.db.msgs
            && after.db.msgs[id] == if w.db.msgs[id].sent.Some?
                                    then DeliverTo(c, m', Deliver(id, false, {}, added, now, map[], codes)) else m'
  {
    var r := AddReq(id, added, now, codes);
    AcknowledgedStep(c, w, a, r, Handle(c, w.db, a, r));
    OneRowWritten(c, w, id, WithBatch(c, w.db.msgs[id], a, added, now), {},
                  if w.db.msgs[id].sent.Some? then Deliver(id, false, {}, added, now, map[], codes) else Nothing);
  }

  // ---- Reacting ----

  /** b is somebody the subject concerns: it sent it, received it, was added to it
      or added others. */
  predicate Concerns(m: Message, b: Addr) {
    m.from == b || b in m.to || b in m.addTo || exists i :: 0 <= i < |m.batches| && m.batches[i].adder == b
  }

  /** Reacting is granted to who takes part in a sent message that is not terminal
      nor deleted for good for it and concerns somebody else, if it is not idle. */
  lemma ReactIsGranted(c: Config, db: Db, a: Addr, id: MsgId, file: Stored, idle: bool, admitted: bool, now: Time,
                       codes: map<Addr, int>)
    ensures Handle(c, db, a, ReactReq(id, file, idle, admitted, now, codes)).Done?
            <==> && id in db.msgs && StateOf(db, a, id) != Purged && !idle && admitted
                 && var m := db.msgs[id];
                    && m.sent.Some? && !m.terminal && (m.from == a || a in m.to || a in m.addTo)
                    && exists b :: b != a && Concerns(m, b)
  {
    if id in db.msgs {
      RecipientsAre(db.msgs[id], a);
    }
  }

  /** A reaction is a terminal reply, sent at once to everybody else the subject
      concerns, whose local recipients are resolved. */
  lemma ReactReplies(c: Config, w: World, a: Addr, id: MsgId, file: Stored, idle: bool, admitted: bool, now: Time,
                     codes: map<Addr, int>)
    requires Good(w.db) && file.path !in w.files
    requires Handle(c, w.db, a, ReactReq(id, file, idle, admitted, now, codes)).Done?
    ensures var after := Step(c, w, Api(a, ReactReq(id, file, idle, admitted, now, codes), Acknowledged));
            var n := w.db.nextId;
            && id in w.db.msgs && n in after.db.msgs && OnlyTouches(w.db, after.db, n)
            && after.files == w.files + {file.path}
            && var m' := after.db.msgs[n];
               && m'.pid == Some(id) && m'.sent == Some(now) && m'.terminal && m'.from == a
               && m'.addTo == map[] && m'.batches == [] && m'.parts == map[Body := file] && m'.expanded == map[]
               && (forall b :: b in m'.to <==> b != a && Concerns(w.db.msgs[id], b))
               && (forall b :: b in m'.to ==> m'.to[b] == Resolution(c, b, codes, now))
  {
    RecipientsAre(w.db.msgs[id], a);
    ReactedStep(c, w, a, id, file, idle, admitted, now, codes);
    DeliveredRows(c, Reaction(w.db, a, id, file, now), Reacted(w.db, a, id, now, codes));
  }

  lemma RecipientsAre(m: Message, a: Addr)
    ensures forall b :: b in ReactionRecipients(m, a) <==> b != a && Concerns(m, b)
  {
  }

  function Reaction(db: Db, a: Addr, id: MsgId, file: Stored, now: Time): (m: Message)
    requires id in db.msgs
  {
    Message(Some(id), Some(now), true, a, Unresolved(ReactionRecipients(db.msgs[id], a)), map[], [], map[Body := file], map[])
  }

  function Reacted(db: Db, a: Addr, id: MsgId, now: Time, codes: map<Addr, int>): (d: After)
    requires id in db.msgs
  {
    Deliver(db.nextId, true, ReactionRecipients(db.msgs[id], a), {}, now, codes, map[])
  }

  lemma ReactedOutcome(c: Config, db: Db, a: Addr, id: MsgId, file: Stored, idle: bool, admitted: bool, now: Time,
                       codes: map<Addr, int>)
    requires Handle(c, db, a, ReactReq(id, file, idle, admitted, now, codes)).Done?
    ensures id in db.msgs
    ensures Handle(c, db, a, ReactReq(id, file, idle, admitted, now, codes))
         == Done(Put(db, db.nextId, Reaction(db, a, id, file, now)), {file.path}, {}, Reacted(db, a, id, now, codes))
  {
  }

  lemma ReactedStep(c: Config, w: World, a: Addr, id: MsgId, file: Stored, idle: bool, admitted: bool, now: Time,
                    codes: map<Addr, int>)
    requires Good(w.db) && file.path !in w.files
    requires Handle(c, w.db, a, ReactReq(id, file, idle, admitted, now, codes)).Done?
    ensures var after := Step(c, w, Api(a, ReactReq(id, file, idle, admitted, now, codes), Acknowledged));
            && id in w.db.msgs && w.db.nextId in after.db.msgs
            && after.files == w.files + {file.path} && OnlyTouches(w.db, after.db, w.db.nextId)
            && after.db.msgs[w.db.nextId] == DeliverTo(c, Reaction(w.db, a, id, file, now), Reacted(w.db, a, id, now, codes))
  {
    var r := ReactReq(id, file, idle, admitted, now, codes);
    ReactedOutcome(c, w.db, a, id, file, idle, admitted, now, codes);
    AcknowledgedStep(c, w, a, r, Handle(c, w.db, a, r));
    OneRowWritten(c, w, w.db.nextId, Reaction(w.db, a, id, file, now), {file.path}, Reacted(w.db, a, id, now, codes));
  }
}
