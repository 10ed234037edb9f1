/**
 The mutating requests of the API (internal/handlers) and what fmsgd does
 beside them, each as the change it asks of the database, the files it created
 and the actions it leaves for after the commit.
*/
module Operations {
  import opened Basics
  import opened Store
  import opened Walks
  import opened Trash
  import opened Removal

  const ACCEPTED := 200

  // ---- Sizes and charges ----

  function Sizes(parts: map<Part, Stored>): (sizes: map<Part, int>) {
    map p | p in parts :: parts[p].size
  }

  /** messageStoredSize: the body plus the attachments. */
  ghost function StoredSize(m: Message): (n: int) {
    Total(Sizes(m.parts))
  }

  /** The size fmsgd recorded each part of a received message at. */
  function ExpandedSizes(m: Message): (sizes: map<Part, int>) {
    map p | p in m.parts :: if p in m.expanded then m.expanded[p] else m.parts[p].size
  }

  /** recordedSize: what m was recorded at for quotas. */
  ghost function RecordedSize(c: Config, m: Message): (n: int) {
    if Local(c, m.from) then StoredSize(m) else Total(ExpandedSizes(m))
  }

  /** What came as it is stored was recorded at its stored size. */
  lemma NothingExpanded(c: Config, m: Message)
    requires m.expanded == map[]
    ensures RecordedSize(c, m) == StoredSize(m)
  {
    assert ExpandedSizes(m) == Sizes(m.parts);
  }

  /** Sizes are those of the parts, whatever becomes of the rest of a message. */
  lemma SameSizes(c: Config, m: Message, m': Message)
    requires m'.parts == m.parts && m'.expanded == m.expanded && m'.from == m.from
    ensures StoredSize(m') == StoredSize(m) && RecordedSize(c, m') == RecordedSize(c, m)
  {
  }

  predicate DeliveredTo(m: Message, a: Addr) {
    a in m.to && m.to[a].delivered.Some?
  }

  predicate DeliveredAddTo(m: Message, a: Addr) {
    a in m.addTo && m.addTo[a].delivery.delivered.Some?
  }

  /** fmsgid counts what an address sent and what it received separately. */
  datatype Way = Sent | Received

  /** usageOf: what m counted against a's quota. It is counted once as sent if a
      sent it, and as received once for each delivery to a. */
  ghost function Owed(c: Config, m: Message, a: Addr, way: Way): (n: int) {
    var size := RecordedSize(c, m);
    match way
    case Sent => if m.sent.Some? && m.from == a then size else 0
    case Received => (if DeliveredTo(m, a) then size else 0) + (if DeliveredAddTo(m, a) then size else 0)
  }

  // ---- Results ----

  /** What runs once the transaction has committed. */
  datatype After =
    | Nothing
    | Deliver(id: MsgId, recordSend: bool, to: set<Addr>, addTo: set<Addr>, now: Time,
              toCodes: map<Addr, int>, addToCodes: map<Addr, int>)
    | Release(addr: Addr, send: int, recv: int)

  datatype Outcome =
    | Refused
    | Done(db: Db, created: set<Path>, removed: set<Path>, after: After)

  // ---- References ----

  /** A request's pid: a message by id or hash, or one of its add-to batches by hash. */
  datatype ParentRef = Whole(id: MsgId) | InBatch(id: MsgId, batch: nat)

  /** resolveParent: may caller link a draft to this message? */
  predicate Resolves(db: Db, caller: Addr, ref: ParentRef) {
    && Linkable(db, ref.id)
    && (ref.InBatch? ==> ref.batch < |db.msgs[ref.id].batches|)
    && (var m := db.msgs[ref.id];
        || m.from == caller
        || caller in m.to
        || (ref.InBatch? && caller in m.addTo && m.addTo[caller].batch == ref.batch))
    && StateOf(db, caller, ref.id) != Purged
  }

  predicate ParentAllowed(db: Db, caller: Addr, parent: Option<ParentRef>) {
    parent.Some? ==> Resolves(db, caller, parent.value)
  }

  function LinkedTo(parent: Option<ParentRef>): (up: Option<MsgId>) {
    if parent.Some? then Some(parent.value.id) else None
  }

  // ---- Drafts ----

  /** The body of a create or update request; path is the temporary file its
      data was saved to. */
  datatype Draft = Draft(parent: Option<ParentRef>, topic: bool, terminal: bool, to: set<Addr>, size: nat, path: Path)

  function Unresolved(to: set<Addr>): (rows: map<Addr, Delivery>) {
    map a | a in to :: PENDING
  }

  function NewMessage(caller: Addr, d: Draft): (m: Message) {
    Message(LinkedTo(d.parent), None, d.terminal, caller, Unresolved(d.to), map[], [],
            map[Body := Stored(d.path, d.size)], map[])
  }

  function Create(c: Config, db: Db, caller: Addr, d: Draft): (o: Outcome) {
    if d.to == {} || !ParentAllowed(db, caller, d.parent) || (d.parent.Some? && d.topic) || d.size > c.maxDataSize
    then Refused
    else Done(Put(db, db.nextId, NewMessage(caller, d)), {d.path}, {}, Nothing)
  }

  predicate OwnDraft(db: Db, caller: Addr, id: MsgId) {
    id in db.msgs && db.msgs[id].from == caller && db.msgs[id].sent.None?
  }

  function Updated(m: Message, d: Draft): (after: Message) {
    m.(pid := LinkedTo(d.parent), terminal := d.terminal, to := Unresolved(d.to),
       parts := m.parts[Body := Stored(d.path, d.size)])
  }

  /** The file a part is stored in, if it has one. */
  function PathOf(m: Message, part: Part): (paths: set<Path>) {
    if part in m.parts then {m.parts[part].path} else {}
  }

  ghost function Update(c: Config, db: Db, caller: Addr, id: MsgId, d: Draft): (o: Outcome) {
    if !OwnDraft(db, caller, id) || !ParentAllowed(db, caller, d.parent) || (d.parent.Some? && d.topic)
       || d.size > c.maxDataSize || StoredSize(Updated(db.msgs[id], d)) > c.maxMsgSize
    then Refused
    else Done(Put(db, id, Updated(db.msgs[id], d)), {d.path}, PathOf(db.msgs[id], Body), Nothing)
  }

  function DeleteDraft(db: Db, caller: Addr, id: MsgId): (o: Outcome) {
    if !OwnDraft(db, caller, id) then Refused
    else Done(Drop(db, {id}), {}, Paths(db.msgs[id]), Nothing)
  }

  ghost function Upload(c: Config, db: Db, caller: Addr, id: MsgId, name: string, file: Stored): (o: Outcome) {
    if !OwnDraft(db, caller, id) || file.size > c.maxAttachSize
       || StoredSize(db.msgs[id]) + file.size > c.maxMsgSize
    then Refused
    else Done(Put(db, id, db.msgs[id].(parts := db.msgs[id].parts[Attachment(name) := file])), {file.path}, {}, Nothing)
  }

  function DeleteAttachment(db: Db, caller: Addr, id: MsgId, name: string): (o: Outcome) {
    if !OwnDraft(db, caller, id) || Attachment(name) !in db.msgs[id].parts then Refused
    else
      var m := db.msgs[id];
      Done(Put(db, id, m.(parts := m.parts - {Attachment(name)})), {}, {m.parts[Attachment(name)].path}, Nothing)
  }

  // ---- Sending ----

  /** admitted: the message is complete, no recipient host is known to refuse
      the reply, and fmsgid lets the sender send this much more. */
  predicate MaySend(db: Db, caller: Addr, id: MsgId, admitted: bool) {
    OwnDraft(db, caller, id) && db.msgs[id].to != map[] && admitted
  }

  function Send(db: Db, caller: Addr, id: MsgId, admitted: bool, now: Time,
                toCodes: map<Addr, int>, addToCodes: map<Addr, int>): (o: Outcome)
  {
    if !MaySend(db, caller, id, admitted) then Refused
    else
      var m := db.msgs[id];
      Done(Put(db, id, m.(sent := Some(now))), {}, {},
           Deliver(id, true, m.to.Keys, m.addTo.Keys, now, toCodes, addToCodes))
  }

  function NotifyDomains(c: Config, m: Message, added: set<Addr>): (domains: set<Domain>) {
    set a | a in {m.from} + m.to.Keys && a.domain != c.local && (forall b :: b in added ==> b.domain != a.domain)
      :: a.domain
  }

  function WithBatch(c: Config, m: Message, caller: Addr, added: set<Addr>, now: Time): (after: Message) {
    m.(addTo := m.addTo + map a | a in added :: Added(|m.batches|, PENDING),
       batches := m.batches + [Batch(caller, now, map d | d in NotifyDomains(c, m, added) :: PENDING)])
  }

  predicate MayAdd(db: Db, caller: Addr, id: MsgId, added: set<Addr>) {
    && added != {} && id in db.msgs
    && var m := db.msgs[id];
       && (m.sent.None? ==> m.from == caller)
       && StateOf(db, caller, id) != Purged
       && !m.terminal
       && (m.from == caller || caller in m.to)
       && added !! m.addTo.Keys
  }

  function AddRecipients(c: Config, db: Db, caller: Addr, id: MsgId, added: set<Addr>, now: Time,
                         codes: map<Addr, int>): (o: Outcome)
  {
    if !MayAdd(db, caller, id, added) then Refused
    else
      var m := db.msgs[id];
      Done(Put(db, id, WithBatch(c, m, caller, added, now)), {}, {},
           if m.sent.Some? then Deliver(id, false, {}, added, now, map[], codes) else Nothing)
  }

  /** reactionRecipients: everybody else the subject concerns. */
  function ReactionRecipients(m: Message, reactor: Addr): (addrs: set<Addr>) {
    {m.from} + m.to.Keys + m.addTo.Keys + (set b | 0 <= b < |m.batches| :: m.batches[b].adder) - {reactor}
  }

  /** idle: the caller's effective reaction is already the wanted one. */
  predicate MayReact(db: Db, caller: Addr, id: MsgId, idle: bool, admitted: bool) {
    && id in db.msgs && db.msgs[id].sent.Some? && StateOf(db, caller, id) != Purged
    && Participates(db.msgs[id], caller) && !db.msgs[id].terminal
    && ReactionRecipients(db.msgs[id], caller) != {} && !idle && admitted
  }

  function React(db: Db, caller: Addr, id: MsgId, file: Stored, idle: bool, admitted: bool, now: Time,
                 codes: map<Addr, int>): (o: Outcome)
  {
    if !MayReact(db, caller, id, idle, admitted) then Refused
    else
      var to := ReactionRecipients(db.msgs[id], caller);
      Done(Put(db, db.nextId,
               Message(Some(id), Some(now), true, caller, Unresolved(to), map[], [], map[Body := file], map[])),
           {file.path}, {},
           Deliver(db.nextId, true, to, {}, now, codes, map[]))
  }

  // ---- Trash ----

  predicate MayTrash(db: Db, caller: Addr, id: MsgId) {
    id in db.msgs && Participates(db.msgs[id], caller) && StateOf(db, caller, id) != Purged
  }

  /** DELETE of a sent message without permanent. */
  function TrashSent(db: Db, caller: Addr, id: MsgId, thread: bool, now: Time): (o: Outcome) {
    if !MayTrash(db, caller, id) || db.msgs[id].sent.None? then Refused
    else Done(MarkTrashed(db, caller, id, thread, now), {}, {}, Nothing)
  }

  function Restore(db: Db, caller: Addr, id: MsgId, thread: bool): (o: Outcome) {
    if !MayTrash(db, caller, id) then Refused
    else Done(Unmark(db, caller, if thread then Subtree(db, caller, id) else {id}), {}, {}, Nothing)
  }

  /** What each of ids that a has not yet deleted for good counts. */
  ghost function GivenUp(c: Config, db: Db, a: Addr, ids: set<MsgId>, way: Way): (charges: map<MsgId, int>) {
    map id | id in NewlyPurged(db, a, ids) && id in db.msgs :: Owed(c, db.msgs[id], a, way)
  }

  /** What deleting ids for good gives back to a. */
  ghost function Released(c: Config, db: Db, a: Addr, ids: set<MsgId>, way: Way): (n: int) {
    Total(GivenUp(c, db, a, ids, way))
  }

  function AfterMark(db: Db, caller: Addr, id: MsgId, thread: bool, now: Time): (after: Db) {
    MarkPurged(db, caller, Subtree(db, caller, id), if thread then Some(id) else None, now)
  }

  /** DELETE of a sent message with permanent. */
  ghost function Purge(c: Config, db: Db, caller: Addr, id: MsgId, thread: bool, now: Time): (o: Outcome) {
    if !MayTrash(db, caller, id) || db.msgs[id].sent.None? then Refused
    else
      var ids := Subtree(db, caller, id);
      var marked := AfterMark(db, caller, id, thread, now);
      Done(RemoveUnheld(c, marked, ids, now), {}, Orphaned(marked, Removable(c, marked, ids, now)),
           Release(caller, Released(c, db, caller, ids, Sent), Released(c, db, caller, ids, Received)))
  }

  // ---- All requests ----

  datatype Request =
    | CreateReq(draft: Draft)
    | UpdateReq(id: MsgId, draft: Draft)
    | DeleteReq(id: MsgId, thread: bool, permanent: bool, now: Time)
    | SendReq(id: MsgId, admitted: bool, now: Time, toCodes: map<Addr, int>, addToCodes: map<Addr, int>)
    | AddReq(id: MsgId, added: set<Addr>, now: Time, addToCodes: map<Addr, int>)
    | ReactReq(id: MsgId, file: Stored, idle: bool, admitted: bool, now: Time, toCodes: map<Addr, int>)
    | UploadReq(id: MsgId, name: string, file: Stored)
    | DeleteAttachmentReq(id: MsgId, name: string)
    | RestoreReq(id: MsgId, thread: bool)

  ghost function Handle(c: Config, db: Db, caller: Addr, r: Request): (o: Outcome) {
    match r
    case CreateReq(d) => Create(c, db, caller, d)
    case UpdateReq(id, d) => Update(c, db, caller, id, d)
    case DeleteReq(id, thread, permanent, now) =>
      if id in db.msgs && db.msgs[id].sent.None? then DeleteDraft(db, caller, id)
      else if permanent then Purge(c, db, caller, id, thread, now)
      else TrashSent(db, caller, id, thread, now)
    case SendReq(id, admitted, now, to, addTo) => Send(db, caller, id, admitted, now, to, addTo)
    case AddReq(id, added, now, codes) => AddRecipients(c, db, caller, id, added, now, codes)
    case ReactReq(id, file, idle, admitted, now, codes) => React(db, caller, id, file, idle, admitted, now, codes)
    case UploadReq(id, name, file) => Upload(c, db, caller, id, name, file)
    case DeleteAttachmentReq(id, name) => DeleteAttachment(db, caller, id, name)
    case RestoreReq(id, thread) => Restore(db, caller, id, thread)
  }

  // ---- Local delivery, after the commit ----

  /** The rows among addrs that local delivery resolves: local, still without
      an outcome, and answered by fmsgid. */
  predicate Resolved(c: Config, row: Delivery, a: Addr, addrs: set<Addr>, codes: map<Addr, int>) {
    a in addrs && Local(c, a) && row == PENDING && a in codes
  }

  function Outcome1(c: Config, row: Delivery, a: Addr, addrs: set<Addr>, codes: map<Addr, int>,
                    now: Time): (r: Delivery) {
    if Resolved(c, row, a, addrs, codes)
    then Delivery(if codes[a] == ACCEPTED then Some(now) else None, Some(codes[a]))
    else row
  }

  function ToRows(c: Config, rows: map<Addr, Delivery>, addrs: set<Addr>, codes: map<Addr, int>,
                  now: Time): (r: map<Addr, Delivery>) {
    map a | a in rows :: Outcome1(c, rows[a], a, addrs, codes, now)
  }

  function AddToRows(c: Config, rows: map<Addr, Added>, addrs: set<Addr>, codes: map<Addr, int>,
                     now: Time): (r: map<Addr, Added>) {
    map a | a in rows :: rows[a].(delivery := Outcome1(c, rows[a].delivery, a, addrs, codes, now))
  }

  function DeliverTo(c: Config, m: Message, d: After): (after: Message)
    requires d.Deliver?
  {
    m.(to := ToRows(c, m.to, d.to, d.toCodes, d.now), addTo := AddToRows(c, m.addTo, d.addTo, d.addToCodes, d.now))
  }
}
