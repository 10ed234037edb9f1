/**
 The whole host as a state machine: the committed database, the files on disk
 and fmsgid's usage totals, changed by one request (with the outcome of its
 commit) or one act of fmsgd at a time.
*/
module Host {
  import opened Basics
  import opened Store
  import opened Walks
  import opened Removal
  import opened Operations

  /** send and recv are fmsgid's totals. late is bookkeeping of the model's own:
      what was delivered to an address after it had deleted that message for good. */
  datatype World = World(db: Db, files: set<Path>, send: map<Addr, int>, recv: map<Addr, int>, late: map<Addr, int>)

  const EMPTY_HOST := World(EMPTY_DB, {}, map[], map[], map[])

  /** How a request that was not refused ends: committed and acknowledged;
      committed with the acknowledgement lost; not committed though the
      commit was attempted; or failed at a statement, so rolled back. */
  datatype Commit = Acknowledged | AckLost | NotCommitted | StatementFailed

  datatype RowRef = ToRow(addr: Addr) | AddToRow(addr: Addr) | NotifyRow(batch: nat, domain: Domain)

  datatype Event =
    | Api(caller: Addr, req: Request, commit: Commit)
    | Receive(msg: Message)
    | SetOutcome(id: MsgId, row: RowRef, outcome: Delivery)

  // ---- fmsgid's totals ----

  function Plus(use: map<Addr, int>, more: map<Addr, int>): (r: map<Addr, int>)
    ensures forall a :: Count(r, a) == Count(use, a) + Count(more, a)
  {
    map a | a in use.Keys + more.Keys :: Count(use, a) + Count(more, a)
  }

  /** size for each row of a's that was delivered between m and m'. */
  function Gained(m: Message, m': Message, a: Addr, size: int): (n: int) {
    (if !DeliveredTo(m, a) && DeliveredTo(m', a) then size else 0)
    + (if !DeliveredAddTo(m, a) && DeliveredAddTo(m', a) then size else 0)
  }

  /** What local delivery turning m into m' records for a: m's stored size for
      each row it delivered. */
  ghost function Posted(m: Message, m': Message, a: Addr): (n: int) {
    Gained(m, m', a, StoredSize(m))
  }

  ghost function RecvPosts(m: Message, m': Message): (posts: map<Addr, int>) {
    map a | a in m'.to.Keys + m'.addTo.Keys :: Posted(m, m', a)
  }

  ghost function LatePosts(db: Db, id: MsgId, m: Message, m': Message): (posts: map<Addr, int>) {
    map a | a in m'.to.Keys + m'.addTo.Keys && OwnPurged(db, a, id) :: Posted(m, m', a)
  }

  ghost function RunAfter(c: Config, w: World, after: After): (r: World) {
    match after
    case Nothing => w
    case Release(a, send, recv) =>
      w.(send := Plus(w.send, map[a := -send]), recv := Plus(w.recv, map[a := -recv]))
    case Deliver(id, recordSend, _, _, _, _, _) =>
      if id !in w.db.msgs then w
      else
        var m := w.db.msgs[id];
        var m' := DeliverTo(c, m, after);
        w.(db := Put(w.db, id, m'),
           send := if recordSend then Plus(w.send, map[m.from := StoredSize(m)]) else w.send,
           recv := Plus(w.recv, RecvPosts(m, m')),
           late := Plus(w.late, LatePosts(w.db, id, m, m')))
  }

  // ---- Requests ----

  /** atomic: what becomes of the world when handler outcome o meets commit.
      Created files outlive every attempted commit; only a rollback removes
      them, and only an acknowledged commit runs what was left for later. */
  ghost function Conclude(c: Config, w: World, o: Outcome, commit: Commit): (after: World)
    requires o.Done?
  {
    var created := w.files + o.created;
    match commit
    case StatementFailed => w.(files := created - o.created)
    case NotCommitted => w.(files := created)
    case AckLost => w.(db := o.db, files := created)
    case Acknowledged => RunAfter(c, w.(db := o.db, files := created - o.removed), o.after)
  }

  // ---- fmsgd ----

  /** A received message: from another host, new or replying to a linkable
      message; fmsgd stores its parts in files no draft is using. */
  predicate MayReceive(c: Config, w: World, m: Message) {
    && !Local(c, m.from)
    && m.sent.Some? && m.addTo == map[] && m.batches == []
    && (m.pid.Some? ==> Linkable(w.db, m.pid.value))
    && forall p, id :: p in m.parts && id in w.db.msgs && w.db.msgs[id].sent.None? ==>
         !Uses(w.db.msgs[id], m.parts[p].path)
  }

  /** What fmsgd records for the local recipients it delivered a message to. */
  ghost function ReceivedPosts(c: Config, m: Message): (posts: map<Addr, int>) {
    map a | a in m.to && Local(c, a) :: Owed(c, m, a, Received)
  }

  /** fmsgd attempts rows on other hosts, of sent messages, until delivered. */
  predicate MaySetOutcome(c: Config, db: Db, id: MsgId, row: RowRef) {
    id in db.msgs && db.msgs[id].sent.Some?
    && match row
       case ToRow(a) => !Local(c, a) && a in db.msgs[id].to && db.msgs[id].to[a].delivered.None?
       case AddToRow(a) => !Local(c, a) && a in db.msgs[id].addTo && db.msgs[id].addTo[a].delivery.delivered.None?
       case NotifyRow(b, d) => b < |db.msgs[id].batches| && d in db.msgs[id].batches[b].notify
                               && db.msgs[id].batches[b].notify[d].delivered.None?
  }

  function WithOutcome(m: Message, row: RowRef, outcome: Delivery): (after: Message)
    requires row.AddToRow? ==> row.addr in m.addTo
    requires row.NotifyRow? ==> row.batch < |m.batches|
  {
    match row
    case ToRow(a) => m.(to := m.to[a := outcome])
    case AddToRow(a) => m.(addTo := m.addTo[a := m.addTo[a].(delivery := outcome)])
    case NotifyRow(b, d) =>
      m.(batches := m.batches[b := m.batches[b].(notify := m.batches[b].notify[d := outcome])])
  }

  // ---- Steps ----

  /** An event that cannot happen changes nothing. New files are created under
      names nothing has (os.CreateTemp, O_EXCL). */
  ghost function Step(c: Config, w: World, e: Event): (after: World) {
    match e
    case Api(caller, req, commit) =>
      var o := Handle(c, w.db, caller, req);
      if o.Refused? || !(o.created !! w.files) then w else Conclude(c, w, o, commit)
    case Receive(m) =>
      if !MayReceive(c, w, m) then w
      else w.(db := Put(w.db, w.db.nextId, m),
              files := w.files + Paths(m),
              recv := Plus(w.recv, ReceivedPosts(c, m)))
    case SetOutcome(id, row, outcome) =>
      if !MaySetOutcome(c, w.db, id, row) then w
      else w.(db := Put(w.db, id, WithOutcome(w.db.msgs[id], row, outcome)))
  }

  ghost function Run(c: Config, w: World, events: seq<Event>): (after: World)
    decreases |events|
  {
    if events == [] then w else Run(c, Step(c, w, events[0]), events[1..])
  }

  lemma {:induction false} RunPlus(c: Config, w: World, events: seq<Event>, more: seq<Event>)
    ensures Run(c, w, events + more) == Run(c, Run(c, w, events), more)
    decreases |events|
  {
    if events == [] {
      assert events + more == more;
    } else {
      assert (events + more)[1..] == events[1..] + more;
      RunPlus(c, Step(c, w, events[0]), events[1..], more);
    }
  }

  /** A host as it stands after any sequence of events from empty. */
  ghost predicate Reachable(c: Config, w: World) {
    exists events :: w == Run(c, EMPTY_HOST, events)
  }

  lemma ReachedFurther(c: Config, w: World, events: seq<Event>)
    requires Reachable(c, w)
    ensures Reachable(c, Run(c, w, events))
  {
    var before :| w == Run(c, EMPTY_HOST, before);
    RunPlus(c, EMPTY_HOST, before, events);
  }
}
