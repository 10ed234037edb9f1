/**
 The message tables (fmsgd's msg, msg_to, msg_add_to, msg_add_to_batch,
 msg_add_to_notify and msg_attachment, and fmsg_api_trash of dd.sql) as
 values. Addresses are already lower-cased; times are whole microseconds.
*/
module Store {
  import opened Basics

  type Domain = string
  type Path = string
  type MsgId = nat
  type Time = int

  datatype Addr = Addr(user: string, domain: Domain)

  /** When a row was delivered (or notified), and its last response code. */
  datatype Delivery = Delivery(delivered: Option<Time>, code: Option<int>)

  const PENDING := Delivery(None, None)

  datatype Added = Added(batch: nat, delivery: Delivery)

  datatype Batch = Batch(adder: Addr, added: Time, notify: map<Domain, Delivery>)

  /** What a message stores on disk: its body and its named attachments. */
  datatype Part = Body | Attachment(name: string)

  datatype Stored = Stored(path: Path, size: nat)

  /** A draft has no sent time. expanded has the size on disk of each part of a
      received message that came compressed. */
  datatype Message = Message(
    pid: Option<MsgId>,
    sent: Option<Time>,
    terminal: bool,
    from: Addr,
    to: map<Addr, Delivery>,
    addTo: map<Addr, Added>,
    batches: seq<Batch>,
    parts: map<Part, Stored>,
    expanded: map<Part, nat>)

  /** One fmsg_api_trash row. */
  datatype Mark = Mark(thread: bool, deleted: Time, purged: Option<Time>)

  datatype Db = Db(
    msgs: map<MsgId, Message>,
    trash: map<(Addr, MsgId), Mark>,
    nextId: MsgId)

  const EMPTY_DB := Db(map[], map[], 1)

  /** What a deployment configures. */
  datatype Config = Config(
    local: Domain,
    retryMaxAge: int,
    maxDataSize: nat,
    maxMsgSize: nat,
    maxAttachSize: nat)

  predicate Local(c: Config, a: Addr) {
    c.local != "" && a.domain == c.local
  }

  predicate Participates(m: Message, a: Addr) {
    m.from == a || a in m.to || a in m.addTo
  }

  predicate OwnPurged(db: Db, a: Addr, id: MsgId) {
    (a, id) in db.trash && db.trash[(a, id)].purged.Some?
  }

  /** The addresses that sent or accepted a message. */
  function Holders(m: Message): (addrs: set<Addr>) {
    (if m.sent.Some? then {m.from} else {})
    + (set a | a in m.to && m.to[a].delivered.Some?)
    + (set a | a in m.addTo && m.addTo[a].delivery.delivered.Some?)
  }

  /** A local holder has not deleted the message for good. */
  predicate Held(c: Config, db: Db, id: MsgId)
    requires id in db.msgs
  {
    exists a :: a in Holders(db.msgs[id]) && Local(c, a) && !OwnPurged(db, a, id)
  }

  /** Every added recipient's row is of one of the message's batches. */
  predicate BatchRowsValid(m: Message) {
    forall a :: a in m.addTo ==> m.addTo[a].batch < |m.batches|
  }

  predicate BatchesValid(db: Db) {
    forall id :: id in db.msgs ==> BatchRowsValid(db.msgs[id])
  }

  /** Undelivered, with a code after which fmsgd tries again. */
  predicate Retried(d: Delivery) {
    d.delivered.None? && (d.code.None? || d.code.value in {-1, 3, 5, 101})
  }

  /** fmsg_api_delivery_pending: fmsgd may still deliver some part of m. */
  predicate DeliveryPending(c: Config, m: Message, now: Time) {
    || (m.sent.Some? && now - m.sent.value < c.retryMaxAge && exists a :: a in m.to && Retried(m.to[a]))
    || (exists a :: a in m.addTo && Retried(m.addTo[a].delivery) && m.addTo[a].batch < |m.batches|
                    && now - m.batches[m.addTo[a].batch].added < c.retryMaxAge)
    || (exists b | 0 <= b < |m.batches| ::
          now - m.batches[b].added < c.retryMaxAge
          && exists d :: d in m.batches[b].notify && Retried(m.batches[b].notify[d]))
  }

  /** Some part of m is stored at path. */
  predicate Uses(m: Message, path: Path) {
    exists p :: p in m.parts && m.parts[p].path == path
  }

  /** Insert or replace one message row. */
  function Put(db: Db, id: MsgId, m: Message): (after: Db) {
    db.(msgs := db.msgs[id := m], nextId := if id == db.nextId then id + 1 else db.nextId)
  }

  /** A reply to a removed message loses its pid. */
  function Cut(m: Message, ids: set<MsgId>): (after: Message) {
    if m.pid.Some? && m.pid.value in ids then m.(pid := None) else m
  }

  /** Delete messages: their rows and trash rows go, replies to them are cut. */
  function Drop(db: Db, ids: set<MsgId>): (after: Db) {
    db.(msgs := map id | id in db.msgs && id !in ids :: Cut(db.msgs[id], ids),
        trash := map k | k in db.trash && k.1 !in ids :: db.trash[k])
  }

  /** Deleting in two goes is deleting all at once. */
  lemma DropTwice(db: Db, a: set<MsgId>, b: set<MsgId>)
    ensures Drop(Drop(db, a), b) == Drop(db, a + b)
  {
    var l, r := Drop(Drop(db, a), b), Drop(db, a + b);
    assert l.msgs == r.msgs;
    assert l.trash == r.trash;
  }
}
