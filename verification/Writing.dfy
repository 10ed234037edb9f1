/**
 Runs from an empty host that write messages: what the concrete states shown to
 be reachable are built with.
*/
module Writing {
  import opened Basics
  import opened Store
  import opened Walks
  import opened Trash
  import opened Operations
  import opened Host

  const HERE := Config("here", 86400, 100, 100, 100)
  const ALICE := Addr("alice", "here")
  const BOB := Addr("bob", "here")
  const CAROL := Addr("carol", "far")

  /** What sending leaves of a recipient's row, given fmsgid's answers. */
  function Answered(to: Addr, codes: map<Addr, int>): (row: Delivery) {
    Outcome1(HERE, PENDING, to, {to}, codes, 1)
  }

  /** A message from one address to another, sent. */
  function Letter(pid: Option<MsgId>, from: Addr, to: Addr, path: Path, codes: map<Addr, int>): (m: Message) {
    Message(pid, Some(1), false, from, map[to := Answered(to, codes)], map[], [], map[Body := Stored(path, 5)], map[])
  }

  /** One that its recipient accepted. */
  function Note(pid: Option<MsgId>, from: Addr, to: Addr, path: Path): (m: Message) {
    Message(pid, Some(1), false, from, map[to := DONE], map[], [], map[Body := Stored(path, 5)], map[])
  }

  const DONE := Delivery(Some(1), Some(ACCEPTED))

  lemma AcceptedIsNote(pid: Option<MsgId>, from: Addr, to: Addr, path: Path)
    requires Local(HERE, to)
    ensures Letter(pid, from, to, path, map[to := ACCEPTED]) == Note(pid, from, to, path)
  {
    assert Answered(to, map[to := ACCEPTED]) == DONE;
  }

  /** Some run from an empty host leads to this store. */
  ghost predicate Reached(db: Db, files: set<Path>) {
    exists w :: Reachable(HERE, w) && w.db == db && w.files == files
  }

  function Drafted(pid: Option<MsgId>, to: Addr, path: Path): (d: Draft) {
    Draft(if pid.Some? then Some(Whole(pid.value)) else None, false, false, {to}, 5, path)
  }

  lemma EmptyIsReached()
    ensures Reachable(HERE, EMPTY_HOST)
  {
    assert Run(HERE, EMPTY_HOST, []) == EMPTY_HOST;
  }

  lemma OneMore(w: World, e: Event) returns (after: World)
    requires Reachable(HERE, w)
    ensures after == Step(HERE, w, e) && Reachable(HERE, after)
  {
    after := Step(HERE, w, e);
    assert [e][1..] == [];
    assert Run(HERE, w, [e]) == after;
    ReachedFurther(HERE, w, [e]);
  }

  /** What a message leaves in the store when it is drafted and sent. */
  lemma Mails(w: World, pid: Option<MsgId>, from: Addr, to: Addr, path: Path, codes: map<Addr,
              int>) returns (after: World)
    requires Reachable(HERE, w) && IdsBelow(w.db) && path !in w.files
    requires pid.Some? ==> Resolves(w.db, from, Whole(pid.value))
    ensures Reachable(HERE, after)
    ensures after.db == Put(w.db, w.db.nextId, Letter(pid, from, to, path, codes)) && after.files == w.files + {path}
  {
    var id := w.db.nextId;
    var drafted := OneMore(w, Api(from, CreateReq(Drafted(pid, to, path)), Acknowledged));
    assert drafted.db == Put(w.db, id, NewMessage(from, Drafted(pid, to, path)));
    after := OneMore(drafted, Api(from, SendReq(id, true, 1, codes, map[]), Acknowledged));
    SendsLetter(w, drafted, pid, from, to, path, codes);
  }

  /** The same when the recipient is here and accepts. */
  lemma Writes(w: World, pid: Option<MsgId>, from: Addr, to: Addr, path: Path) returns (after: World)
    requires Reachable(HERE, w) && IdsBelow(w.db) && path !in w.files && Local(HERE, to)
    requires pid.Some? ==> Resolves(w.db, from, Whole(pid.value))
    ensures Reachable(HERE, after)
    ensures after.db == Put(w.db, w.db.nextId, Note(pid, from, to, path)) && after.files == w.files + {path}
  {
    after := Mails(w, pid, from, to, path, map[to := ACCEPTED]);
    AcceptedIsNote(pid, from, to, path);
  }

  /** Somebody deletes a sent message for good. */
  lemma Deletes(w: World, who: Addr, id: MsgId, now: Time) returns (after: World)
    requires Reachable(HERE, w) && Purge(HERE, w.db, who, id, false, now).Done?
    ensures Reachable(HERE, after) && after.db == Purge(HERE, w.db, who, id, false, now).db
    ensures after.files == w.files - Purge(HERE, w.db, who, id, false, now).removed
  {
    after := OneMore(w, Api(who, DeleteReq(id, false, true, now), Acknowledged));
    assert w.files + {} == w.files;
  }

  lemma DeliveredLetter(pid: Option<MsgId>, from: Addr, to: Addr, path: Path, codes: map<Addr, int>, id: MsgId)
    ensures DeliverTo(HERE, NewMessage(from, Drafted(pid, to, path)).(sent := Some(1)),
                      Deliver(id, true, {to}, {}, 1, codes, map[]))
            == Letter(pid, from, to, path, codes)
  {
    var m := NewMessage(from, Drafted(pid, to, path)).(sent := Some(1));
    assert m.to == map[to := PENDING] && m.addTo == map[];
    assert ToRows(HERE, m.to, {to}, codes, 1) == map[to := Answered(to, codes)];
    assert AddToRows(HERE, m.addTo, {}, map[], 1) == map[];
  }

  lemma SendIsDone(db: Db, pid: Option<MsgId>, from: Addr, to: Addr, path: Path, codes: map<Addr, int>, id: MsgId)
    requires id in db.msgs && db.msgs[id] == NewMessage(from, Drafted(pid, to, path))
    ensures Handle(HERE, db, from, SendReq(id, true, 1, codes, map[]))
            == Done(Put(db, id, db.msgs[id].(sent := Some(1))), {}, {}, Deliver(id, true, {to}, {}, 1, codes, map[]))
  {
    assert to in db.msgs[id].to && db.msgs[id].to.Keys == {to} && db.msgs[id].addTo.Keys == {};
  }

  lemma SendsLetter(w: World, drafted: World, pid: Option<MsgId>, from: Addr, to: Addr, path: Path,
                    codes: map<Addr, int>)
    requires IdsBelow(w.db) && path !in w.files
    requires drafted.db == Put(w.db, w.db.nextId, NewMessage(from, Drafted(pid, to, path)))
    requires drafted.files == w.files + {path}
    ensures var after := Step(HERE, drafted, Api(from, SendReq(w.db.nextId, true, 1, codes, map[]), Acknowledged));
            && after.db == Put(w.db, w.db.nextId, Letter(pid, from, to, path, codes))
            && after.files == w.files + {path}
  {
    var id := w.db.nextId;
    var m, letter := NewMessage(from, Drafted(pid, to, path)).(sent := Some(1)), Letter(pid, from, to, path, codes);
    SendIsDone(drafted.db, pid, from, to, path, codes, id);
    DeliveredLetter(pid, from, to, path, codes, id);
    assert drafted.files + {} - {} == drafted.files;
    assert Put(Put(drafted.db, id, m), id, letter).msgs == Put(w.db, id, letter).msgs;
  }

  /** Nobody's message stands anywhere in particular without trash rows. */
  lemma NothingTrashed(db: Db, a: Addr, id: MsgId)
    requires forall x :: (a, x) !in db.trash
    ensures StateOf(db, a, id) == NotTrashed
  {
  }

  lemma TopInItsSubtree(db: Db, a: Addr, top: MsgId)
    requires top in db.msgs && db.msgs[top].sent.Some? && Participates(db.msgs[top], a)
    ensures top in Subtree(db, a, top)
  {
    assert Ancestor(db, top, 0) == Some(top);
    DownWalkIs(db, top, WALK_CAP, top);
  }

  lemma DropNone(db: Db)
    ensures Drop(db, {}) == db
  {
    assert Drop(db, {}).msgs == db.msgs && Drop(db, {}).trash == db.trash;
  }
}
