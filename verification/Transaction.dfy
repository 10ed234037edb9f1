/**
 One request, one transaction (internal/handlers/transaction.go, atomic): the
 response is held back until the commit, a failure undoes the files created, a
 commit whose outcome is unknown keeps them, and only an acknowledged commit
 removes files, posts usage and delivers locally.
*/
module Transaction {
  import opened Basics
  import opened Store
  import opened Walks
  import opened Operations
  import opened Host
  import opened Accounting
  import opened Handlers

  datatype Table = MsgTo | MsgAddTo

  /** Local delivery of one table's rows. */
  function ForTable(table: Table, id: MsgId, addrs: set<Addr>, codes: map<Addr, int>, now: Time): (d: After) {
    Deliver(id, false, if table.MsgTo? then addrs else {}, if table.MsgAddTo? then addrs else {}, now, codes, codes)
  }

  /** One turn of resolveLocalDelivery: a's row, if it is to be resolved. */
  function ResolveRow(c: Config, m: Message, table: Table, a: Addr, codes: map<Addr, int>,
                      now: Time): (after: Message) {
    if table.MsgTo? && a in m.to then m.(to := m.to[a := Outcome1(c, m.to[a], a, {a}, codes, now)])
    else if table.MsgAddTo? && a in m.addTo
    then m.(addTo := m.addTo[a := m.addTo[a].(delivery := Outcome1(c, m.addTo[a].delivery, a, {a}, codes, now))])
    else m
  }

  lemma ToRowsNext(c: Config, rows: map<Addr, Delivery>, done: set<Addr>, a: Addr, codes: map<Addr, int>, now: Time)
    requires a !in done
    ensures var cur := ToRows(c, rows, done, codes, now);
            ToRows(c, rows, done + {a}, codes, now) == if a in rows then cur[a := Outcome1(c, cur[a], a, {a}, codes, now)] else cur
    ensures ToRows(c, rows, {}, codes, now) == rows
  {
  }

  lemma AddToRowsNext(c: Config, rows: map<Addr, Added>, done: set<Addr>, a: Addr, codes: map<Addr, int>, now: Time)
    requires a !in done
    ensures var cur := AddToRows(c, rows, done, codes, now);
            AddToRows(c, rows, done + {a}, codes, now)
            == if a in rows then cur[a := cur[a].(delivery := Outcome1(c, cur[a].delivery, a, {a}, codes, now))] else cur
    ensures AddToRows(c, rows, {}, codes, now) == rows
  {
  }

  lemma ResolveNext(c: Config, m: Message, table: Table, id: MsgId, done: set<Addr>, a: Addr, codes: map<Addr,
                    int>, now: Time)
    requires a !in done
    ensures ResolveRow(c, DeliverTo(c, m, ForTable(table, id, done, codes, now)), table, a, codes, now)
            == DeliverTo(c, m, ForTable(table, id, done + {a}, codes, now))
  {
    ToRowsNext(c, m.to, done, a, codes, now);
    AddToRowsNext(c, m.addTo, done, a, codes, now);
  }

  /** m' has m's parts and every delivery m has. */
  ghost predicate Follows(m: Message, m': Message) {
    && m'.parts == m.parts
    && (forall a :: DeliveredTo(m, a) ==> DeliveredTo(m', a))
    && (forall a :: DeliveredAddTo(m, a) ==> DeliveredAddTo(m', a))
  }

  lemma RowFollows(c: Config, m: Message, table: Table, a: Addr, codes: map<Addr, int>, now: Time)
    ensures Follows(m, ResolveRow(c, m, table, a, codes, now))
    ensures forall b :: b != a ==> Posted(m, ResolveRow(c, m, table, a, codes, now), b) == 0
  {
  }

  lemma PostedAdds(m0: Message, m: Message, m': Message)
    requires Follows(m0, m) && Follows(m, m')
    ensures Follows(m0, m')
    ensures forall a :: Posted(m0, m', a) == Posted(m0, m, a) + Posted(m, m', a)
  {
  }

  lemma DeliverNothing(c: Config, m: Message, table: Table, id: MsgId, codes: map<Addr, int>, now: Time)
    ensures DeliverTo(c, m, ForTable(table, id, {}, codes, now)) == m
  {
    var m' := DeliverTo(c, m, ForTable(table, id, {}, codes, now));
    assert m'.to == m.to && m'.addTo == m.addTo;
  }

  /** Both tables, one after the other. */
  lemma DeliverBoth(c: Config, m: Message, d: After, a: Addr)
    requires d.Deliver?
    ensures var mid := DeliverTo(c, m, ForTable(MsgTo, d.id, d.to, d.toCodes, d.now));
            var end := DeliverTo(c, mid, ForTable(MsgAddTo, d.id, d.addTo, d.addToCodes, d.now));
            && end == DeliverTo(c, m, d)
            && Posted(m, end, a) == Posted(m, mid, a) + Posted(mid, end, a)
  {
    var mid := DeliverTo(c, m, ForTable(MsgTo, d.id, d.to, d.toCodes, d.now));
    var end := DeliverTo(c, mid, ForTable(MsgAddTo, d.id, d.addTo, d.addToCodes, d.now));
    assert end.to == DeliverTo(c, m, d).to;
    assert end.addTo == DeliverTo(c, m, d).addTo;
  }

  /** The same rows, files and totals. */
  ghost predicate Agrees(w: World, v: World) {
    && w.db == v.db && w.files == v.files
    && forall a :: Count(w.send, a) == Count(v.send, a) && Count(w.recv, a) == Count(v.recv, a)
                   && Count(w.late, a) == Count(v.late, a)
  }

  lemma RemovedByNext(hooks: seq<Hook>, i: nat)
    requires i < |hooks| && hooks[i].RemoveFile?
    ensures RemovedBy(hooks[..i + 1]) == RemovedBy(hooks[..i]) + {hooks[i].path}
  {
    assert hooks[..i + 1] == hooks[..i] + [RemoveFile(hooks[i].path)];
    RemovedByPlus(hooks[..i], hooks[i].path);
  }

  function Mid(c: Config, m: Message, d: After): (after: Message)
    requires d.Deliver?
  {
    DeliverTo(c, m, ForTable(MsgTo, d.id, d.to, d.toCodes, d.now))
  }

  function End(c: Config, m: Message, d: After): (after: Message)
    requires d.Deliver?
  {
    DeliverTo(c, Mid(c, m, d), ForTable(MsgAddTo, d.id, d.addTo, d.addToCodes, d.now))
  }

  /** What one delivery of both tables counts for a. */
  lemma DeliveryCounts(c: Config, w: World, d: After, a: Addr)
    requires d.Deliver? && d.id in w.db.msgs
    ensures var m := w.db.msgs[d.id];
            var posted := Posted(m, Mid(c, m, d), a) + Posted(Mid(c, m, d), End(c, m, d), a);
            var after := RunAfter(c, w, d);
            && Count(after.send, a) == Count(w.send, a) + (if d.recordSend && a == m.from then StoredSize(m) else 0)
            && Count(after.recv, a) == Count(w.recv, a) + posted
            && Count(after.late, a) == Count(w.late, a) + (if OwnPurged(w.db, a, d.id) then posted else 0)
            && after.db == Put(w.db, d.id, End(c, m, d))
  {
    var m := w.db.msgs[d.id];
    DeliverBoth(c, m, d, a);
    DeliveryPosts(c, w, d, a);
  }

  /** What one address's counters come to over both calls of local delivery. */
  predicate CountsBoth(w: World, v: World, d: After, a: Addr, size: int, posted: int)
    requires d.Deliver? && d.id in w.db.msgs
  {
    && Count(v.send, a) == Count(w.send, a) + (if d.recordSend && a == w.db.msgs[d.id].from then size else 0)
    && Count(v.recv, a) == Count(w.recv, a) + posted
    && Count(v.late, a) == Count(w.late, a) + (if OwnPurged(w.db, a, d.id) then posted else 0)
  }

  lemma CountsAgree(c: Config, w: World, v: World, d: After, a: Addr)
    requires d.Deliver? && d.id in w.db.msgs
    requires var m := w.db.msgs[d.id];
             CountsBoth(w, v, d, a, StoredSize(m), Posted(m, Mid(c, m, d), a) + Posted(Mid(c, m, d), End(c, m, d), a))
    ensures var after := RunAfter(c, w, d);
            && Count(v.send, a) == Count(after.send, a) && Count(v.recv, a) == Count(after.recv, a)
            && Count(v.late, a) == Count(after.late, a)
  {
    DeliveryCounts(c, w, d, a);
  }

  /** The two calls of local delivery come to one delivery of both tables. */
  lemma DeliveriesAgree(c: Config, w: World, v: World, d: After)
    requires d.Deliver? && d.id in w.db.msgs && v.files == w.files
    requires v.db == Put(Put(w.db, d.id, Mid(c, w.db.msgs[d.id], d)), d.id, End(c, w.db.msgs[d.id], d))
    requires forall a :: var m := w.db.msgs[d.id];
               CountsBoth(w, v, d, a, StoredSize(m), Posted(m, Mid(c, m, d), a) + Posted(Mid(c, m, d), End(c, m, d), a))
    ensures Agrees(v, RunAfter(c, w, d))
  {
    var m := w.db.msgs[d.id];
    var after := RunAfter(c, w, d);
    forall a ensures Count(v.send, a) == Count(after.send, a) && Count(v.recv, a) == Count(after.recv, a)
                     && Count(v.late, a) == Count(after.late, a)
    {
      CountsAgree(c, w, v, d, a);
    }
    DeliveryCounts(c, w, d, m.from);
    PutTwice(w.db, d.id, Mid(c, m, d), End(c, m, d));
  }

  lemma PutTwice(db: Db, id: MsgId, m: Message, m': Message)
    requires id in db.msgs
    ensures Put(Put(db, id, m), id, m').msgs == Put(db, id, m').msgs
  {
  }

  /** What one hook may come after the file removals, for what a request leaves. */
  ghost predicate LastHook(h: Hook, after: After) {
    match after
    case Nothing => false
    case Deliver(_, _, _, _, _, _, _) => h == ResolveDelivery(after)
    case Release(a, send, recv) =>
      h.ReleaseUsage? && h.addr == a && Given(h.releases, Sent) == send && Given(h.releases, Received) == recv
  }

  predicate NothingToPost(after: After) {
    after == Nothing || (after.Release? && after.send == 0 && after.recv == 0)
  }

  lemma TailIsShort(hooks: seq<Hook>, after: After)
    requires Tail(hooks, after)
    ensures |hooks| <= 1
    ensures if hooks == [] then NothingToPost(after) else LastHook(hooks[0], after)
  {
    if after.Release? {
      var releases :| Given(releases, Sent) == after.send && Given(releases, Received) == after.recv
                      && hooks == if releases == [] then [] else [ReleaseUsage(after.addr, releases)];
    }
  }

  /** Where the file removals end, and what the one hook after them is. */
  lemma RemovalsFirst(hooks: seq<Hook>, removed: set<Path>, after: After) returns (k: nat)
    requires Leaves(hooks, removed, after)
    ensures k <= |hooks| <= k + 1 && RemovedBy(hooks[..0]) == {} && RemovedBy(hooks[..k]) == removed
    ensures forall i :: 0 <= i < k ==> hooks[i].RemoveFile?
    ensures if |hooks| == k then NothingToPost(after) else LastHook(hooks[k], after)
  {
    k :| 0 <= k <= |hooks|
         && (forall i :: 0 <= i < k ==> hooks[i].RemoveFile?) && RemovedBy(hooks[..k]) == removed && Tail(hooks[k..], after);
    TailIsShort(hooks[k..], after);
  }

  lemma NothingPosted(c: Config, w: World, after: After)
    ensures NothingToPost(after) ==> Agrees(w, RunAfter(c, w, after))
  {
  }

  lemma CreatesFresh(c: Config, db: Db, caller: Addr, r: Request, files: set<Path>)
    requires r.CreateReq? || r.UpdateReq? ==> r.draft.path !in files
    requires r.ReactReq? || r.UploadReq? ==> r.file.path !in files
    ensures Handle(c, db, caller, r).Done? ==> Handle(c, db, caller, r).created !! files
  {
  }

  /** Conclude, once the handler's new files are among the files. */
  ghost function Concluded(c: Config, w: World, o: Outcome, commit: Commit): (after: World)
    requires o.Done?
  {
    match commit
    case StatementFailed => w.(files := w.files - o.created)
    case NotCommitted => w
    case AckLost => w.(db := o.db)
    case Acknowledged => RunAfter(c, w.(db := o.db, files := w.files - o.removed), o.after)
  }

  lemma StepEnds(c: Config, w: World, caller: Addr, r: Request, commit: Commit)
    requires r.CreateReq? || r.UpdateReq? ==> r.draft.path !in w.files
    requires r.ReactReq? || r.UploadReq? ==> r.file.path !in w.files
    ensures var o := Handle(c, w.db, caller, r);
            Step(c, w, Api(caller, r, commit))
            == if o.Refused? then w else Concluded(c, w.(files := w.files + o.created), o, commit)
  {
    CreatesFresh(c, w.db, caller, r, w.files);
  }

  class Server {
    const c: Config
    var db: Db
    var files: set<Path>
    var send: map<Addr, int>
    var recv: map<Addr, int>
    var late: map<Addr, int>

    constructor (c: Config)
      ensures this.c == c && View() == EMPTY_HOST
    {
      this.c, db, files := c, EMPTY_DB, {};
      send, recv, late := map[], map[], map[];
    }

    function View(): (after: World)
      reads this
    {
      World(db, files, send, recv, late)
    }

    /** Resolves a's row of m, if it is local and has no outcome yet. */
    method ResolveOne(table: Table, id: MsgId, m: Message, size: int, a: Addr, codes: map<Addr, int>, now: Time)
      returns (m': Message)
      requires size == StoredSize(m)
      modifies this`recv, this`late
      ensures m' == ResolveRow(c, m, table, a, codes, now)
      ensures forall b :: Count(recv, b) == Count(old(recv), b) + Posted(m, m', b)
      ensures forall b :: Count(late, b) == Count(old(late), b) + if OwnPurged(db, b, id) then Posted(m, m', b) else 0
    {
      m' := ResolveRow(c, m, table, a, codes, now);
      RowFollows(c, m, table, a, codes, now);
      var delivered := (!DeliveredTo(m, a) && DeliveredTo(m', a)) || (!DeliveredAddTo(m, a) && DeliveredAddTo(m', a));
      if delivered {
        recv := recv[a := Count(recv, a) + size];
        if OwnPurged(db, a, id) {
          late := late[a := Count(late, a) + size];
        }
      }
    }

    /** Resolves the local rows among addrs, recording what it delivers. */
    method ResolveLocalDelivery(table: Table, id: MsgId, addrs: set<Addr>, codes: map<Addr, int>, now: Time)
      requires id in db.msgs
      modifies this`db, this`recv, this`late
      ensures var m := old(db).msgs[id];
              var m' := DeliverTo(c, m, ForTable(table, id, addrs, codes, now));
              && db == Put(old(db), id, m')
              && (forall a :: Count(recv, a) == Count(old(recv), a) + Posted(m, m', a))
              && (forall a :: Count(late, a) == Count(old(late), a) + if OwnPurged(db, a, id) then Posted(m, m', a) else 0)
    {
      ghost var m0 := db.msgs[id];
      var m := db.msgs[id];
      var rest := addrs;
      var size := MessageStoredSize(m.parts);
      DeliverNothing(c, m, table, id, codes, now);
      assert addrs - rest == {};
      while rest != {}
        invariant rest <= addrs && db == old(db)
        invariant m == DeliverTo(c, m0, ForTable(table, id, addrs - rest, codes, now))
        invariant Follows(m0, m) && size == StoredSize(m0)
        invariant forall a :: Count(recv, a) == Count(old(recv), a) + Posted(m0, m, a)
        invariant forall a :: Count(late, a) == Count(old(late), a) + if OwnPurged(db, a, id) then Posted(m0, m, a) else 0
      {
        var a :| a in rest;
        ResolveNext(c, m0, table, id, addrs - rest, a, codes, now);
        RowFollows(c, m, table, a, codes, now);
        assert addrs - (rest - {a}) == addrs - rest + {a};
        rest := rest - {a};
        var m' := ResolveOne(table, id, m, size, a, codes, now);
        PostedAdds(m0, m, m');
        m := m';
      }
      assert addrs - {} == addrs;
      db := Put(db, id, m);
    }

    /** What Send, AddRecipients and React leave for after the commit. */
    method Deliveries(d: After)
      requires d.Deliver?
      modifies this`db, this`send, this`recv, this`late
      ensures Agrees(View(), RunAfter(c, old(View()), d))
    {
      if d.id !in db.msgs {
        return;
      }
      ghost var w := View();
      if d.recordSend {
        var size := MessageStoredSize(db.msgs[d.id].parts);
        send := Plus(send, map[db.msgs[d.id].from := size]);
      }
      ResolveLocalDelivery(MsgTo, d.id, d.to, d.toCodes, d.now);
      ResolveLocalDelivery(MsgAddTo, d.id, d.addTo, d.addToCodes, d.now);
      DeliveriesAgree(c, w, View(), d);
    }

    /** Posts each release to fmsgid. */
    method PostReleases(a: Addr, releases: seq<UsageRelease>)
      modifies this`send, this`recv
      ensures forall b :: Count(send, b) == Count(old(send), b) - if b == a then Given(releases, Sent) else 0
      ensures forall b :: Count(recv, b) == Count(old(recv), b) - if b == a then Given(releases, Received) else 0
    {
      assert releases[..0] == [] && Given([], Sent) == 0 && Given([], Received) == 0;
      for i := 0 to |releases|
        invariant forall b :: Count(send, b) == Count(old(send), b) - if b == a then Given(releases[..i], Sent) else 0
        invariant forall b :: Count(recv, b) == Count(old(recv), b) - if b == a then Given(releases[..i], Received) else 0
      {
        assert releases[..i + 1][..i] == releases[..i];
        var r := releases[i];
        if r.send {
          send := Plus(send, map[a := -r.size]);
        } else {
          recv := Plus(recv, map[a := -r.size]);
        }
      }
      assert releases[..|releases|] == releases;
    }

    method RunHook(h: Hook)
      requires h.ResolveDelivery? ==> h.delivery.Deliver?
      modifies this
      ensures match h
              case RemoveFile(path) => View() == old(View()).(files := old(files) - {path})
              case ReleaseUsage(a, releases) =>
                Agrees(View(), RunAfter(c, old(View()), Release(a, Given(releases, Sent), Given(releases, Received))))
              case ResolveDelivery(d) => Agrees(View(), RunAfter(c, old(View()), d))
    {
      match h
      case RemoveFile(path) => files := files - {path};
      case ReleaseUsage(a, releases) => PostReleases(a, releases);
      case ResolveDelivery(d) => Deliveries(d);
    }

    /** Runs what the handler left for after the commit, in order. */
    method RunCommitHooks(hooks: seq<Hook>, ghost removed: set<Path>, ghost after: After)
      requires Leaves(hooks, removed, after)
      modifies this
      ensures Agrees(View(), RunAfter(c, old(View()).(files := old(files) - removed), after))
    {
      ghost var w := View();
      ghost var k := RemovalsFirst(hooks, removed, after);
      for i := 0 to |hooks|
        invariant i <= k ==> View() == w.(files := w.files - RemovedBy(hooks[..i]))
        invariant i > k ==> i == |hooks| && Agrees(View(), RunAfter(c, w.(files := w.files - removed), after))
      {
        if i < k {
          RemovedByNext(hooks, i);
        }
        RunHook(hooks[i]);
      }
      NothingPosted(c, View(), after);
    }

    /** Runs what the handler registered for a rollback. */
    method Undo(created: seq<Path>)
      modifies this`files
      ensures files == old(files) - AsPaths(created)
    {
      assert created[..0] == [] && AsPaths([]) == {};
      for i := 0 to |created|
        invariant files == old(files) - AsPaths(created[..i])
      {
        assert created[..i + 1] == created[..i] + [created[i]];
        AsPathsPlus(created[..i], [created[i]]);
        AsPathsSmall(created[i]);
        files := files - {created[i]};
      }
      assert created[..|created|] == created;
    }

    /** Gives up on a handler that a failing statement ended, wherever that was:
        the transaction is rolled back and its files are gone again. */
    method Abandon(tx: Handler)
      requires tx.Undoable() && tx.start == files
      modifies this`files
      ensures View() == old(View())
    {
      files := tx.files;
      Undo(tx.rollback);
    }

    /** Commits what the handler left, if the handler answered well, and
        runs the hooks that the outcome calls for. */
    method Finish(ok: bool, commit: Commit, after: Db, rollback: seq<Path>, hooks: seq<Hook>, ghost o: Outcome)
      requires ok <==> o.Done?
      requires ok ==> after == o.db && AsPaths(rollback) == o.created && Leaves(hooks, o.removed, o.after)
      modifies this
      ensures if ok then Agrees(View(), Concluded(c, old(View()), o, commit))
              else View() == old(View()).(files := old(files) - AsPaths(rollback))
    {
      var committed, commitAttempted := false, false;
      if ok && commit != StatementFailed {
        commitAttempted := true;
        if commit != NotCommitted {
          db := after;
        }
        if commit == Acknowledged {
          committed := true;
          RunCommitHooks(hooks, o.removed, o.after);
        }
      }
      if !committed && !commitAttempted {
        Undo(rollback);
      }
    }

    /** Serves one request in one transaction. commit says how it ends once the
        handler has answered. New files get names nothing has. */
    method Atomic(caller: Addr, req: Request, commit: Commit)
      requires IdsBelow(db) && BatchesValid(db)
      requires req.CreateReq? || req.UpdateReq? ==> req.draft.path !in files
      requires req.ReactReq? || req.UploadReq? ==> req.file.path !in files
      modifies this
      ensures Agrees(View(), Step(c, old(View()), Api(caller, req, commit)))
    {
      var tx := new Handler(c, caller, db, files);
      var ok := tx.Serve(req);
      ghost var o := Handle(c, db, caller, req);
      StepEnds(c, View(), caller, req, commit);
      files := tx.files;
      Finish(ok, commit, tx.db, tx.rollback, tx.commit, o);
    }
  }
}
