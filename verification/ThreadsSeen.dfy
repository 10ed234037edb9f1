/**
 What one identity's trash requests change of the threads everybody else is
 shown (internal/handlers/trash.go, removeIfUnheld; internal/handlers/thread.go,
 ThreadMessages).
*/
module ThreadsSeen {
  import opened Basics
  import opened Store
  import opened Walks
  import opened Trash
  import opened Operations
  import opened Structure
  import opened Threads
  import opened Bystanders

  // ---- Lineages ----

  /** Where a lineage is free of gone from. */
  function FreeFrom(gone: set<MsgId>, path: seq<MsgId>): (from: nat)
    ensures from <= |path| && (from > 0 ==> path[from - 1] in gone)
    ensures forall i :: from <= i < |path| ==> path[i] !in gone
    decreases |path|
  {
    if path == [] || path[|path| - 1] in gone then |path| else FreeFrom(gone, path[..|path| - 1])
  }

  /** What is left of a lineage below the first message to go. */
  lemma LineageLeft(db: Db, gone: set<MsgId>, path: seq<MsgId>, id: MsgId, from: nat)
    requires Lineage(db, path, id) && from < |path|
    requires forall i :: from <= i < |path| ==> path[i] !in gone
    requires from > 0 ==> path[from - 1] in gone
    ensures Lineage(Drop(db, gone), path[from..], id)
  {
    var left := path[from..];
    forall i | 0 <= i < |left|
      ensures left[i] in Drop(db, gone).msgs
      ensures Parent(Drop(db, gone), left[i]) == if i == 0 then None else Some(left[i - 1])
    {
      assert left[i] == path[from + i];
      assert from + i > 0 ==> Parent(db, path[from + i]) == Some(path[from + i - 1]);
    }
  }

  lemma SameLineage(db: Db, other: Db, path: seq<MsgId>, id: MsgId)
    requires other.msgs == db.msgs
    ensures Lineage(other, path, id) <==> Lineage(db, path, id)
  {
    assert forall x :: Parent(other, x) == Parent(db, x);
  }

  /** A purge leaves a message's lineage as it was if and only if nothing on it
      will leave. */
  lemma PurgeKeepsLineageIff(c: Config, db: Db, caller: Addr, top: MsgId, thread: bool, now: Time,
                             path: seq<MsgId>, id: MsgId)
    requires Purge(c, db, caller, top, thread, now).Done? && Lineage(db, path, id)
    ensures Lineage(Purge(c, db, caller, top, thread, now).db, path, id)
            <==> forall i :: 0 <= i < |path| ==> !WillLeave(c, db, caller, top, now, path[i])
  {
    var marked, gone, _ := PurgeCuts(c, db, caller, top, thread, now, id);
    if forall i :: 0 <= i < |path| ==> !WillLeave(c, db, caller, top, now, path[i]) {
      SameLineage(db, marked, path, id);
      LineageLeft(marked, gone, path, id, 0);
      assert path[0..] == path;
    }
  }

  // ---- What a thread shows ----

  /** The request will change the thread a is shown for id: it removes id while
      a gets an answer about it, or the first message to leave is close enough to
      shorten what is shown, or it lets go of what was not to be found. */
  ghost predicate AltersThread(c: Config, db: Db, caller: Addr, r: Request, a: Addr, addrs: set<Addr>, id: MsgId) {
    && id in db.msgs
    && var m := db.msgs[id];
       var found := StateOf(db, a, id) != Purged && (m.sent.Some? || Sees(addrs, m));
       if Purges(db, r) then
         if WillLeave(c, db, caller, r.id, r.now, id) then found
         else if StateOf(db, a, id) == Purged then
           LetsGo(c, db, caller, r.id, r.now, a, id) && (m.sent.Some? || Sees(addrs, m))
         else Sees(addrs, m) && exists k: nat :: k <= THREAD_MAX_HOPS && FirstLeaving(c, db, caller, r.id, r.now, id, k)
       else r.DeleteReq? && m.sent.None? && r.id == id && found
  }

  lemma SameSees(addrs: set<Addr>, m: Message, m': Message)
    requires m'.(pid := None) == m.(pid := None)
    ensures Sees(addrs, m') == Sees(addrs, m) && m'.sent == m.sent
  {
    assert m'.from == m'.(pid := None).from && m'.to == m'.(pid := None).to && m'.addTo == m'.(pid := None).addTo
        && m'.sent == m'.(pid := None).sent;
    assert m.from == m.(pid := None).from && m.to == m.(pid := None).to && m.addTo == m.(pid := None).addTo
        && m.sent == m.(pid := None).sent;
  }

  /** after is db without gone, with a's trash rows on what stays. */
  predicate CutFor(db: Db, after: Db, gone: set<MsgId>, a: Addr) {
    after.msgs == Drop(db, gone).msgs && SameRows(db, after, a, after.msgs.Keys)
  }

  lemma PurgeIsCut(c: Config, db: Db, caller: Addr, top: MsgId, thread: bool, now: Time,
                   a: Addr) returns (gone: set<MsgId>)
    requires Purge(c, db, caller, top, thread, now).Done? && a != caller
    ensures CutFor(db, Purge(c, db, caller, top, thread, now).db, gone, a)
    ensures forall x :: x in gone <==> WillLeave(c, db, caller, top, now, x)
  {
    var marked, first;
    marked, gone, first := PurgeCuts(c, db, caller, top, thread, now, top);
  }

  /** What stands on a lineage nothing leaves stands for a as it did. */
  lemma LineageStands(db: Db, after: Db, gone: set<MsgId>, a: Addr, path: seq<MsgId>, id: MsgId)
    requires CutFor(db, after, gone, a) && Lineage(db, path, id) && forall x :: x in path ==> x !in gone
    ensures Lineage(after, path, id)
    ensures forall x :: x in path ==>
              && x in db.msgs && x in after.msgs && after.msgs[x] == db.msgs[x]
              && StateOf(after, a, x) == StateOf(db, a, x)
  {
    var s := set x | x in path;
    forall x | x in path
      ensures x in db.msgs && x in after.msgs && after.msgs[x] == db.msgs[x]
      ensures Parent(db, x).Some? ==> Parent(db, x).value in s
    {
      var i :| 0 <= i < |path| && path[i] == x;
      assert i > 0 ==> Parent(db, path[i]) == Some(path[i - 1]);
      assert i > 0 ==> path[i - 1] in path;
    }
    forall x | x in path ensures StateOf(after, a, x) == StateOf(db, a, x) {
      SameWithinSameState(db, after, a, s, x);
    }
    assert forall i :: 0 <= i < |path| ==> path[i] in path && Parent(after, path[i]) == Parent(db, path[i]);
  }

  /** The same entries make the same thread. */
  lemma SameEntriesRender(db: Db, after: Db, a: Addr, addrs: set<Addr>, path: seq<MsgId>)
    requires forall i :: 0 <= i < |path| ==>
               path[i] in db.msgs && path[i] in after.msgs && EntryOf(after, a, addrs, path[i]) == EntryOf(db, a, addrs, path[i])
    ensures Render(after, a, addrs, path) == Render(db, a, addrs, path)
  {
    var one := seq(|path|, i requires 0 <= i < |path| => EntryOf(db, a, addrs, path[i]));
    var two := seq(|path|, i requires 0 <= i < |path| => EntryOf(after, a, addrs, path[i]));
    assert one == two;
  }

  /** A thread from which something leaves near enough is shown shorter. */
  lemma ShorterRenders(db: Db, after: Db, a: Addr, addrs: set<Addr>, path: seq<MsgId>, left: seq<MsgId>)
    requires |left| < |path|
    requires (forall i :: 0 <= i < |path| ==> path[i] in db.msgs) && (forall i :: 0 <= i < |left| ==> left[i] in after.msgs)
    ensures Render(after, a, addrs, left) != Render(db, a, addrs, path)
  {
    assert |Render(after, a, addrs, left).messages| != |Render(db, a, addrs, path).messages|;
  }

  /** What is left of id's lineage. */
  lemma LineageAfterPurge(c: Config, db: Db, caller: Addr, top: MsgId, thread: bool, now: Time,
                          path: seq<MsgId>, id: MsgId)
    returns (from: nat)
    requires Purge(c, db, caller, top, thread, now).Done? && Lineage(db, path, id)
    requires !WillLeave(c, db, caller, top, now, id)
    ensures from < |path| && (from > 0 ==> WillLeave(c, db, caller, top, now, path[from - 1]))
    ensures forall i :: from <= i < |path| ==> !WillLeave(c, db, caller, top, now, path[i])
    ensures Lineage(Purge(c, db, caller, top, thread, now).db, path[from..], id)
  {
    var marked, gone, _ := PurgeCuts(c, db, caller, top, thread, now, id);
    from := FreeFrom(gone, path);
    assert path[|path| - 1] == id;
    SameLineage(db, marked, path, id);
    LineageLeft(marked, gone, path, id, from);
  }

  /** How far up the first message of a lineage to leave is. */
  lemma FirstLeavingIs(c: Config, db: Db, caller: Addr, top: MsgId, now: Time, path: seq<MsgId>, id: MsgId, from: nat)
    requires Lineage(db, path, id) && from < |path| && (from > 0 ==> WillLeave(c, db, caller, top, now, path[from - 1]))
    requires forall i :: from <= i < |path| ==> !WillLeave(c, db, caller, top, now, path[i])
    ensures forall k: nat :: FirstLeaving(c, db, caller, top, now, id, k) <==> from > 0 && k == |path| - from
  {
    forall k: nat ensures Ancestor(db, id, k) == if k < |path| then Some(path[|path| - 1 - k]) else None {
      LineageAncestor(db, path, id, k);
    }
    forall k: nat ensures FirstLeaving(c, db, caller, top, now, id, k) <==> from > 0 && k == |path| - from {
      if from > 0 && k > |path| - from {
        var j: nat := |path| - from;
        assert Ancestor(db, id, j) == Some(path[from - 1]);
      }
    }
  }

  /** The same lineage: the same answer. */
  lemma WholeLineageThread(db: Db, after: Db, gone: set<MsgId>, a: Addr, addrs: set<Addr>, path: seq<MsgId>, id: MsgId)
    requires CutFor(db, after, gone, a) && Lineage(db, path, id) && forall x :: x in path ==> x !in gone
    ensures ThreadMessages(after, a, addrs, id) == ThreadMessages(db, a, addrs, id)
  {
    LineageStands(db, after, gone, a, path, id);
    assert path[|path| - 1] in path;
    assert forall i :: 0 <= i < |path| ==> path[i] in path;
    SameEntriesRender(db, after, a, addrs, path);
    ThreadIsExactOrRefused(db, a, addrs, path, id);
    ThreadIsExactOrRefused(after, a, addrs, path, id);
  }

  /** A shorter one is another answer if it is close enough to be shown. */
  lemma ShortLineageThread(db: Db, after: Db, a: Addr, addrs: set<Addr>, path: seq<MsgId>, left: seq<MsgId>, id: MsgId)
    requires Lineage(db, path, id) && Lineage(after, left, id) && |left| < |path|
    requires StateOf(db, a, id) != Purged && StateOf(after, a, id) != Purged
    requires Sees(addrs, after.msgs[id]) == Sees(addrs, db.msgs[id]) && after.msgs[id].sent == db.msgs[id].sent
    ensures ThreadMessages(after, a, addrs, id) == ThreadMessages(db, a, addrs, id)
            <==> !(Sees(addrs, db.msgs[id]) && |left| <= THREAD_MAX_HOPS)
  {
    ThreadIsExactOrRefused(db, a, addrs, path, id);
    ThreadIsExactOrRefused(after, a, addrs, left, id);
    ShorterRenders(db, after, a, addrs, path, left);
  }

  /** The purge removes nothing of id's lineage, or some of it. */
  lemma PurgeKeepsWholeThread(c: Config, db: Db, caller: Addr, top: MsgId, thread: bool, now: Time,
                              a: Addr, addrs: set<Addr>, path: seq<MsgId>, id: MsgId)
    requires Purge(c, db, caller, top, thread, now).Done? && a != caller && Lineage(db, path, id)
    requires forall i :: 0 <= i < |path| ==> !WillLeave(c, db, caller, top, now, path[i])
    ensures ThreadMessages(Purge(c, db, caller, top, thread, now).db, a, addrs, id) == ThreadMessages(db, a, addrs, id)
  {
    var gone := PurgeIsCut(c, db, caller, top, thread, now, a);
    WholeLineageThread(db, Purge(c, db, caller, top, thread, now).db, gone, a, addrs, path, id);
  }

  lemma PurgeShortensThreadIff(c: Config, db: Db, caller: Addr, top: MsgId, thread: bool, now: Time,
                               a: Addr, addrs: set<Addr>, path: seq<MsgId>, id: MsgId, left: seq<MsgId>)
    requires Purge(c, db, caller, top, thread, now).Done? && a != caller && Lineage(db, path, id)
    requires StateOf(db, a, id) != Purged && !WillLeave(c, db, caller, top, now, id)
    requires Lineage(Purge(c, db, caller, top, thread, now).db, left, id) && |left| < |path|
    ensures ThreadMessages(Purge(c, db, caller, top, thread, now).db, a, addrs, id) == ThreadMessages(db, a, addrs, id)
            <==> !(Sees(addrs, db.msgs[id]) && |left| <= THREAD_MAX_HOPS)
  {
    PurgeKeepsRow(c, db, caller, top, thread, now, id);
    SameSees(addrs, db.msgs[id], Purge(c, db, caller, top, thread, now).db.msgs[id]);
    PurgeKeepsStateIff(c, db, caller, top, thread, now, a, id);
    ShortLineageThread(db, Purge(c, db, caller, top, thread, now).db, a, addrs, path, left, id);
  }

  /** What a is answered for a message that stays and that reads not purged for it. */
  lemma PurgeKeepsFoundThreadIff(c: Config, db: Db, caller: Addr, top: MsgId, thread: bool, now: Time,
                                 a: Addr, addrs: set<Addr>, path: seq<MsgId>, id: MsgId)
    requires Purge(c, db, caller, top, thread, now).Done? && a != caller && Lineage(db, path, id)
    requires StateOf(db, a, id) != Purged && !WillLeave(c, db, caller, top, now, id)
    ensures ThreadMessages(Purge(c, db, caller, top, thread, now).db, a, addrs, id) == ThreadMessages(db, a, addrs, id)
            <==> !(Sees(addrs, db.msgs[id])
                   && exists k: nat :: k <= THREAD_MAX_HOPS && FirstLeaving(c, db, caller, top, now, id, k))
  {
    var from := LineageAfterPurge(c, db, caller, top, thread, now, path, id);
    FirstLeavingIs(c, db, caller, top, now, path, id, from);
    if from == 0 {
      PurgeKeepsWholeThread(c, db, caller, top, thread, now, a, addrs, path, id);
    } else {
      assert FirstLeaving(c, db, caller, top, now, id, |path| - from);
      PurgeShortensThreadIff(c, db, caller, top, thread, now, a, addrs, path, id, path[from..]);
    }
  }

  lemma NotStoredNotFound(db: Db, a: Addr, addrs: set<Addr>, id: MsgId)
    requires id !in db.msgs
    ensures ThreadMessages(db, a, addrs, id) == NotFound
  {
  }

  lemma PurgeKeepsThreadIff(c: Config, db: Db, caller: Addr, r: Request, a: Addr, addrs: set<Addr>, id: MsgId)
    requires Good(db) && Purges(db, r) && Handle(c, db, caller, r).Done? && a != caller
    ensures ThreadMessages(Handle(c, db, caller, r).db, a, addrs, id) == ThreadMessages(db, a, addrs, id)
            <==> !AltersThread(c, db, caller, r, a, addrs, id)
  {
    var after := Handle(c, db, caller, r).db;
    PurgeKeepsRow(c, db, caller, r.id, r.thread, r.now, id);
    if id !in db.msgs {
      NotStoredNotFound(db, a, addrs, id);
      NotStoredNotFound(after, a, addrs, id);
    } else {
      var path := LineageExists(db, id);
      ThreadIsExactOrRefused(db, a, addrs, path, id);
      if WillLeave(c, db, caller, r.id, r.now, id) {
        NotStoredNotFound(after, a, addrs, id);
      } else if StateOf(db, a, id) == Purged {
        HandleKeepsGood(c, db, caller, r);
        PurgeEndsPurgedIff(c, db, caller, r.id, r.thread, r.now, a, id);
        var left := LineageExists(after, id);
        ThreadIsExactOrRefused(after, a, addrs, left, id);
        SameSees(addrs, db.msgs[id], after.msgs[id]);
      } else {
        PurgeKeepsFoundThreadIff(c, db, caller, r.id, r.thread, r.now, a, addrs, path, id);
      }
    }
  }

  /** A lineage of what stays is one of before. */
  lemma LineageStays(db: Db, after: Db, path: seq<MsgId>, id: MsgId)
    requires Lineage(after, path, id)
    requires forall x :: x in after.msgs ==> x in db.msgs && Parent(db, x) == Parent(after, x)
    ensures Lineage(db, path, id)
  {
  }

  /** A request that is no purge shows everybody else every other thread as it was. */
  lemma OthersKeepThread(c: Config, db: Db, caller: Addr, r: Request, a: Addr, addrs: set<Addr>, id: MsgId)
    requires Good(db) && TrashRequest(r) && !Purges(db, r) && Handle(c, db, caller, r).Done? && a != caller
    requires id in Handle(c, db, caller, r).db.msgs
    ensures ThreadMessages(Handle(c, db, caller, r).db, a, addrs, id) == ThreadMessages(db, a, addrs, id)
  {
    var after := Handle(c, db, caller, r).db;
    var _ := OthersStay(c, db, caller, r);
    HandleKeepsGood(c, db, caller, r);
    var path := LineageExists(after, id);
    LineageStays(db, after, path, id);
    ThreadIsExactOrRefused(after, a, addrs, path, id);
    ThreadIsExactOrRefused(db, a, addrs, path, id);
    OthersStand(c, db, caller, r, a, id);
    forall i | 0 <= i < |path| ensures EntryOf(after, a, addrs, path[i]) == EntryOf(db, a, addrs, path[i]) {
      OthersStand(c, db, caller, r, a, path[i]);
    }
    SameEntriesRender(db, after, a, addrs, path);
  }

  /** Whatever somebody else asks of their trash, the thread a is shown for a
      message is as it was unless the request will alter just that. */
  lemma TrashKeepsThreadIff(c: Config, db: Db, caller: Addr, r: Request, a: Addr, addrs: set<Addr>, id: MsgId)
    requires Good(db) && TrashRequest(r) && Handle(c, db, caller, r).Done? && a != caller
    ensures ThreadMessages(Handle(c, db, caller, r).db, a, addrs, id) == ThreadMessages(db, a, addrs, id)
            <==> !AltersThread(c, db, caller, r, a, addrs, id)
  {
    if Purges(db, r) {
      PurgeKeepsThreadIff(c, db, caller, r, a, addrs, id);
    } else {
      var gone := OthersStay(c, db, caller, r);
      if id in Handle(c, db, caller, r).db.msgs {
        OthersKeepThread(c, db, caller, r, a, addrs, id);
      } else {
        NotStoredNotFound(Handle(c, db, caller, r).db, a, addrs, id);
        if id !in db.msgs {
          NotStoredNotFound(db, a, addrs, id);
        } else {
          var path := LineageExists(db, id);
          ThreadIsExactOrRefused(db, a, addrs, path, id);
        }
      }
    }
  }
}
