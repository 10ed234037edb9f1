/**
 What holds over whole runs of a host: deleting for good is final, files never
 dangle; and what a purge does to the caller's thread and, by removing
 messages, to other people's.
*/
module Finality {
  import opened Basics
  import opened Store
  import opened Walks
  import opened Trash
  import opened Operations
  import opened Host
  import opened Structure
  import opened FileSafety
  import opened Bystanders

  // ---- The caller's thread ----

  /** After a purge everything in the subtree that is still stored has the
      caller's own purged row. */
  lemma PurgeHidesSubtree(c: Config, db: Db, caller: Addr, top: MsgId, thread: bool, now: Time, id: MsgId)
    requires Purge(c, db, caller, top, thread, now).Done? && id in Subtree(db, caller, top)
    ensures var after := Purge(c, db, caller, top, thread, now).db;
            id in after.msgs ==> OwnPurged(after, caller, id) && StateOf(after, caller, id) == Purged
  {
    var after := Purge(c, db, caller, top, thread, now).db;
    MarkPurgedCovers(db, caller, top, if thread then Some(top) else None, now, id);
    OwnRowDecides(after, caller, id);
  }

  lemma OwnRowDecides(db: Db, a: Addr, id: MsgId)
    ensures OwnPurged(db, a, id) ==> StateOf(db, a, id) == Purged
  {
    assert Ancestor(db, id, 0) == Some(id);
    UpWalkIs(db, id, WALK_CAP, id);
  }

  /** A thread delete puts the whole thread below it in the caller's trash. */
  lemma ThreadDeleteHidesThread(db: Db, caller: Addr, top: MsgId, now: Time, id: MsgId)
    requires TrashSent(db, caller, top, true, now).Done?
    requires id in DownWalk(db, top, WALK_CAP)
    ensures StateOf(TrashSent(db, caller, top, true, now).db, caller, id) in {InThread, Purged}
  {
    var after := TrashSent(db, caller, top, true, now).db;
    WalksAreConverse(db, top, id, WALK_CAP);
    WalksAreConverse(after, top, id, WALK_CAP);
    SameLinksSameWalk(db, after, id, WALK_CAP);
    BelowMark(after, caller, top, id);
  }

  // ---- Purged for good ----

  /** id has been given out, and while it is stored a has deleted it for good. */
  predicate Gone(db: Db, a: Addr, id: MsgId) {
    0 < id < db.nextId && (id in db.msgs ==> OwnPurged(db, a, id))
  }

  lemma HandleKeepsGone(c: Config, db: Db, caller: Addr, r: Request, a: Addr, id: MsgId)
    requires Good(db) && Gone(db, a, id) && Handle(c, db, caller, r).Done?
    ensures Gone(Handle(c, db, caller, r).db, a, id)
  {
  }

  lemma StepKeepsGone(c: Config, w: World, e: Event, a: Addr, id: MsgId)
    requires Good(w.db) && Gone(w.db, a, id)
    ensures Gone(Step(c, w, e).db, a, id)
  {
    if e.Api? {
      var o := Handle(c, w.db, e.caller, e.req);
      if o.Done? && o.created !! w.files {
        HandleKeepsGone(c, w.db, e.caller, e.req, a, id);
      }
    }
  }

  /** Purge is final: whatever happens afterwards, a message an address deleted
      for good stays purged for it, in every list mode, until it leaves the
      host; and once it has left it does not come back. */
  lemma {:induction false} PurgeIsFinal(c: Config, w: World, events: seq<Event>, a: Addr, id: MsgId)
    requires Good(w.db) && Gone(w.db, a, id)
    ensures var after := Run(c, w, events).db;
            && Gone(after, a, id)
            && (id in after.msgs ==> StateOf(after, a, id) == Purged)
            && forall mode :: id !in Listed(after, a, mode)
    decreases |events|
  {
    if events == [] {
      OwnRowDecides(w.db, a, id);
    } else {
      StepKeepsGood(c, w, events[0]);
      StepKeepsGone(c, w, events[0], a, id);
      PurgeIsFinal(c, Step(c, w, events[0]), events[1..], a, id);
    }
  }

  // ---- What leaves the host ----

  /** A purge of a sent message that commits. */
  predicate CommittedPurge(db: Db, e: Event) {
    && e.Api? && e.commit in {Acknowledged, AckLost}
    && Purges(db, e.req) && MayTrash(db, e.caller, e.req.id)
  }

  lemma CommittedPurgeIs(c: Config, w: World, e: Event)
    requires CommittedPurge(w.db, e)
    ensures Purge(c, w.db, e.caller, e.req.id, e.req.thread, e.req.now).Done?
    ensures Step(c, w, e).db == Purge(c, w.db, e.caller, e.req.id, e.req.thread, e.req.now).db
  {
  }

  function SentMessages(db: Db): (ids: set<MsgId>) {
    set x | x in db.msgs && db.msgs[x].sent.Some?
  }

  /** Every sent message is still there under the same parent, and what a
      deleted for good still is. */
  ghost predicate Carries(db: Db, after: Db, a: Addr) {
    && SameLinksWithin(db, after, SentMessages(db)) && SentMessages(db) <= SentMessages(after)
    && forall x :: x in SentMessages(db) && OwnPurged(db, a, x) ==> OwnPurged(after, a, x)
  }

  lemma SentLinksToSent(db: Db)
    requires Good(db)
    ensures SameLinksWithin(db, db, SentMessages(db))
  {
    forall x | x in db.msgs && Parent(db, x).Some? ensures Parent(db, x).value in SentMessages(db) {
      assert Linkable(db, db.msgs[x].pid.value);
    }
  }

  lemma HandleKeepsSent(c: Config, db: Db, caller: Addr, r: Request, x: MsgId)
    requires Good(db) && Handle(c, db, caller, r).Done? && !Purges(db, r) && x in SentMessages(db)
    ensures x in SentMessages(Handle(c, db, caller, r).db) && Parent(Handle(c, db, caller, r).db, x) == Parent(db, x)
  {
    if TrashRequest(r) {
      var _ := OthersStay(c, db, caller, r);
    } else {
      WritingKeepsSent(c, db, caller, r, x);
    }
  }

  lemma WritingKeepsSent(c: Config, db: Db, caller: Addr, r: Request, x: MsgId)
    requires Good(db) && Handle(c, db, caller, r).Done? && !TrashRequest(r) && x in SentMessages(db)
    ensures x in SentMessages(Handle(c, db, caller, r).db) && Parent(Handle(c, db, caller, r).db, x) == Parent(db, x)
  {
  }

  lemma HandleKeepsPurged(c: Config, db: Db, caller: Addr, r: Request, a: Addr, x: MsgId)
    requires Good(db) && Handle(c, db, caller, r).Done? && !Purges(db, r) && x in SentMessages(db) && OwnPurged(db, a, x)
    ensures OwnPurged(Handle(c, db, caller, r).db, a, x)
  {
  }

  lemma HandleCarries(c: Config, db: Db, caller: Addr, r: Request, a: Addr)
    requires Good(db) && Handle(c, db, caller, r).Done? && !Purges(db, r)
    ensures Carries(db, Handle(c, db, caller, r).db, a)
  {
    var after := Handle(c, db, caller, r).db;
    SentLinksToSent(db);
    forall x | x in SentMessages(db) ensures x in SentMessages(after) && Parent(after, x) == Parent(db, x) {
      HandleKeepsSent(c, db, caller, r, x);
    }
    forall x | x in SentMessages(db) && OwnPurged(db, a, x) ensures OwnPurged(after, a, x) {
      HandleKeepsPurged(c, db, caller, r, a, x);
    }
  }

  /** A row that keeps its parent and stays sent. */
  lemma PutCarries(db: Db, after: Db, a: Addr, id: MsgId, m: Message)
    requires Good(db) && Carries(db, after, a)
    requires id in db.msgs && db.msgs[id].sent.Some? ==> id in after.msgs && m.pid == after.msgs[id].pid && m.sent.Some?
    ensures Carries(db, Put(after, id, m), a)
  {
    forall x | x in SentMessages(db)
      ensures x in SentMessages(Put(after, id, m)) && Parent(Put(after, id, m), x) == Parent(db, x)
    {
      assert x in SentMessages(after) && Parent(after, x) == Parent(db, x);
    }
  }

  lemma ApiCarries(c: Config, w: World, caller: Addr, r: Request, commit: Commit, a: Addr)
    requires Good(w.db) && !CommittedPurge(w.db, Api(caller, r, commit))
    ensures Carries(w.db, Step(c, w, Api(caller, r, commit)).db, a)
  {
    SentLinksToSent(w.db);
    var o := Handle(c, w.db, caller, r);
    if o.Done? && o.created !! w.files && !Purges(w.db, r) {
      HandleCarries(c, w.db, caller, r, a);
      DeliversSent(c, w.db, caller, r);
      ConcludeCarries(c, w, o, commit, a);
    }
  }

  lemma ConcludeCarries(c: Config, w: World, o: Outcome, commit: Commit, a: Addr)
    requires Good(w.db) && o.Done? && Carries(w.db, o.db, a) && Carries(w.db, w.db, a)
    requires o.after.Deliver? && o.after.id in o.db.msgs ==> o.db.msgs[o.after.id].sent.Some?
    ensures Carries(w.db, Conclude(c, w, o, commit).db, a)
  {
    if o.after.Deliver? && o.after.id in o.db.msgs {
      PutCarries(w.db, o.db, a, o.after.id, DeliverTo(c, o.db.msgs[o.after.id], o.after));
    }
  }

  lemma StepCarries(c: Config, w: World, e: Event, a: Addr)
    requires Good(w.db) && !CommittedPurge(w.db, e)
    ensures Carries(w.db, Step(c, w, e).db, a)
  {
    SentLinksToSent(w.db);
    match e
    case Api(caller, r, commit) => ApiCarries(c, w, caller, r, commit, a);
    case Receive(m) =>
      if MayReceive(c, w, m) {
        PutCarries(w.db, w.db, a, w.db.nextId, m);
      }
    case SetOutcome(id, row, outcome) =>
      if MaySetOutcome(c, w.db, id, row) {
        PutCarries(w.db, w.db, a, id, WithOutcome(w.db.msgs[id], row, outcome));
      }
  }

  /** A sent message leaves the host in a committed purge that nobody but its
      caller here holds it against and that finds nothing of it pending; and by
      nothing else, so not by the passing of time. */
  lemma LeavesIff(c: Config, w: World, e: Event, id: MsgId)
    requires Good(w.db) && id in SentMessages(w.db)
    ensures id !in Step(c, w, e).db.msgs
            <==> CommittedPurge(w.db, e) && WillLeave(c, w.db, e.caller, e.req.id, e.req.now, id)
  {
    if CommittedPurge(w.db, e) {
      CommittedPurgeIs(c, w, e);
      PurgeKeepsRow(c, w.db, e.caller, e.req.id, e.req.thread, e.req.now, id);
    } else {
      StepCarries(c, w, e, w.db.msgs[id].from);
    }
  }

  ghost predicate NeverLeaves(c: Config, w: World, events: seq<Event>, id: MsgId)
    decreases |events|
  {
    events == []
    || (&& !(CommittedPurge(w.db, events[0]) && WillLeave(c, w.db, events[0].caller, events[0].req.id, events[0].req.now, id))
        && NeverLeaves(c, Step(c, w, events[0]), events[1..], id))
  }

  /** So over every run it stays stored, held or not, as long as no such purge comes. */
  lemma {:induction false} StaysWhileNotPurged(c: Config, w: World, events: seq<Event>, id: MsgId)
    requires Good(w.db) && id in SentMessages(w.db) && NeverLeaves(c, w, events, id)
    ensures id in Run(c, w, events).db.msgs
    decreases |events|
  {
    if events != [] {
      LeavesIff(c, w, events[0], id);
      StepKeepsGood(c, w, events[0]);
      StepKeepsSent(c, w, events[0], id);
      StaysWhileNotPurged(c, Step(c, w, events[0]), events[1..], id);
    }
  }

  lemma StepKeepsSent(c: Config, w: World, e: Event, id: MsgId)
    requires Good(w.db) && id in SentMessages(w.db) && id in Step(c, w, e).db.msgs
    ensures id in SentMessages(Step(c, w, e).db)
  {
    if CommittedPurge(w.db, e) {
      CommittedPurgeIs(c, w, e);
      PurgeKeepsRow(c, w.db, e.caller, e.req.id, e.req.thread, e.req.now, id);
      assert Step(c, w, e).db.msgs[id].(pid := None).sent == w.db.msgs[id].(pid := None).sent;
    } else {
      StepCarries(c, w, e, w.db.msgs[id].from);
    }
  }

  // ---- What reads purged ----

  /** The event is a committed purge, by whomever, that lets go of id for a. */
  ghost predicate EndsPurged(c: Config, db: Db, e: Event, a: Addr, id: MsgId) {
    CommittedPurge(db, e) && LetsGo(c, db, e.caller, e.req.id, e.req.now, a, id)
  }

  /** Of all events, a's own included, a sent message that read purged for a and
      is still stored reads otherwise after exactly those that let go of it. */
  lemma EndsPurgedIff(c: Config, w: World, e: Event, a: Addr, id: MsgId)
    requires Good(w.db) && id in SentMessages(w.db) && StateOf(w.db, a, id) == Purged
    requires id in Step(c, w, e).db.msgs
    ensures StateOf(Step(c, w, e).db, a, id) != Purged <==> EndsPurged(c, w.db, e, a, id)
  {
    if CommittedPurge(w.db, e) {
      CommittedPurgeIs(c, w, e);
      PurgeEndsPurgedIff(c, w.db, e.caller, e.req.id, e.req.thread, e.req.now, a, id);
    } else {
      StepCarries(c, w, e, a);
      SameWalkWithin(w.db, Step(c, w, e).db, SentMessages(w.db), id, WALK_CAP);
    }
  }

  ghost predicate NeverEndsPurged(c: Config, w: World, events: seq<Event>, a: Addr, id: MsgId)
    decreases |events|
  {
    events == [] || (!EndsPurged(c, w.db, events[0], a, id) && NeverEndsPurged(c, Step(c, w, events[0]), events[1..], a, id))
  }

  /** So over every run without such an event, what reads purged for a is never
      listed for it again; whether it has a purged row of its own or only
      replies, within reach, to what has. */
  lemma {:induction false} PurgedUntilLetGo(c: Config, w: World, events: seq<Event>, a: Addr, id: MsgId)
    requires Good(w.db) && id in SentMessages(w.db) && StateOf(w.db, a, id) == Purged
    requires NeverEndsPurged(c, w, events, a, id)
    ensures var after := Run(c, w, events).db;
            && (id in after.msgs ==> StateOf(after, a, id) == Purged)
            && forall mode :: id !in Listed(after, a, mode)
    decreases |events|
  {
    if events != [] {
      var next := Step(c, w, events[0]);
      StepKeepsGood(c, w, events[0]);
      if id in next.db.msgs {
        EndsPurgedIff(c, w, events[0], a, id);
        StepKeepsSent(c, w, events[0], id);
        PurgedUntilLetGo(c, next, events[1..], a, id);
      } else {
        IdsOnlyGrow(c, w, events[0]);
        PurgeIsFinal(c, next, events[1..], a, id);
      }
    }
  }

  lemma HandleIdsGrow(c: Config, db: Db, caller: Addr, r: Request)
    requires Handle(c, db, caller, r).Done?
    ensures db.nextId <= Handle(c, db, caller, r).db.nextId
  {
  }

  lemma IdsOnlyGrow(c: Config, w: World, e: Event)
    ensures w.db.nextId <= Step(c, w, e).db.nextId
  {
    if e.Api? && Handle(c, w.db, e.caller, e.req).Done? {
      HandleIdsGrow(c, w.db, e.caller, e.req);
      ConcludeIdsGrow(c, w, Handle(c, w.db, e.caller, e.req), e.commit);
    }
  }

  lemma ConcludeIdsGrow(c: Config, w: World, o: Outcome, commit: Commit)
    requires o.Done? && w.db.nextId <= o.db.nextId
    ensures w.db.nextId <= Conclude(c, w, o, commit).db.nextId
  {
  }

  /** A message at most cap links above id, or id itself, carries a purged row of a's. */
  ghost predicate PurgedWithin(db: Db, a: Addr, id: MsgId, cap: nat) {
    exists m: nat | m <= cap :: Ancestor(db, id, m).Some? && OwnPurged(db, a, Ancestor(db, id, m).value)
  }

  lemma PurgedIff(db: Db, a: Addr, id: MsgId, cap: nat)
    ensures PurgedWithin(db, a, id, cap) <==> exists x :: x in UpWalk(db, id, cap) && OwnPurged(db, a, x)
  {
    if x :| x in UpWalk(db, id, cap) && OwnPurged(db, a, x) {
      UpWalkIs(db, id, cap, x);
    }
    if PurgedWithin(db, a, id, cap) {
      var m: nat :| m <= cap && Ancestor(db, id, m).Some? && OwnPurged(db, a, Ancestor(db, id, m).value);
      UpWalkIs(db, id, cap, Ancestor(db, id, m).value);
      assert Above(db, id, Ancestor(db, id, m).value, cap);
    }
  }

  lemma InReachIff(db: Db, id: MsgId, top: MsgId, n: nat, cap: nat)
    requires Forest(db) && Ancestor(db, id, n) == Some(top)
    ensures top in UpWalk(db, id, cap) <==> n <= cap
  {
    UpWalkIs(db, id, cap, top);
    if k: nat :| k <= cap < n && Ancestor(db, id, k) == Some(top) {
      AncestorPlus(db, id, k, n - k);
      NoCycle(db, top, n - k);
    }
  }

  /** A message reads purged exactly when one within reach of its walk has a
      purged row; so what replies to a message deleted for good, n links below
      it, reads purged through it if and only if n is within reach. */
  lemma BelowPurgedIff(db: Db, a: Addr, top: MsgId, id: MsgId, n: nat)
    requires Forest(db) && Ancestor(db, id, n) == Some(top) && OwnPurged(db, a, top)
    ensures top in UpWalk(db, id, WALK_CAP) <==> n <= 1000
    ensures n <= 1000 ==> StateOf(db, a, id) == Purged
    ensures StateOf(db, a, id) == Purged <==> PurgedWithin(db, a, id, 1000)
  {
    BelowPurgedWithin(db, a, top, id, n, WALK_CAP);
  }

  lemma BelowPurgedWithin(db: Db, a: Addr, top: MsgId, id: MsgId, n: nat, cap: nat)
    requires Forest(db) && Ancestor(db, id, n) == Some(top) && OwnPurged(db, a, top)
    ensures top in UpWalk(db, id, cap) <==> n <= cap
    ensures n <= cap ==> StateOver(db, a, id, UpWalk(db, id, cap)) == Purged
    ensures StateOver(db, a, id, UpWalk(db, id, cap)) == Purged <==> PurgedWithin(db, a, id, cap)
  {
    InReachIff(db, id, top, n, cap);
    PurgedIff(db, a, id, cap);
  }

  // ---- Files ----

  lemma {:induction false} RunIsSafe(c: Config, w: World, events: seq<Event>)
    requires Good(w.db) && FilesSafe(w.db, w.files)
    ensures FilesSafe(Run(c, w, events).db, Run(c, w, events).files)
    decreases |events|
  {
    if events != [] {
      StepKeepsGood(c, w, events[0]);
      StepIsSafe(c, w, events[0]);
      RunIsSafe(c, Step(c, w, events[0]), events[1..]);
    }
  }

  /** In every reachable state every body and attachment path names a file,
      and a draft's files are its own. */
  lemma ReachableIsSafe(c: Config, w: World)
    requires Reachable(c, w)
    ensures forall id, p :: Has(w.db, id, p) ==> At(w.db, id, p) in w.files
    ensures DraftsAlone(w.db)
  {
    var events :| w == Run(c, EMPTY_HOST, events);
    EmptyIsGood();
    RunIsSafe(c, EMPTY_HOST, events);
  }
}
