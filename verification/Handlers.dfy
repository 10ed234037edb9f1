/**
 The mutating handlers as they run: each works on its request's transaction,
 changes files on disk as it goes, and registers what to undo on rollback and
 what to do after the commit (internal/handlers/transaction.go, trash.go,
 messages.go, references.go, reactions.go and attachments.go).
*/
module Handlers {
  import opened Basics
  import opened Store
  import opened Walks
  import opened Trash
  import opened Removal
  import opened Operations
  import Reactions

  /** Storage to give back to fmsgid once a purge commits. */
  datatype UsageRelease = UsageRelease(send: bool, size: int)

  /** One function registered with afterCommit. */
  datatype Hook =
    | RemoveFile(path: Path)
    | ReleaseUsage(addr: Addr, releases: seq<UsageRelease>)
    | ResolveDelivery(delivery: After)

  function Given(releases: seq<UsageRelease>, way: Way): (n: int) {
    if releases == [] then 0
    else
      var last := releases[|releases| - 1];
      Given(releases[..|releases| - 1], way) + if last.send == way.Sent? then last.size else 0
  }

  lemma {:induction false} GivenPlus(releases: seq<UsageRelease>, more: seq<UsageRelease>, way: Way)
    ensures Given(releases + more, way) == Given(releases, way) + Given(more, way)
    decreases |more|
  {
    if more == [] {
      assert releases + more == releases;
    } else {
      assert (releases + more)[..|releases + more| - 1] == releases + more[..|more| - 1];
      GivenPlus(releases, more[..|more| - 1], way);
    }
  }

  function RemovedBy(hooks: seq<Hook>): (paths: set<Path>) {
    set h | h in hooks && h.RemoveFile? :: h.path
  }

  /** What comes after the file removals. */
  ghost predicate Tail(hooks: seq<Hook>, after: After) {
    match after
    case Nothing => hooks == []
    case Deliver(_, _, _, _, _, _, _) => hooks == [ResolveDelivery(after)]
    case Release(a, send, recv) =>
      exists releases :: Given(releases, Sent) == send && Given(releases, Received) == recv
        && hooks == if releases == [] then [] else [ReleaseUsage(a, releases)]
  }

  /** The hooks remove exactly these files and then do what after stands for. */
  ghost predicate Leaves(hooks: seq<Hook>, removed: set<Path>, after: After) {
    exists k | 0 <= k <= |hooks| ::
      && (forall i :: 0 <= i < k ==> hooks[i].RemoveFile?)
      && RemovedBy(hooks[..k]) == removed
      && Tail(hooks[k..], after)
  }

  predicate Largest(id: MsgId, ids: set<MsgId>) {
    id in ids && forall x :: x in ids ==> x <= id
  }

  lemma LargestExists(ids: set<MsgId>)
    requires ids != {}
    ensures exists id :: Largest(id, ids)
  {
    var id :| id in ids;
    if ids == {id} {
      assert Largest(id, ids);
    } else {
      LargestExists(ids - {id});
      var most :| Largest(most, ids - {id});
      assert forall x :: x in ids ==> x == id || x in ids - {id};
      assert Largest(if most < id then id else most, ids);
    }
  }

  ghost predicate AtSomeLevel(db: Db, top: MsgId, id: MsgId) {
    exists d: nat :: d <= WALK_CAP && id in Level(db, top, d)
  }

  /** What the downward query finds, it finds at some depth. */
  lemma DownWalkIsLevels(db: Db, top: MsgId, id: MsgId)
    ensures id in DownWalk(db, top, WALK_CAP) <==> AtSomeLevel(db, top, id)
  {
    DownWalkIs(db, top, WALK_CAP, id);
    if Above(db, id, top, WALK_CAP) {
      var d: nat :| d <= WALK_CAP && Ancestor(db, id, d) == Some(top);
      LevelIs(db, top, d, id);
    }
    if AtSomeLevel(db, top, id) {
      var d: nat :| d <= WALK_CAP && id in Level(db, top, d);
      LevelIs(db, top, d, id);
    }
  }

  /** The row of trashSubtree's query at one depth. */
  function SubtreeAt(db: Db, a: Addr, top: MsgId, depth: nat): (ids: set<MsgId>) {
    set id | id in Level(db, top, depth) && id in db.msgs
             && db.msgs[id].sent.Some? && Participates(db.msgs[id], a)
  }

  lemma SubtreeIsLevels(db: Db, a: Addr, top: MsgId, id: MsgId)
    ensures id in Subtree(db, a, top) <==> exists d: nat :: d <= WALK_CAP && id in SubtreeAt(db, a, top, d)
  {
    DownWalkIsLevels(db, top, id);
    if id in Subtree(db, a, top) {
      var d: nat :| d <= WALK_CAP && id in Level(db, top, d);
      assert id in SubtreeAt(db, a, top, d);
    }
    if d: nat :| d <= WALK_CAP && id in SubtreeAt(db, a, top, d) {
      assert id in Level(db, top, d);
    }
  }

  /** How deep below top the query finds id at its deepest. */
  ghost predicate Deepest(db: Db, top: MsgId, id: MsgId, d: nat) {
    d <= WALK_CAP && id in Level(db, top, d) && forall e: nat :: e <= WALK_CAP && id in Level(db, top, e) ==> e <= d
  }

  /** The query's order: deepest first, then by falling id. */
  ghost predicate ListedBefore(db: Db, top: MsgId, x: MsgId, y: MsgId) {
    exists d: nat, e: nat :: Deepest(db, top, x, d) && Deepest(db, top, y, e) && (d > e || (d == e && x > y))
  }

  ghost predicate Distinct<T>(s: seq<T>) {
    forall i, j :: 0 <= i < j < |s| ==> s[i] != s[j]
  }

  lemma InAsSet(ids: seq<MsgId>)
    ensures forall x :: x in AsSet(ids) <==> x in ids
  {
  }

  function AsPaths(paths: seq<Path>): (r: set<Path>) {
    set i | 0 <= i < |paths| :: paths[i]
  }

  lemma AsPathsSmall(path: Path)
    ensures AsPaths([path]) == {path} && AsPaths([]) == {}
  {
    assert [path][0] in AsPaths([path]);
  }

  // ---- One turn of each loop ----

  /** One row after markPurged. */
  lemma MarkPurgedAt(db: Db, a: Addr, ids: set<MsgId>, top: Option<MsgId>, now: Time, k: (Addr, MsgId))
    ensures var after := MarkPurged(db, a, ids, top, now);
            var newly := k.0 == a && k.1 in ids && !OwnPurged(db, a, k.1);
            && (k in after.trash <==> newly || k in db.trash)
            && (k in after.trash ==>
                  after.trash[k] == if newly then PurgedMark(db, a, k.1, top == Some(k.1), now) else db.trash[k])
  {
    assert k == (k.0, k.1);
  }

  /** markPurged, one message at a time. */
  function MarkOne(db: Db, a: Addr, id: MsgId, thread: bool, now: Time): (after: Db) {
    if OwnPurged(db, a, id) then db
    else db.(trash := db.trash[(a, id) := PurgedMark(db, a, id, thread, now)])
  }

  function MarkEach(db: Db, a: Addr, ids: seq<MsgId>, top: Option<MsgId>, now: Time): (after: Db)
    decreases |ids|
  {
    if ids == [] then db else MarkEach(MarkOne(db, a, ids[0], top == Some(ids[0]), now), a, ids[1..], top, now)
  }

  /** How many of ids a has not yet deleted for good. */
  function NewlyAmong(db: Db, a: Addr, ids: seq<MsgId>): (n: nat) {
    if ids == [] then 0 else (if OwnPurged(db, a, ids[0]) then 0 else 1) + NewlyAmong(db, a, ids[1..])
  }

  ghost function GivenFor(c: Config, db: Db, a: Addr, id: MsgId, way: Way): (n: int) {
    if id !in db.msgs || OwnPurged(db, a, id) then 0 else Owed(c, db.msgs[id], a, way)
  }

  ghost function GivenEach(c: Config, db: Db, a: Addr, ids: seq<MsgId>, way: Way): (n: int)
    decreases |ids|
  {
    if ids == [] then 0 else GivenFor(c, db, a, ids[0], way) + GivenEach(c, db, a, ids[1..], way)
  }

  lemma MarkFirst(db: Db, a: Addr, id: MsgId, rest: set<MsgId>, top: Option<MsgId>, now: Time)
    requires id !in rest
    ensures MarkPurged(MarkOne(db, a, id, top == Some(id), now), a, rest, top, now)
            == MarkPurged(db, a, {id} + rest, top, now)
  {
    var one := MarkOne(db, a, id, top == Some(id), now);
    var l, r := MarkPurged(one, a, rest, top, now), MarkPurged(db, a, {id} + rest, top, now);
    forall k ensures k in l.trash <==> k in r.trash
      ensures k in l.trash ==> l.trash[k] == r.trash[k]
    {
      MarkPurgedAt(one, a, rest, top, now, k);
      MarkPurgedAt(db, a, {id} + rest, top, now, k);
    }
    assert l.trash == r.trash;
  }

  lemma AsSetOfRest(ids: seq<MsgId>)
    requires ids != [] && Distinct(ids)
    ensures AsSet(ids) == {ids[0]} + AsSet(ids[1..]) && ids[0] !in AsSet(ids[1..]) && Distinct(ids[1..])
  {
    InAsSet(ids);
    InAsSet(ids[1..]);
    assert ids == [ids[0]] + ids[1..];
  }

  lemma {:induction false} MarkEachIs(db: Db, a: Addr, ids: seq<MsgId>, top: Option<MsgId>, now: Time)
    requires Distinct(ids)
    ensures MarkEach(db, a, ids, top, now) == MarkPurged(db, a, AsSet(ids), top, now)
    decreases |ids|
  {
    if ids == [] {
      assert MarkPurged(db, a, {}, top, now).trash == db.trash;
    } else {
      AsSetOfRest(ids);
      MarkEachIs(MarkOne(db, a, ids[0], top == Some(ids[0]), now), a, ids[1..], top, now);
      MarkFirst(db, a, ids[0], AsSet(ids[1..]), top, now);
    }
  }

  lemma NewlyPlus(db: Db, a: Addr, id: MsgId, rest: set<MsgId>)
    requires id !in rest
    ensures |NewlyPurged(db, a, {id} + rest)| == |NewlyPurged(db, a, rest)| + if OwnPurged(db, a, id) then 0 else 1
  {
    assert NewlyPurged(db, a, {id} + rest)
        == (if OwnPurged(db, a, id) then {} else {id}) + NewlyPurged(db, a, rest);
  }

  lemma {:induction false} NewlyAmongIs(db: Db, a: Addr, ids: seq<MsgId>)
    requires Distinct(ids)
    ensures NewlyAmong(db, a, ids) == |NewlyPurged(db, a, AsSet(ids))|
    decreases |ids|
  {
    if ids != [] {
      AsSetOfRest(ids);
      NewlyAmongIs(db, a, ids[1..]);
      NewlyPlus(db, a, ids[0], AsSet(ids[1..]));
    } else {
      assert NewlyPurged(db, a, AsSet(ids)) == {};
    }
  }

  lemma {:induction false} GivenEachIs(c: Config, db: Db, a: Addr, ids: seq<MsgId>, way: Way)
    requires Distinct(ids) && AsSet(ids) <= db.msgs.Keys
    ensures GivenEach(c, db, a, ids, way) == Released(c, db, a, AsSet(ids), way)
    decreases |ids|
  {
    if ids == [] {
      assert GivenUp(c, db, a, {}, way) == map[];
    } else {
      AsSetOfRest(ids);
      GivenEachIs(c, db, a, ids[1..], way);
      ReleaseNext(c, db, a, AsSet(ids[1..]), ids[0], way);
      assert AsSet(ids[1..]) + {ids[0]} == AsSet(ids);
    }
  }

  /** db, releases and purged are where marking the first i of ids has led: what
      is left to do leads on to what marking all of them comes to. */
  ghost predicate MarkedUpTo(c: Config, before: Db, db: Db, a: Addr, ids: seq<MsgId>, i: nat,
                             top: Option<MsgId>, now: Time,
                             releases: seq<UsageRelease>, purged: nat)
    requires i <= |ids|
  {
    && db.msgs == before.msgs
    && (forall j :: i <= j < |ids| ==> (OwnPurged(db, a, ids[j]) <==> OwnPurged(before, a, ids[j])))
    && MarkEach(db, a, ids[i..], top, now) == MarkEach(before, a, ids, top, now)
    && (forall way :: Given(releases, way) + GivenEach(c, before, a, ids[i..], way) == GivenEach(c, before, a, ids, way))
    && purged + NewlyAmong(before, a, ids[i..]) == NewlyAmong(before, a, ids)
  }

  /** What id counts depends on its row and whether a has deleted it for good. */
  lemma MarkedAlike(c: Config, before: Db, db: Db, a: Addr, id: MsgId)
    requires db.msgs == before.msgs && (OwnPurged(db, a, id) <==> OwnPurged(before, a, id))
    ensures forall way :: GivenFor(c, db, a, id, way) == GivenFor(c, before, a, id, way)
  {
  }

  /** One more turn. */
  lemma MarksNext(c: Config, before: Db, db: Db, a: Addr, ids: seq<MsgId>, i: nat, top: Option<MsgId>, now: Time,
                  releases: seq<UsageRelease>, purged: nat, rel: seq<UsageRelease>)
    requires i < |ids| && Distinct(ids) && MarkedUpTo(c, before, db, a, ids, i, top, now, releases, purged)
    requires forall way :: Given(rel, way) == GivenFor(c, before, a, ids[i], way)
    ensures MarkedUpTo(c, before, MarkOne(db, a, ids[i], top == Some(ids[i]), now), a, ids, i + 1, top, now,
                       releases + rel, purged + if OwnPurged(before, a, ids[i]) then 0 else 1)
  {
    assert ids[i..][1..] == ids[i + 1..];
    forall way ensures Given(releases + rel, way) == Given(releases, way) + Given(rel, way) {
      GivenPlus(releases, rel, way);
    }
  }

  lemma AsPathsPlus(s: seq<Path>, t: seq<Path>)
    ensures AsPaths(s + t) == AsPaths(s) + AsPaths(t)
  {
    forall p | p in AsPaths(t) ensures p in AsPaths(s + t) {
      var i :| 0 <= i < |t| && t[i] == p;
      assert (s + t)[|s| + i] == p;
    }
    forall p | p in AsPaths(s) ensures p in AsPaths(s + t) {
      var i :| 0 <= i < |s| && s[i] == p;
      assert (s + t)[i] == p;
    }
  }

  lemma ReleaseNext(c: Config, db: Db, a: Addr, done: set<MsgId>, id: MsgId, way: Way)
    requires id !in done && id in db.msgs
    ensures Released(c, db, a, done + {id}, way)
            == Released(c, db, a, done, way) + if OwnPurged(db, a, id) then 0 else Owed(c, db.msgs[id], a, way)
  {
    var cur, next := GivenUp(c, db, a, done, way), GivenUp(c, db, a, done + {id}, way);
    if OwnPurged(db, a, id) {
      assert next == cur;
    } else {
      TotalPut(cur, id, Owed(c, db.msgs[id], a, way));
      assert next == cur[id := Owed(c, db.msgs[id], a, way)];
    }
  }

  lemma DropByHand(db: Db, id: MsgId)
    ensures Drop(db, {id})
            == db.(msgs := (map x | x in db.msgs :: Cut(db.msgs[x], {id})) - {id},
                   trash := map k | k in db.trash && k.1 != id :: db.trash[k])
  {
    var hand := (map x | x in db.msgs :: Cut(db.msgs[x], {id})) - {id};
    assert Drop(db, {id}).msgs == hand;
    assert Drop(db, {id}).trash == map k | k in db.trash && k.1 != id :: db.trash[k];
  }

  /** One turn of removeUnheld's loop. */
  lemma RemoveEachStep(c: Config, db: Db, ids: seq<MsgId>, i: nat, now: Time)
    requires i < |ids| && ids[i] in db.msgs
    ensures var (next, files) := RemoveOne(c, db, ids[i], now);
            && RemoveEach(c, db, ids[i..], now).0 == RemoveEach(c, next, ids[i + 1..], now).0
            && RemoveEach(c, db, ids[i..], now).1 == files + RemoveEach(c, next, ids[i + 1..], now).1
            && |db.msgs| == |next.msgs| + (if Unheld(c, db, ids[i], now) then 1 else 0)
            && forall id :: id in next.msgs <==> id in db.msgs && !(id == ids[i] && Unheld(c, db, id, now))
  {
    assert ids[i..][1..] == ids[i + 1..];
    var next := RemoveOne(c, db, ids[i], now).0;
    if Unheld(c, db, ids[i], now) {
      assert db.msgs.Keys == next.msgs.Keys + {ids[i]};
      assert |db.msgs.Keys| == |next.msgs.Keys| + 1;
    }
  }

  lemma RemovalHooks(gone: seq<Path>)
    ensures var hooks := seq(|gone|, i requires 0 <= i < |gone| => RemoveFile(gone[i]));
            RemovedBy(hooks) == AsPaths(gone) && forall h :: h in hooks ==> h.RemoveFile?
  {
    var hooks := seq(|gone|, i requires 0 <= i < |gone| => RemoveFile(gone[i]));
    forall p | p in AsPaths(gone) ensures p in RemovedBy(hooks) {
      var i :| 0 <= i < |gone| && gone[i] == p;
      assert hooks[i] == RemoveFile(p);
    }
  }

  lemma LeavesRelease(hooks: seq<Hook>, removed: set<Path>, a: Addr, releases: seq<UsageRelease>)
    requires (forall h :: h in hooks ==> h.RemoveFile?) && RemovedBy(hooks) == removed
    ensures Leaves(hooks + if releases == [] then [] else [ReleaseUsage(a, releases)], removed,
                   Release(a, Given(releases, Sent), Given(releases, Received)))
  {
    var all := hooks + if releases == [] then [] else [ReleaseUsage(a, releases)];
    var k := |hooks|;
    assert all[..k] == hooks;
    assert all[k..] == if releases == [] then [] else [ReleaseUsage(a, releases)];
  }

  /** The hooks of a purge: each file's removal, then the releases, if any. */
  function PurgeHooks(gone: seq<Path>, a: Addr, releases: seq<UsageRelease>): (hooks: seq<Hook>) {
    seq(|gone|, i requires 0 <= i < |gone| => RemoveFile(gone[i]))
    + if releases == [] then [] else [ReleaseUsage(a, releases)]
  }

  lemma PurgeLeaves(gone: seq<Path>, a: Addr, releases: seq<UsageRelease>)
    ensures Leaves(PurgeHooks(gone, a, releases), AsPaths(gone), Release(a, Given(releases, Sent), Given(releases, Received)))
  {
    RemovalHooks(gone);
    LeavesRelease(seq(|gone|, i requires 0 <= i < |gone| => RemoveFile(gone[i])), AsPaths(gone), a, releases);
  }

  /** The rows, files and releases a purge leaves. */
  ghost predicate PurgedTo(c: Config, db: Db, a: Addr, id: MsgId, thread: bool, now: Time,
                           after: Db, gone: seq<Path>, releases: seq<UsageRelease>) {
    var ids := Subtree(db, a, id);
    var marked := AfterMark(db, a, id, thread, now);
    && after == RemoveUnheld(c, marked, ids, now)
    && AsPaths(gone) == Orphaned(marked, Removable(c, marked, ids, now))
    && Given(releases, Sent) == Released(c, db, a, ids, Sent)
    && Given(releases, Received) == Released(c, db, a, ids, Received)
  }

  /** What they come to as its outcome. */
  lemma PurgeEnds(c: Config, db: Db, a: Addr, id: MsgId, thread: bool, now: Time,
                  after: Db, gone: seq<Path>, releases: seq<UsageRelease>)
    requires MayTrash(db, a, id) && db.msgs[id].sent.Some?
    requires PurgedTo(c, db, a, id, thread, now, after, gone, releases)
    ensures var o := Purge(c, db, a, id, thread, now);
            && o.Done? && o.db == after && o.created == {}
            && Leaves(PurgeHooks(gone, a, releases), o.removed, o.after)
  {
    PurgeLeaves(gone, a, releases);
  }

  lemma LeavesNothing(hooks: seq<Hook>)
    requires hooks == []
    ensures Leaves(hooks, {}, Nothing)
  {
    assert RemovedBy(hooks[..0]) == {};
  }

  lemma LeavesRemovals(hooks: seq<Hook>, removed: set<Path>)
    requires (forall h :: h in hooks ==> h.RemoveFile?) && RemovedBy(hooks) == removed
    ensures Leaves(hooks, removed, Nothing)
  {
    assert hooks[..|hooks|] == hooks;
  }

  lemma LeavesDelivery(d: After)
    requires d.Deliver?
    ensures Leaves([ResolveDelivery(d)], {}, d)
  {
    var hooks := [ResolveDelivery(d)];
    assert hooks[..0] == [] && RemovedBy([]) == {} && hooks[0..] == hooks;
  }

  /** What adding recipients comes to as its outcome. */
  lemma AddingEnds(c: Config, db: Db, caller: Addr, id: MsgId, added: set<Addr>, now: Time, codes: map<Addr, int>,
                   hooks: seq<Hook>)
    requires MayAdd(db, caller, id, added)
    requires hooks == if db.msgs[id].sent.Some? then [ResolveDelivery(Deliver(id, false, {}, added, now, map[], codes))] else []
    ensures var o := AddRecipients(c, db, caller, id, added, now, codes);
            && o.Done? && o.db == Put(db, id, WithBatch(c, db.msgs[id], caller, added, now)) && o.created == {}
            && Leaves(hooks, o.removed, o.after)
  {
    if db.msgs[id].sent.Some? {
      LeavesDelivery(Deliver(id, false, {}, added, now, map[], codes));
    } else {
      LeavesNothing(hooks);
    }
  }

  /** What reacting comes to as its outcome. */
  lemma ReactingEnds(db: Db, caller: Addr, id: MsgId, file: Stored, idle: bool, admitted: bool, now: Time,
                     codes: map<Addr, int>, after: Db)
    requires MayReact(db, caller, id, idle, admitted)
    requires var to := ReactionRecipients(db.msgs[id], caller);
             var inserted := Put(db, db.nextId, Message(Some(id), None, true, caller, Unresolved(to), map[], [],
                                                        map[Body := file], map[]));
             after == inserted.(msgs := inserted.msgs[db.nextId := inserted.msgs[db.nextId].(sent := Some(now))])
    ensures var o := React(db, caller, id, file, idle, admitted, now, codes);
            && o.Done? && o.db == after && o.created == {file.path}
            && Leaves([ResolveDelivery(Deliver(db.nextId, true, ReactionRecipients(db.msgs[id], caller), {}, now, codes, map[]))],
                      o.removed, o.after)
  {
    LeavesDelivery(Deliver(db.nextId, true, ReactionRecipients(db.msgs[id], caller), {}, now, codes, map[]));
  }

  lemma RemovedByPlus(hooks: seq<Hook>, path: Path)
    ensures RemovedBy(hooks + [RemoveFile(path)]) == RemovedBy(hooks) + {path}
  {
    var more := hooks + [RemoveFile(path)];
    assert forall h :: h in more <==> h in hooks || h == RemoveFile(path);
    assert RemoveFile(path) in more;
  }

  lemma UpdatedSize(m: Message, d: Draft)
    ensures StoredSize(Updated(m, d)) == d.size + Total(Sizes(m.parts - {Body}))
  {
    var sizes := Sizes(Updated(m, d).parts);
    TotalSplit(sizes, Body);
    assert sizes - {Body} == Sizes(m.parts - {Body});
  }

  /** messageStoredSize: the sum the query takes over a message's parts. */
  method MessageStoredSize(parts: map<Part, Stored>) returns (size: int)
    ensures size == Total(Sizes(parts))
  {
    size := 0;
    var rest := parts;
    while rest != map[]
      invariant rest.Keys <= parts.Keys && forall p :: p in rest ==> rest[p] == parts[p]
      invariant size + Total(Sizes(rest)) == Total(Sizes(parts))
      decreases |rest|
    {
      var p :| p in rest;
      TotalSplit(Sizes(rest), p);
      assert Sizes(rest) - {p} == Sizes(rest - {p});
      size := size + rest[p].size;
      rest := rest - {p};
    }
  }

  /** A message with a thread mark of its own reads in a thread, unless purged. */
  lemma ThreadReads(db: Db, a: Addr, id: MsgId, now: Time)
    requires StateOf(db, a, id) != Purged
    ensures StateOf(MarkTrashed(db, a, id, true, now), a, id) == InThread
  {
    var after := MarkTrashed(db, a, id, true, now);
    SameLinksSameWalk(db, after, id, WALK_CAP);
    assert Ancestor(db, id, 0) == Some(id);
    UpWalkIs(db, id, WALK_CAP, id);
    assert forall x :: OwnPurged(after, a, x) <==> OwnPurged(db, a, x);
    assert ThreadMarked(after, a, id);
  }

  /** A request-local handler: its transaction's view of the database, the
      files on disk, and the functions registered for rollback and commit. */
  class Handler {
    const c: Config
    const caller: Addr
    var db: Db
    var files: set<Path>
    var rollback: seq<Path>
    var commit: seq<Hook>
    /** The messages whose trash notifications to the caller the transaction holds. */
    var notified: seq<MsgId>
    /** The files when the request came in. */
    ghost const start: set<Path>

    constructor (c: Config, caller: Addr, db: Db, files: set<Path>)
      ensures this.c == c && this.caller == caller && this.db == db && this.files == files
      ensures rollback == [] && commit == [] && notified == [] && start == files
    {
      this.c, this.caller, this.db, this.files := c, caller, db, files;
      rollback, commit, notified := [], [], [];
      start := files;
    }

    /** Undoing what is registered for a rollback leaves the files as they were. */
    ghost predicate Undoable()
      reads this`files, this`rollback
    {
      files - AsPaths(rollback) == start
    }

    /** Runs a statement that writes. It may fail, and end the handler there: so
        wherever one is run, what the handler did so far can be undone. */
    method Exec(after: Db)
      requires Undoable()
      modifies this`db
      ensures db == after
    {
      db := after;
    }

    // ---- trash.go ----

    /** The subtree's rows, each once, deepest first and then by falling id. */
    method TrashSubtree(top: MsgId) returns (ids: seq<MsgId>)
      ensures AsSet(ids) == Subtree(db, caller, top) && Distinct(ids)
      ensures forall i, j :: 0 <= i < j < |ids| ==> ListedBefore(db, top, ids[i], ids[j])
    {
      ids := [];
      var depth := WALK_CAP + 1;
      while depth > 0
        invariant depth <= WALK_CAP + 1 && Distinct(ids)
        invariant forall id :: id in ids ==>
                    exists d: nat :: depth <= d && Deepest(db, top, id, d) && id in SubtreeAt(db, caller, top, d)
        invariant forall id, d: nat :: depth <= d <= WALK_CAP && id in SubtreeAt(db, caller, top, d) ==> id in ids
        invariant forall i, j :: 0 <= i < j < |ids| ==> ListedBefore(db, top, ids[i], ids[j])
      {
        depth := depth - 1;
        ids := ListLevel(top, depth, ids);
      }
      InAsSet(ids);
      forall id: MsgId ensures id in ids <==> id in Subtree(db, caller, top) {
        SubtreeIsLevels(db, caller, top, id);
      }
    }

    /** Lists after listed, which holds everything deeper, what is at one depth. */
    method ListLevel(top: MsgId, depth: nat, listed: seq<MsgId>) returns (ids: seq<MsgId>)
      requires depth <= WALK_CAP && Distinct(listed)
      requires forall id :: id in listed ==> exists d: nat :: depth < d && Deepest(db, top, id, d)
      requires forall id, d: nat :: depth < d <= WALK_CAP && id in SubtreeAt(db, caller, top, d) ==> id in listed
      requires forall i, j :: 0 <= i < j < |listed| ==> ListedBefore(db, top, listed[i], listed[j])
      ensures Distinct(ids)
      ensures forall id :: id in ids <==> id in listed || id in SubtreeAt(db, caller, top, depth)
      ensures forall id :: id in ids && id !in listed ==> Deepest(db, top, id, depth)
      ensures forall i, j :: 0 <= i < j < |ids| ==> ListedBefore(db, top, ids[i], ids[j])
    {
      ids := listed;
      var level := set id | id in SubtreeAt(db, caller, top, depth) && id !in listed;
      forall id | id in level ensures Deepest(db, top, id, depth) {
        forall d: nat | d <= WALK_CAP && id in Level(db, top, d) ensures d <= depth {
          assert id in SubtreeAt(db, caller, top, d);
        }
      }
      while level != {}
        invariant level <= SubtreeAt(db, caller, top, depth)
        invariant Distinct(ids) && forall id :: id in level ==> id !in ids && Deepest(db, top, id, depth)
        invariant forall id :: id in ids || id in level <==> id in listed || id in SubtreeAt(db, caller, top, depth)
        invariant forall id :: id in ids && id !in listed ==> Deepest(db, top, id, depth) && forall y :: y in level ==> id > y
        invariant forall i, j :: 0 <= i < j < |ids| ==> ListedBefore(db, top, ids[i], ids[j])
      {
        LargestExists(level);
        var id :| Largest(id, level);
        forall i | 0 <= i < |ids| ensures ListedBefore(db, top, ids[i], id) {
          assert ids[i] in ids;
        }
        ids := ids + [id];
        level := level - {id};
      }
    }

    method RecordedSizeOf(m: Message) returns (size: int)
      ensures size == RecordedSize(c, m)
    {
      if Local(c, m.from) {
        size := MessageStoredSize(m.parts);
        return;
      }
      size := 0;
      var rest := ExpandedSizes(m);
      while rest != map[]
        invariant rest.Keys <= m.parts.Keys && forall p :: p in rest ==> rest[p] == ExpandedSizes(m)[p]
        invariant size + Total(rest) == Total(ExpandedSizes(m))
        decreases |rest|
      {
        var p :| p in rest;
        TotalSplit(rest, p);
        size := size + if p in m.expanded then m.expanded[p] else m.parts[p].size;
        rest := rest - {p};
      }
    }

    /** What id counted against the caller, as a list of releases. */
    method UsageOf(id: MsgId) returns (out: seq<UsageRelease>)
      requires id in db.msgs
      ensures forall way :: Given(out, way) == Owed(c, db.msgs[id], caller, way)
    {
      var m := db.msgs[id];
      var deliveries := (if DeliveredTo(m, caller) then 1 else 0) + (if DeliveredAddTo(m, caller) then 1 else 0);
      var isSender := m.sent.Some? && m.from == caller;
      out := [];
      if !isSender && deliveries == 0 {
        return;
      }
      var size := RecordedSizeOf(m);
      if isSender {
        out := [UsageRelease(true, size)];
      }
      ghost var owed := out;
      for i := 0 to deliveries
        invariant Given(out, Sent) == Given(owed, Sent)
        invariant Given(out, Received) == if i == 0 then 0 else if i == 1 then size else size + size
      {
        GivenPlus(out, [UsageRelease(false, size)], Sent);
        GivenPlus(out, [UsageRelease(false, size)], Received);
        out := out + [UsageRelease(false, size)];
      }
    }

    /** One turn of markPurged: id's row, unless the caller already has it. */
    method MarkOnePurged(id: MsgId, thread: bool, now: Time) returns (newly: bool, rel: seq<UsageRelease>)
      requires Undoable()
      requires id in db.msgs
      modifies this`db
      ensures newly == !OwnPurged(old(db), caller, id)
      ensures db == MarkOne(old(db), caller, id, thread, now)
      ensures forall way :: Given(rel, way) == GivenFor(c, old(db), caller, id, way)
    {
      newly, rel := !OwnPurged(db, caller, id), [];
      if newly {
        Exec(db.(trash := db.trash[(caller, id) := PurgedMark(db, caller, id, thread, now)]));
        rel := UsageOf(id);
      }
    }

    /** Deletes ids for good for the caller, skipping those it already has, and
        gives what each newly purged one counted. */
    method MarkEachPurged(ids: seq<MsgId>, threadTop: Option<MsgId>, now: Time) returns (purged: nat,
                          releases: seq<UsageRelease>)
      requires Undoable()
      requires Distinct(ids) && AsSet(ids) <= db.msgs.Keys
      modifies this`db
      ensures db == MarkEach(old(db), caller, ids, threadTop, now)
      ensures forall way :: Given(releases, way) == GivenEach(c, old(db), caller, ids, way)
      ensures purged == NewlyAmong(old(db), caller, ids)
    {
      releases, purged := [], 0;
      InAsSet(ids);
      assert ids[0..] == ids;
      for i := 0 to |ids|
        invariant MarkedUpTo(c, old(db), db, caller, ids, i, threadTop, now, releases, purged)
      {
        MarkedAlike(c, old(db), db, caller, ids[i]);
        ghost var before := db;
        var newly, rel := MarkOnePurged(ids[i], threadTop == Some(ids[i]), now);
        MarksNext(c, old(db), before, caller, ids, i, threadTop, now, releases, purged, rel);
        releases := releases + rel;
        purged := purged + if newly then 1 else 0;
      }
    }

    /** The files of a removed message's parts that no remaining row uses. */
    method UnsharedFiles(parts: map<Part, Stored>) returns (files: seq<Path>)
      ensures AsPaths(files) == set p | p in parts && !InUse(db, parts[p].path) :: parts[p].path
    {
      files := [];
      var rest := parts.Keys;
      while rest != {}
        invariant rest <= parts.Keys
        invariant forall p :: p in parts && p !in rest && !InUse(db, parts[p].path) ==> parts[p].path in files
        invariant forall f :: f in files ==> !InUse(db, f) && exists p :: p in parts && parts[p].path == f
      {
        var p :| p in rest;
        rest := rest - {p};
        if !InUse(db, parts[p].path) {
          files := files + [parts[p].path];
        }
      }
      assert forall f :: f in AsPaths(files) <==> f in files;
    }

    /** Removes id from the host when nobody here holds it and nothing of it is
        pending; gives the stored files nothing else uses. */
    method RemoveIfUnheld(id: MsgId, now: Time) returns (gone: bool, files: seq<Path>)
      requires Undoable()
      requires id in db.msgs
      modifies this`db
      ensures gone == Unheld(c, old(db), id, now)
      ensures db == RemoveOne(c, old(db), id, now).0
      ensures AsPaths(files) == RemoveOne(c, old(db), id, now).1
    {
      files := [];
      if Held(c, db, id) || DeliveryPending(c, db.msgs[id], now) {
        return false, files;
      }
      var parts := db.msgs[id].parts;
      DropByHand(db, id);
      Exec(db.(msgs := map x | x in db.msgs :: Cut(db.msgs[x], {id})));
      Exec(db.(msgs := db.msgs - {id}, trash := map k | k in db.trash && k.1 != id :: db.trash[k]));
      gone := true;
      files := UnsharedFiles(parts);
    }

    /** Removes each of ids that nobody here holds any more. */
    method RemoveEachUnheld(ids: seq<MsgId>, now: Time) returns (removed: nat, files: seq<Path>)
      requires Undoable()
      requires Distinct(ids) && AsSet(ids) <= db.msgs.Keys
      modifies this`db
      ensures db == RemoveUnheld(c, old(db), AsSet(ids), now)
      ensures AsPaths(files) == Orphaned(old(db), Removable(c, old(db), AsSet(ids), now))
      ensures |old(db).msgs| == |db.msgs| + removed
    {
      removed, files := 0, [];
      RemoveEachIsExact(c, db, ids, now);
      ghost var (want, wantFiles) := RemoveEach(c, db, ids, now);
      assert ids[0..] == ids;
      for i := 0 to |ids|
        invariant forall j :: i <= j < |ids| ==> ids[j] in db.msgs
        invariant RemoveEach(c, db, ids[i..], now).0 == want
        invariant AsPaths(files) + RemoveEach(c, db, ids[i..], now).1 == wantFiles
        invariant |old(db).msgs| == |db.msgs| + removed
      {
        RemoveEachStep(c, db, ids, i, now);
        var gone, paths := RemoveIfUnheld(ids[i], now);
        AsPathsPlus(files, paths);
        files := files + paths;
        removed := removed + if gone then 1 else 0;
      }
    }

    /** A fresh handler whose request has ended: refused, with whatever it had
        created left to the rollback; or with this outcome. */
    ghost predicate Ended(ok: bool, o: Outcome, before: set<Path>)
      reads this
    {
      if ok
      then && o.Done? && db == o.db && files == before + o.created
           && AsPaths(rollback) == o.created && Leaves(commit, o.removed, o.after)
      else o.Refused? && files - AsPaths(rollback) == before
    }

    ghost predicate Fresh()
      reads this
    {
      rollback == [] && commit == [] && files == start
    }

    /** The rows and files of a purge: mark the subtree, then remove what is unheld. */
    method PurgeRows(id: MsgId, thread: bool, now: Time)
      returns (ids: seq<MsgId>, purged: nat, removed: nat, releases: seq<UsageRelease>, gone: seq<Path>)
      requires Undoable()
      modifies this`db
      ensures AsSet(ids) == Subtree(old(db), caller, id)
      ensures PurgedTo(c, old(db), caller, id, thread, now, db, gone, releases)
      ensures purged == |NewlyPurged(old(db), caller, Subtree(old(db), caller, id))|
      ensures |old(db).msgs| == |db.msgs| + removed
    {
      ids := TrashSubtree(id);
      var top := if thread then Some(id) else None;
      NewlyAmongIs(db, caller, ids);
      GivenEachIs(c, db, caller, ids, Sent);
      GivenEachIs(c, db, caller, ids, Received);
      MarkEachIs(db, caller, ids, top, now);
      ghost var marked := AfterMark(db, caller, id, thread, now);
      purged, releases := MarkEachPurged(ids, top, now);
      assert db == marked;
      removed, gone := RemoveEachUnheld(ids, now);
    }

    /** Registers a purge's file removals, and its releases if there are any. */
    method LeaveForCommit(gone: seq<Path>, releases: seq<UsageRelease>)
      requires commit == []
      modifies this`commit
      ensures commit == PurgeHooks(gone, caller, releases)
    {
      for i := 0 to |gone|
        invariant commit == seq(i, j requires 0 <= j < i => RemoveFile(gone[j]))
      {
        commit := commit + [RemoveFile(gone[i])];
      }
      if releases != [] {
        commit := commit + [ReleaseUsage(caller, releases)];
      }
    }

    /** Deletes id and everything below it for good. */
    method PurgeFrom(id: MsgId, thread: bool, now: Time) returns (purged: nat, removed: nat)
      requires Fresh() && MayTrash(db, caller, id) && db.msgs[id].sent.Some?
      modifies this`db, this`commit, this`notified
      ensures Ended(true, Purge(c, old(db), caller, id, thread, now), files)
      ensures AsSet(notified) == Subtree(old(db), caller, id)
      ensures purged == |NewlyPurged(old(db), caller, Subtree(old(db), caller, id))|
      ensures |old(db).msgs| == |db.msgs| + removed
    {
      var releases, gone;
      notified, purged, removed, releases, gone := PurgeRows(id, thread, now);
      LeaveForCommit(gone, releases);
      PurgeEnds(c, old(db), caller, id, thread, now, db, gone, releases);
    }

    /** DELETE of a sent message. state is the one reported. */
    method TrashSentMessage(id: MsgId, thread: bool, permanent: bool, now: Time) returns (ok: bool, state: TrashState)
      requires Fresh() && id in db.msgs && db.msgs[id].sent.Some?
      modifies this`db, this`commit, this`notified
      ensures Ended(ok, if permanent then Purge(c, old(db), caller, id, thread, now)
                        else TrashSent(old(db), caller, id, thread, now), old(files))
      ensures ok ==> AsSet(notified) == if thread || permanent then Subtree(old(db), caller, id) else {id}
      ensures ok ==> state == if permanent then Purged else StateOf(db, caller, id)
    {
      state := StateOf(db, caller, id);
      if !Participates(db.msgs[id], caller) || state == Purged {
        return false, state;
      }
      if permanent {
        var _, _ := PurgeFrom(id, thread, now);
        return true, Purged;
      }
      notified := Marked(id, thread);
      var mark := if (caller, id) in db.trash
                  then db.trash[(caller, id)].(thread := db.trash[(caller, id)].thread || thread)
                  else Mark(thread, now, None);
      ThreadReads(db, caller, id, now);
      Exec(db.(trash := db.trash[(caller, id) := mark]));
      LeavesNothing(commit);
      state := if thread then InThread else StateOf(db, caller, id);
      ok := true;
    }

    /** The messages a trash or restore request moves. */
    method Marked(id: MsgId, thread: bool) returns (ids: seq<MsgId>)
      ensures AsSet(ids) == if thread then Subtree(db, caller, id) else {id}
    {
      ids := [id];
      InAsSet(ids);
      if thread {
        ids := TrashSubtree(id);
      }
    }

    /** Takes a message, or the thread below it, out of the caller's trash. */
    method RestoreMessage(id: MsgId, thread: bool) returns (ok: bool, state: TrashState)
      requires Fresh()
      modifies this`db, this`notified
      ensures Ended(ok, Restore(old(db), caller, id, thread), old(files))
      ensures ok ==> AsSet(notified) == if thread then Subtree(old(db), caller, id) else {id}
      ensures ok ==> state == StateOf(db, caller, id)
    {
      state := StateOf(db, caller, id);
      if id !in db.msgs || !Participates(db.msgs[id], caller) || state == Purged {
        return false, state;
      }
      var ids := Marked(id, thread);
      InAsSet(ids);
      ghost var want := if thread then Subtree(db, caller, id) else {id};
      assert forall x :: x in ids <==> x in want;
      Exec(db.(trash := map k | k in db.trash && !(k.0 == caller && k.1 in ids && db.trash[k].purged.None?) :: db.trash[k]));
      assert db.trash == Unmark(old(db), caller, want).trash;
      LeavesNothing(commit);
      notified := ids;
      state := StateOf(db, caller, id);
      ok := true;
    }

    // ---- references.go ----

    /** Resolves a request's parent, in the order the checks are made. */
    method ResolveParent(parent: Option<ParentRef>) returns (ok: bool, pid: Option<MsgId>)
      ensures ok == ParentAllowed(db, caller, parent)
      ensures ok ==> pid == LinkedTo(parent)
    {
      pid := None;
      if parent.None? {
        return true, pid;
      }
      var ref := parent.value;
      if ref.id !in db.msgs || (ref.InBatch? && ref.batch >= |db.msgs[ref.id].batches|) {
        return false, pid;
      }
      var m := db.msgs[ref.id];
      var participant := m.from == caller || caller in m.to
                         || (ref.InBatch? && caller in m.addTo && m.addTo[caller].batch == ref.batch);
      if !participant {
        return false, pid;
      }
      if StateOf(db, caller, ref.id) == Purged {
        return false, pid;
      }
      if m.sent.None? || m.terminal {
        return false, pid;
      }
      ok, pid := true, Some(ref.id);
    }

    // ---- messages.go: drafts ----

    /** Saves a file under a name nothing has, to be removed on rollback. */
    method SaveFile(path: Path)
      requires path !in files && rollback == [] && Undoable()
      modifies this`files, this`rollback
      ensures files == old(files) + {path} && AsPaths(rollback) == {path} && Undoable()
    {
      files := files + {path};
      rollback := [path];
      AsPathsSmall(path);
    }

    /** The recipient rows an insert per address leaves. */
    method InsertRows(to: set<Addr>) returns (rows: map<Addr, Delivery>)
      ensures rows == Unresolved(to)
    {
      rows := map[];
      var rest := to;
      while rest != {}
        invariant rest <= to && rows == Unresolved(to - rest)
      {
        var a :| a in rest;
        rest := rest - {a};
        rows := rows[a := PENDING];
      }
      assert to - {} == to;
    }

    /** Inserts a message without its file, saves the file, then completes the row. */
    method InsertMessage(pid: Option<MsgId>, terminal: bool, to: set<Addr>, file: Stored) returns (id: MsgId)
      requires file.path !in files && rollback == [] && Undoable()
      modifies this`db, this`files, this`rollback
      ensures Undoable()
      ensures id == old(db).nextId
      ensures db == Put(old(db), id, Message(pid, None, terminal, caller, Unresolved(to), map[], [], map[Body := file], map[]))
      ensures files == old(files) + {file.path} && AsPaths(rollback) == {file.path}
    {
      id := db.nextId;
      var m := Message(pid, None, terminal, caller, map[], map[], [], map[Body := Stored("", file.size)], map[]);
      Exec(Put(db, id, m));
      SaveFile(file.path);
      m := m.(parts := m.parts[Body := file]);
      Exec(Put(db, id, m));
      var rows := InsertRows(to);
      m := m.(to := rows);
      Exec(Put(db, id, m));
      assert m.parts == map[Body := file];
      assert db.msgs == old(db).msgs[id := m];
    }

    method CreateMessage(d: Draft) returns (ok: bool)
      requires Fresh() && d.path !in files
      modifies this`db, this`files, this`rollback
      ensures Ended(ok, Create(c, old(db), caller, d), old(files))
    {
      if d.to == {} {
        return false;
      }
      var resolved, pid := ResolveParent(d.parent);
      if !resolved || (pid.Some? && d.topic) || d.size > c.maxDataSize {
        return false;
      }
      var _ := InsertMessage(pid, d.terminal, d.to, Stored(d.path, d.size));
      LeavesNothing(commit);
      ok := true;
    }

    method UpdateMessage(id: MsgId, d: Draft) returns (ok: bool)
      requires Fresh() && IdsBelow(db) && d.path !in files
      modifies this`db, this`files, this`rollback, this`commit
      ensures Ended(ok, Update(c, old(db), caller, id, d), old(files))
    {
      if id !in db.msgs || db.msgs[id].from != caller || db.msgs[id].sent.Some? {
        return false;
      }
      var existing := db.msgs[id];
      var resolved, pid := ResolveParent(d.parent);
      if !resolved || (pid.Some? && d.topic) || d.size > c.maxDataSize {
        return false;
      }
      var attachTotal := MessageStoredSize(existing.parts - {Body});
      UpdatedSize(existing, d);
      if d.size + attachTotal > c.maxMsgSize {
        return false;
      }
      SaveFile(d.path);
      var rows := InsertRows(d.to);
      Exec(Put(db, id, existing.(pid := pid, terminal := d.terminal,
                                  parts := existing.parts[Body := Stored(d.path, d.size)], to := rows)));
      if Body in existing.parts {
        commit := [RemoveFile(existing.parts[Body].path)];
        LeavesRemovals(commit, {existing.parts[Body].path});
      } else {
        LeavesNothing(commit);
      }
      ok := true;
    }

    /** DELETE of a draft: its files go after the commit. */
    method DeleteOwnDraft(id: MsgId) returns (ok: bool)
      requires Fresh() && id in db.msgs && db.msgs[id].sent.None?
      modifies this`db, this`commit
      ensures Ended(ok, DeleteDraft(old(db), caller, id), old(files))
    {
      if db.msgs[id].from != caller {
        return false;
      }
      var m := db.msgs[id];
      var rest := m.parts.Keys;
      while rest != {}
        invariant rest <= m.parts.Keys && db == old(db)
        invariant forall h :: h in commit ==> h.RemoveFile?
        invariant RemovedBy(commit) == set p | p in m.parts && p !in rest :: m.parts[p].path
      {
        var p :| p in rest;
        rest := rest - {p};
        RemovedByPlus(commit, m.parts[p].path);
        commit := commit + [RemoveFile(m.parts[p].path)];
      }
      DropByHand(db, id);
      Exec(db.(msgs := (map x | x in db.msgs :: Cut(db.msgs[x], {id})) - {id},
                trash := map k | k in db.trash && k.1 != id :: db.trash[k]));
      LeavesRemovals(commit, Paths(m));
      ok := true;
    }

    /** DELETE /fmsg/:id. */
    method DeleteMessage(id: MsgId, thread: bool, permanent: bool, now: Time) returns (ok: bool)
      requires Fresh()
      modifies this`db, this`commit, this`notified
      ensures Ended(ok, Handle(c, old(db), caller, DeleteReq(id, thread, permanent, now)), old(files))
    {
      if id !in db.msgs {
        return false;
      }
      if db.msgs[id].sent.Some? {
        var state;
        ok, state := TrashSentMessage(id, thread, permanent, now);
      } else {
        ok := DeleteOwnDraft(id);
      }
    }

    // ---- messages.go and reactions.go: sending ----

    method SendMessage(id: MsgId, admitted: bool, now: Time, toCodes: map<Addr, int>, addToCodes: map<Addr, int>)
      returns (ok: bool)
      requires Fresh() && IdsBelow(db)
      modifies this`db, this`commit
      ensures Ended(ok, Send(old(db), caller, id, admitted, now, toCodes, addToCodes), old(files))
    {
      if id !in db.msgs || db.msgs[id].from != caller || db.msgs[id].sent.Some? {
        return false;
      }
      var m := db.msgs[id];
      if m.to == map[] || !admitted {
        return false;
      }
      SetSent(id, now);
      commit := [ResolveDelivery(Deliver(id, true, m.to.Keys, m.addTo.Keys, now, toCodes, addToCodes))];
      LeavesDelivery(commit[0].delivery);
      ok := true;
    }

    method InsertBatchRows(rows: map<Addr, Added>, batch: nat, added: set<Addr>) returns (all: map<Addr, Added>)
      ensures all == rows + map a | a in added :: Added(batch, PENDING)
    {
      var rest := added;
      all := rows;
      while rest != {}
        invariant rest <= added && all == rows + map a | a in added - rest :: Added(batch, PENDING)
      {
        var a :| a in rest;
        rest := rest - {a};
        all := all[a := Added(batch, PENDING)];
      }
      assert added - {} == added;
    }

    /** Finalization gives a message its time. */
    method SetSent(id: MsgId, now: Time)
      requires Undoable()
      requires id in db.msgs && id < db.nextId
      modifies this`db
      ensures db == old(db).(msgs := old(db).msgs[id := old(db).msgs[id].(sent := Some(now))])
    {
      Exec(db.(msgs := db.msgs[id := db.msgs[id].(sent := Some(now))]));
    }

    /** The batch row, its recipients' rows and its notification rows. */
    method InsertBatch(id: MsgId, added: set<Addr>, now: Time)
      requires Undoable()
      requires id in db.msgs
      modifies this`db
      ensures db == Put(old(db), id, WithBatch(c, old(db).msgs[id], caller, added, now))
    {
      var m := db.msgs[id];
      var rows := InsertBatchRows(m.addTo, |m.batches|, added);
      var notify := map d | d in NotifyDomains(c, m, added) :: PENDING;
      Exec(Put(db, id, m.(addTo := rows, batches := m.batches + [Batch(caller, now, notify)])));
    }

    method CheckAdd(id: MsgId, added: set<Addr>) returns (ok: bool)
      ensures ok == MayAdd(db, caller, id, added)
    {
      if added == {} || id !in db.msgs {
        return false;
      }
      var m := db.msgs[id];
      if (m.sent.None? && m.from != caller) || StateOf(db, caller, id) == Purged {
        return false;
      }
      if m.terminal {
        return false;
      }
      if m.from != caller && caller !in m.to {
        return false;
      }
      ok := forall a :: a in added ==> a !in m.addTo;
    }

    method AddRecipientsTo(id: MsgId, added: set<Addr>, now: Time, codes: map<Addr, int>) returns (ok: bool)
      requires Fresh()
      modifies this`db, this`commit
      ensures Ended(ok, AddRecipients(c, old(db), caller, id, added, now, codes), old(files))
    {
      ok := CheckAdd(id, added);
      if !ok {
        return;
      }
      InsertBatch(id, added, now);
      if db.msgs[id].sent.Some? {
        commit := [ResolveDelivery(Deliver(id, false, {}, added, now, map[], codes))];
      }
      AddingEnds(c, old(db), caller, id, added, now, codes, commit);
      assert AsPaths(rollback) == {};
    }

    /** The addresses of a set, in some order. */
    method Listing(addrs: set<Addr>) returns (list: seq<Addr>)
      ensures forall a :: a in list <==> a in addrs
    {
      list := [];
      var rest := addrs;
      while rest != {}
        invariant rest <= addrs && forall a :: a in list <==> a in addrs && a !in rest
      {
        var a :| a in rest;
        rest := rest - {a};
        list := list + [a];
      }
    }

    /** A message's participants in message order: the sender, the recipients,
        then for each batch who added it and those it added. */
    method ParticipantsOf(m: Message) returns (list: seq<Addr>)
      requires BatchRowsValid(m)
      ensures forall a :: a in list <==>
                a == m.from || a in m.to || a in m.addTo || exists b :: 0 <= b < |m.batches| && m.batches[b].adder == a
    {
      var to := Listing(m.to.Keys);
      list := [m.from] + to;
      for i := 0 to |m.batches|
        invariant forall a :: a in list <==>
                    || a == m.from || a in m.to || (a in m.addTo && m.addTo[a].batch < i)
                    || exists b :: 0 <= b < i && m.batches[b].adder == a
      {
        var added := Listing(set a | a in m.addTo && m.addTo[a].batch == i);
        list := list + [m.batches[i].adder] + added;
      }
    }

    method RecipientsOf(subject: Message) returns (recipients: set<Addr>)
      requires BatchRowsValid(subject)
      ensures recipients == ReactionRecipients(subject, caller)
    {
      var participants := ParticipantsOf(subject);
      var others := Reactions.ReactionRecipients(participants, caller);
      recipients := set a | a in others;
    }

    method ReactTo(id: MsgId, file: Stored, idle: bool, admitted: bool, now: Time, codes: map<Addr, int>)
      returns (ok: bool)
      requires Fresh() && BatchesValid(db) && file.path !in files
      modifies this`db, this`files, this`rollback, this`commit
      ensures Ended(ok, React(old(db), caller, id, file, idle, admitted, now, codes), old(files))
    {
      if id !in db.msgs {
        return false;
      }
      var subject := db.msgs[id];
      if (subject.sent.None? && subject.from != caller) || StateOf(db, caller, id) == Purged {
        return false;
      }
      if !Participates(subject, caller) || subject.sent.None? || subject.terminal {
        return false;
      }
      var recipients := RecipientsOf(subject);
      if recipients == {} || idle || !admitted {
        return false;
      }
      var reaction := InsertMessage(Some(id), true, recipients, file);
      SetSent(reaction, now);
      commit := [ResolveDelivery(Deliver(reaction, true, recipients, {}, now, codes, map[]))];
      ReactingEnds(old(db), caller, id, file, idle, admitted, now, codes, db);
      ok := true;
    }

    // ---- attachments.go ----

    /** The file is written, and removed again when it is found to be too big. */
    method UploadAttachment(id: MsgId, name: string, file: Stored) returns (ok: bool)
      requires Fresh() && IdsBelow(db) && file.path !in files
      modifies this`db, this`files, this`rollback
      ensures Ended(ok, Upload(c, old(db), caller, id, name, file), old(files))
    {
      if id !in db.msgs || db.msgs[id].from != caller || db.msgs[id].sent.Some? {
        return false;
      }
      files := files + {file.path};
      AsPathsSmall(file.path);
      if file.size > c.maxAttachSize {
        files := files - {file.path};
        return false;
      }
      rollback := [file.path];
      var m := db.msgs[id];
      var currentTotal := MessageStoredSize(m.parts);
      if currentTotal + file.size > c.maxMsgSize {
        files := files - {file.path};
        return false;
      }
      Exec(Put(db, id, m.(parts := m.parts[Attachment(name) := file])));
      LeavesNothing(commit);
      ok := true;
    }

    method DeleteAttachmentOf(id: MsgId, name: string) returns (ok: bool)
      requires Fresh() && IdsBelow(db)
      modifies this`db, this`commit
      ensures Ended(ok, DeleteAttachment(old(db), caller, id, name), old(files))
    {
      if id !in db.msgs || db.msgs[id].from != caller || db.msgs[id].sent.Some? {
        return false;
      }
      var m := db.msgs[id];
      if Attachment(name) !in m.parts {
        return false;
      }
      Exec(Put(db, id, m.(parts := m.parts - {Attachment(name)})));
      commit := [RemoveFile(m.parts[Attachment(name)].path)];
      LeavesRemovals(commit, {m.parts[Attachment(name)].path});
      ok := true;
    }

    /** The handler the route leads to. */
    method Serve(r: Request) returns (ok: bool)
      requires Fresh() && IdsBelow(db) && BatchesValid(db)
      requires r.CreateReq? || r.UpdateReq? ==> r.draft.path !in files
      requires r.ReactReq? || r.UploadReq? ==> r.file.path !in files
      modifies this`db, this`files, this`rollback, this`commit, this`notified
      ensures Ended(ok, Handle(c, old(db), caller, r), old(files))
    {
      match r
      case CreateReq(d) => ok := CreateMessage(d);
      case UpdateReq(id, d) => ok := UpdateMessage(id, d);
      case DeleteReq(id, thread, permanent, now) => ok := DeleteMessage(id, thread, permanent, now);
      case SendReq(id, admitted, now, to, addTo) => ok := SendMessage(id, admitted, now, to, addTo);
      case AddReq(id, added, now, codes) => ok := AddRecipientsTo(id, added, now, codes);
      case ReactReq(id, file, idle, admitted, now, codes) => ok := ReactTo(id, file, idle, admitted, now, codes);
      case UploadReq(id, name, file) => ok := UploadAttachment(id, name, file);
      case DeleteAttachmentReq(id, name) => ok := DeleteAttachmentOf(id, name);
      case RestoreReq(id, thread) => var state; ok, state := RestoreMessage(id, thread);
    }
  }
}
