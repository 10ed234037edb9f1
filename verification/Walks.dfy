/**
 The pid links of stored messages: their forest shape, and the recursive
 queries that walk them up (fmsg_api_trash_state) and down (trashSubtree).
*/
module Walks {
  import opened Basics
  import opened Store

  /** How far the trash walks go from where they start. */
  const WALK_CAP: nat := 1000

  function Parent(db: Db, id: MsgId): (up: Option<MsgId>) {
    if id in db.msgs then db.msgs[id].pid else None
  }

  /** The message n parent links above id. */
  function Ancestor(db: Db, id: MsgId, n: nat): (up: Option<MsgId>)
    decreases n
  {
    if n == 0 then Some(id)
    else match Parent(db, id)
      case None => None
      case Some(p) => Ancestor(db, p, n - 1)
  }

  /** Going up n links, then k more. */
  lemma {:induction false} AncestorPlus(db: Db, id: MsgId, n: nat, k: nat)
    requires Ancestor(db, id, n).Some?
    ensures Ancestor(db, id, n + k) == Ancestor(db, Ancestor(db, id, n).value, k)
    decreases n
  {
    if n > 0 {
      AncestorPlus(db, Parent(db, id).value, n - 1, k);
    }
  }

  /** The upward recursive query: id, then pid after pid while depth < cap. */
  function UpWalk(db: Db, id: MsgId, cap: nat): (ids: set<MsgId>)
    decreases cap
  {
    {id} + match Parent(db, id)
           case None => {}
           case Some(p) => if cap == 0 then {} else UpWalk(db, p, cap - 1)
  }

  /** The messages the downward recursive query finds at one depth. */
  function Level(db: Db, top: MsgId, depth: nat): (ids: set<MsgId>) {
    if depth == 0 then {top}
    else
      var above := Level(db, top, depth - 1);
      set id | id in db.msgs && db.msgs[id].pid.Some? && db.msgs[id].pid.value in above
  }

  /** The downward recursive query, to depth cap. */
  function DownWalk(db: Db, top: MsgId, cap: nat): (ids: set<MsgId>) {
    Level(db, top, cap) + if cap == 0 then {} else DownWalk(db, top, cap - 1)
  }

  /** x is id or at most cap links above it. */
  ghost predicate Above(db: Db, id: MsgId, x: MsgId, cap: nat) {
    exists k: nat :: k <= cap && Ancestor(db, id, k) == Some(x)
  }

  lemma AboveParent(db: Db, id: MsgId, x: MsgId, cap: nat)
    requires cap > 0 && Parent(db, id).Some?
    ensures Above(db, id, x, cap) <==> x == id || Above(db, Parent(db, id).value, x, cap - 1)
  {
    var p := Parent(db, id).value;
    if Above(db, id, x, cap) && x != id {
      var k: nat :| k <= cap && Ancestor(db, id, k) == Some(x);
      var rest: nat := k - 1;
      assert Ancestor(db, p, rest) == Some(x);
    }
    if Above(db, p, x, cap - 1) {
      var k: nat :| k <= cap - 1 && Ancestor(db, p, k) == Some(x);
      var whole: nat := k + 1;
      assert Ancestor(db, id, whole) == Some(x);
    }
    assert Ancestor(db, id, 0) == Some(id);
  }

  lemma {:induction false} UpWalkIs(db: Db, id: MsgId, cap: nat, x: MsgId)
    ensures x in UpWalk(db, id, cap) <==> Above(db, id, x, cap)
    decreases cap
  {
    if cap > 0 && Parent(db, id).Some? {
      UpWalkIs(db, Parent(db, id).value, cap - 1, x);
      AboveParent(db, id, x, cap);
    } else {
      assert Ancestor(db, id, 0) == Some(id);
    }
  }

  lemma {:induction false} LevelIs(db: Db, top: MsgId, depth: nat, id: MsgId)
    ensures id in Level(db, top, depth) <==> Ancestor(db, id, depth) == Some(top)
    decreases depth
  {
    if depth > 0 && Parent(db, id).Some? {
      LevelIs(db, top, depth - 1, Parent(db, id).value);
    }
  }

  lemma {:induction false} DownWalkIs(db: Db, top: MsgId, cap: nat, id: MsgId)
    ensures id in DownWalk(db, top, cap) <==> Above(db, id, top, cap)
    decreases cap
  {
    LevelIs(db, top, cap, id);
    if cap > 0 {
      DownWalkIs(db, top, cap - 1, id);
    }
  }

  /** The two queries are converse: id is found below top exactly when top is
      found above id, whatever the links look like. */
  lemma WalksAreConverse(db: Db, top: MsgId, id: MsgId, cap: nat)
    ensures id in DownWalk(db, top, cap) <==> top in UpWalk(db, id, cap)
  {
    DownWalkIs(db, top, cap, id);
    UpWalkIs(db, id, cap, top);
  }

  // ---- Forest shape ----

  /** Every parent is stored, sent and not terminal. */
  predicate ParentsLinkable(db: Db) {
    forall id :: id in db.msgs && db.msgs[id].pid.Some? ==> Linkable(db, db.msgs[id].pid.value)
  }

  /** A message other messages may reply to. */
  predicate Linkable(db: Db, id: MsgId) {
    id in db.msgs && db.msgs[id].sent.Some? && !db.msgs[id].terminal
  }

  /** A ranking of messages above their parents: a witness that there is no cycle. */
  ghost predicate Ranks(db: Db, rank: map<MsgId, nat>) {
    forall id :: id in db.msgs ==>
      id in rank && (db.msgs[id].pid.Some? ==> db.msgs[id].pid.value in rank && rank[db.msgs[id].pid.value] < rank[id])
  }

  ghost predicate Acyclic(db: Db) {
    exists rank :: Ranks(db, rank)
  }

  predicate IdsBelow(db: Db) {
    forall id :: id in db.msgs ==> 0 < id < db.nextId
  }

  ghost predicate Forest(db: Db) {
    IdsBelow(db) && ParentsLinkable(db) && Acyclic(db)
  }

  /** Ranks fall with every link climbed. */
  lemma {:induction false} RankFalls(db: Db, rank: map<MsgId, nat>, id: MsgId, n: nat)
    requires Ranks(db, rank) && id in rank && Ancestor(db, id, n).Some?
    ensures Ancestor(db, id, n).value in rank && rank[Ancestor(db, id, n).value] + n <= rank[id]
    decreases n
  {
    if n > 0 {
      RankFalls(db, rank, Parent(db, id).value, n - 1);
    }
  }

  /** No pid cycle: following parent links from a message never returns to it. */
  lemma NoCycle(db: Db, id: MsgId, n: nat)
    requires Acyclic(db) && n > 0
    ensures Ancestor(db, id, n) != Some(id)
  {
    if id in db.msgs && Ancestor(db, id, n).Some? {
      var rank :| Ranks(db, rank);
      RankFalls(db, rank, id, n);
    }
  }

  /** A draft or terminal message has no replies. */
  lemma LeavesHaveNoReplies(db: Db, id: MsgId, reply: MsgId)
    requires Forest(db) && reply in db.msgs && db.msgs[reply].pid == Some(id)
    ensures id in db.msgs && db.msgs[id].sent.Some? && !db.msgs[id].terminal
  {
    assert Linkable(db, db.msgs[reply].pid.value);
  }

  /** Whether row m may stand at id: new or a draft's replacement, with a
      linkable parent other than itself; or the same links on a sent message. */
  predicate LinkKept(db: Db, id: MsgId, m: Message) {
    && (id in db.msgs || id == db.nextId)
    && (if id in db.msgs && db.msgs[id].sent.Some?
        then m.pid == db.msgs[id].pid && m.sent.Some? && m.terminal == db.msgs[id].terminal
        else m.pid.Some? ==> Linkable(db, m.pid.value))
  }

  lemma PutKeepsForest(db: Db, id: MsgId, m: Message)
    requires Forest(db) && db.nextId > 0 && LinkKept(db, id, m)
    ensures Forest(Put(db, id, m)) && Put(db, id, m).nextId > 0
  {
    var after := Put(db, id, m);
    var rank :| Ranks(db, rank);
    forall x | x in after.msgs && after.msgs[x].pid.Some? ensures Linkable(after, after.msgs[x].pid.value) {
      if x != id {
        assert Linkable(db, db.msgs[x].pid.value);
      } else if id in db.msgs && db.msgs[id].sent.Some? {
        assert Linkable(db, db.msgs[id].pid.value);
      }
    }
    if !(id in db.msgs && db.msgs[id].sent.Some?) {
      // Nothing replies to id, so it may rank just above its new parent.
      forall x | x in db.msgs && db.msgs[x].pid.Some? ensures db.msgs[x].pid.value != id {
        assert Linkable(db, db.msgs[x].pid.value);
      }
      var height := if m.pid.Some? then rank[m.pid.value] + 1 else 0;
      assert Ranks(after, rank[id := height]);
    } else {
      assert Ranks(after, rank);
    }
  }

  lemma DropKeepsForest(db: Db, ids: set<MsgId>)
    requires Forest(db)
    ensures Forest(Drop(db, ids))
  {
    var after := Drop(db, ids);
    var rank :| Ranks(db, rank);
    forall x | x in after.msgs && after.msgs[x].pid.Some? ensures Linkable(after, after.msgs[x].pid.value) {
      assert Linkable(db, db.msgs[x].pid.value);
    }
    assert Ranks(after, rank);
  }
}
