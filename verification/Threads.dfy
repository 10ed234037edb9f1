/**
 The three ways a thread's root is found (internal/handlers/thread.go, push.go
 and indicators.go), and how threads are counted (internal/handlers/count.go).
*/
module Threads {
  import opened Basics
  import opened Store
  import opened Walks
  import opened Trash

  /** threadMaxHops */
  const THREAD_MAX_HOPS: nat := 100
  /** The indicator walk stops recursing at this depth. */
  const INDICATOR_CAP: nat := 10000

  // ---- Lineages ----

  /** path is id's whole ancestry, root first. */
  ghost predicate Lineage(db: Db, path: seq<MsgId>, id: MsgId) {
    && path != [] && path[|path| - 1] == id
    && (forall i :: 0 <= i < |path| ==> path[i] in db.msgs)
    && Parent(db, path[0]) == None
    && forall i :: 0 < i < |path| ==> Parent(db, path[i]) == Some(path[i - 1])
  }

  lemma LineageUp(db: Db, path: seq<MsgId>, id: MsgId)
    requires Lineage(db, path, id)
    ensures Parent(db, id) == None <==> |path| == 1
    ensures Parent(db, id).Some? ==> Lineage(db, path[..|path| - 1], Parent(db, id).value)
  {
    var last := |path| - 1;
    assert last > 0 ==> Parent(db, path[last]) == Some(path[last - 1]);
  }

  lemma LineageDown(db: Db, path: seq<MsgId>, id: MsgId)
    requires id in db.msgs && Parent(db, id).Some? && Lineage(db, path, Parent(db, id).value)
    ensures Lineage(db, path + [id], id)
  {
    var longer := path + [id];
    forall i | 0 < i < |longer| ensures Parent(db, longer[i]) == Some(longer[i - 1]) {
      assert i < |path| ==> longer[i] == path[i];
    }
  }

  lemma {:induction false} LineageFrom(db: Db, rank: map<MsgId, nat>, id: MsgId) returns (path: seq<MsgId>)
    requires ParentsLinkable(db) && Ranks(db, rank) && id in db.msgs
    ensures Lineage(db, path, id)
    decreases rank[id]
  {
    match Parent(db, id)
    case None => path := [id];
    case Some(p) =>
      assert Linkable(db, db.msgs[id].pid.value);
      path := LineageFrom(db, rank, p);
      LineageDown(db, path, id);
      path := path + [id];
  }

  /** In a forest every message has a lineage. */
  lemma LineageExists(db: Db, id: MsgId) returns (path: seq<MsgId>)
    requires Forest(db) && id in db.msgs
    ensures Lineage(db, path, id)
  {
    var rank :| Ranks(db, rank);
    path := LineageFrom(db, rank, id);
  }

  // ---- ThreadMessages ----

  /** The rows of the capped lineage query, root first: at most n of them. */
  function Chain(db: Db, id: MsgId, n: nat): (ids: seq<MsgId>)
    decreases n
  {
    if n == 0 || id !in db.msgs then []
    else match Parent(db, id)
      case None => [id]
      case Some(p) => Chain(db, p, n - 1) + [id]
  }

  lemma {:induction false} ChainIsLineageEnd(db: Db, path: seq<MsgId>, id: MsgId, n: nat)
    requires Lineage(db, path, id)
    ensures Chain(db, id, n) == path[if n < |path| then |path| - n else 0..]
    decreases n
  {
    LineageUp(db, path, id);
    if n > 0 && |path| > 1 {
      ChainIsLineageEnd(db, path[..|path| - 1], Parent(db, id).value, n - 1);
    }
  }

  /** One message of a thread: what may not be seen is only its id. */
  datatype Entry = Hidden(id: MsgId) | Shown(id: MsgId, trash: TrashState)

  datatype ThreadAnswer = NotFound | Forbidden | TooDeep | Thread(messages: seq<Entry>, complete: bool)

  /** One of the caller's addresses wrote m, or it was sent to one of them. */
  predicate Sees(addrs: set<Addr>, m: Message) {
    m.from in addrs || (m.sent.Some? && exists a :: a in addrs && (a in m.to || a in m.addTo))
  }

  /** What caller, acting for addrs, deleted for good it does not see either. */
  function EntryOf(db: Db, caller: Addr, addrs: set<Addr>, id: MsgId): (e: Entry)
    requires id in db.msgs
  {
    var state := StateOf(db, caller, id);
    if Sees(addrs, db.msgs[id]) && state != Purged then Shown(id, state) else Hidden(id)
  }

  /** The thread shown for a lineage. */
  function Render(db: Db, caller: Addr, addrs: set<Addr>, path: seq<MsgId>): (answer: ThreadAnswer)
    requires forall i :: 0 <= i < |path| ==> path[i] in db.msgs
  {
    var messages := seq(|path|, i requires 0 <= i < |path| => EntryOf(db, caller, addrs, path[i]));
    Thread(messages, forall i :: 0 <= i < |path| ==> messages[i].Shown?)
  }

  lemma {:induction false} ChainIsStored(db: Db, id: MsgId, n: nat)
    ensures forall i :: 0 <= i < |Chain(db, id, n)| ==> Chain(db, id, n)[i] in db.msgs
    decreases n
  {
    if n > 0 && Parent(db, id).Some? {
      ChainIsStored(db, Parent(db, id).value, n - 1);
    }
  }

  /** caller acts for addrs; its own trash decides. */
  function ThreadMessages(db: Db, caller: Addr, addrs: set<Addr>, id: MsgId): (answer: ThreadAnswer) {
    var chain := Chain(db, id, THREAD_MAX_HOPS);
    if StateOf(db, caller, id) == Purged || chain == [] then NotFound
    else if id in db.msgs && !Sees(addrs, db.msgs[id]) then if db.msgs[id].sent.None? then NotFound else Forbidden
    else if |chain| == THREAD_MAX_HOPS && Parent(db, chain[0]).Some? then TooDeep
    else
      ChainIsStored(db, id, THREAD_MAX_HOPS);
      Render(db, caller, addrs, chain)
  }

  /** To those who may see it the whole lineage, each message as it stands for
      them, or too deep precisely when it is longer than the bound; to others
      what each refusal says. */
  lemma ThreadIsExactOrRefused(db: Db, caller: Addr, addrs: set<Addr>, path: seq<MsgId>, id: MsgId)
    requires Lineage(db, path, id)
    ensures ThreadMessages(db, caller, addrs, id)
            == if StateOf(db, caller, id) == Purged then NotFound
               else if !Sees(addrs, db.msgs[id]) then if db.msgs[id].sent.None? then NotFound else Forbidden
               else if |path| <= THREAD_MAX_HOPS then Render(db, caller, addrs, path) else TooDeep
  {
    ChainIsLineageEnd(db, path, id, THREAD_MAX_HOPS);
    assert path[0..] == path;
    var first := |path| - THREAD_MAX_HOPS;
    assert first > 0 ==> Parent(db, path[first]) == Some(path[first - 1]);
  }

  /** One of addrs wrote the message or, once it is sent, received it. */
  predicate MayRead(addrs: set<Addr>, m: Message) {
    exists a :: a in addrs && (m.from == a || (m.sent.Some? && (a in m.to || a in m.addTo)))
  }

  /** So a message deleted for good is not found, nor a draft of somebody else's; a
      sent message of others is forbidden; of a lineage of up to 100 every message
      is given, those that may be read and are not deleted for good with how they
      stand, of the others only the ids; and the thread is complete when none is
      hidden. */
  lemma ThreadAnswers(db: Db, caller: Addr, addrs: set<Addr>, path: seq<MsgId>, id: MsgId)
    requires Lineage(db, path, id)
    ensures var answer, m := ThreadMessages(db, caller, addrs, id), db.msgs[id];
            var readable := MayRead(addrs, m);
            && (answer.Thread? <==> StateOf(db, caller, id) != Purged && readable && |path| <= 100)
            && (answer.TooDeep? <==> StateOf(db, caller, id) != Purged && readable && |path| > 100)
            && (answer.Forbidden? <==> StateOf(db, caller, id) != Purged && !readable && m.sent.Some?)
            && (answer.Thread? ==>
                  && |answer.messages| == |path|
                  && (forall i :: 0 <= i < |path| ==>
                        answer.messages[i] == if MayRead(addrs, db.msgs[path[i]]) && StateOf(db, caller, path[i]) != Purged
                                              then Shown(path[i], StateOf(db, caller, path[i])) else Hidden(path[i]))
                  && (answer.complete <==> forall i :: 0 <= i < |path| ==> answer.messages[i].Shown?))
  {
    ThreadIsExactOrRefused(db, caller, addrs, path, id);
    forall m: Message ensures Sees(addrs, m) <==> MayRead(addrs, m) {
    }
  }

  // ---- The other two roots ----

  /** rootMsgID's query: a stored message with no parent reached from id. */
  ghost predicate PushRoot(db: Db, id: MsgId, root: MsgId) {
    root in db.msgs && Parent(db, root) == None && exists k: nat :: Ancestor(db, id, k) == Some(root)
  }

  /** indicatorAudience's query: the deepest row within its cap. */
  function IndicatorRoot(db: Db, id: MsgId): (r: MsgId) {
    var chain := Chain(db, id, INDICATOR_CAP + 1);
    if chain == [] then id else chain[0]
  }

  lemma {:induction false} LineageAncestor(db: Db, path: seq<MsgId>, id: MsgId, k: nat)
    requires Lineage(db, path, id)
    ensures Ancestor(db, id, k) == if k < |path| then Some(path[|path| - 1 - k]) else None
    decreases k
  {
    LineageUp(db, path, id);
    if k > 0 && |path| > 1 {
      LineageAncestor(db, path[..|path| - 1], Parent(db, id).value, k - 1);
    }
  }

  /** The push walk finds the lineage's first message and nothing else. */
  lemma PushRootIsRoot(db: Db, path: seq<MsgId>, id: MsgId, root: MsgId)
    requires Lineage(db, path, id)
    ensures PushRoot(db, id, root) <==> root == path[0]
  {
    LineageAncestor(db, path, id, |path| - 1);
    forall j | 0 < j < |path| ensures Parent(db, path[j]).Some? {
      assert Parent(db, path[j]) == Some(path[j - 1]);
    }
    if PushRoot(db, id, root) {
      var k: nat :| Ancestor(db, id, k) == Some(root);
      LineageAncestor(db, path, id, k);
    }
  }

  /** The indicator walk finds it exactly when the lineage is within its cap. */
  lemma IndicatorRootIsRoot(db: Db, path: seq<MsgId>, id: MsgId)
    requires Forest(db) && Lineage(db, path, id)
    ensures IndicatorRoot(db, id) == path[0] <==> |path| <= 10001
  {
    ChainIsLineageEnd(db, path, id, INDICATOR_CAP + 1);
    if |path| > INDICATOR_CAP + 1 {
      var at: nat := |path| - (INDICATOR_CAP + 1);
      LineageAncestor(db, path, id, INDICATOR_CAP);
      LineageAncestor(db, path, id, |path| - 1);
      AncestorPlus(db, id, INDICATOR_CAP, at);
      NoCycle(db, path[at], at);
    }
  }

  /** Whenever a thread is shown, all three agree on its root. */
  lemma RootsAgree(db: Db, caller: Addr, addrs: set<Addr>, id: MsgId)
    requires Forest(db) && id in db.msgs && ThreadMessages(db, caller, addrs, id).Thread?
    ensures ThreadMessages(db, caller, addrs, id).messages != []
    ensures var root := ThreadMessages(db, caller, addrs, id).messages[0].id;
            PushRoot(db, id, root) && IndicatorRoot(db, id) == root
            && forall other :: PushRoot(db, id, other) ==> other == root
  {
    var path := LineageExists(db, id);
    ThreadIsExactOrRefused(db, caller, addrs, path, id);
    IndicatorRootIsRoot(db, path, id);
    forall other ensures PushRoot(db, id, other) <==> other == path[0] {
      PushRootIsRoot(db, path, id, other);
    }
  }

  // ---- Count ----

  predicate HasVisibleParent(db: Db, visible: set<MsgId>, id: MsgId) {
    Parent(db, id).Some? && Parent(db, id).value in visible
  }

  /** The rows Count counts. */
  function Heads(db: Db, visible: set<MsgId>): (ids: set<MsgId>) {
    set id | id in visible && !HasVisibleParent(db, visible, id)
  }

  function CountThreads(db: Db, a: Addr, mode: ListMode): (n: nat) {
    |Heads(db, Listed(db, a, mode))|
  }

  /** One visible message is the other's parent. */
  predicate Linked(db: Db, u: MsgId, v: MsgId) {
    Parent(db, u) == Some(v) || Parent(db, v) == Some(u)
  }

  /** A way from u to v along links between visible messages. */
  ghost predicate Way(db: Db, visible: set<MsgId>, way: seq<MsgId>, u: MsgId, v: MsgId) {
    && way != [] && way[0] == u && way[|way| - 1] == v
    && (forall i :: 0 <= i < |way| ==> way[i] in visible)
    && forall i :: 0 < i < |way| ==> Linked(db, way[i - 1], way[i])
  }

  ghost predicate Joined(db: Db, visible: set<MsgId>, u: MsgId, v: MsgId) {
    exists way :: Way(db, visible, way, u, v)
  }

  /** Everything joined to v. */
  ghost function ClassOf(db: Db, visible: set<MsgId>, v: MsgId): (ids: set<MsgId>) {
    set u | u in visible && Joined(db, visible, u, v)
  }

  /** The visible messages, grouped by joining each to its visible parent. */
  ghost function Classes(db: Db, visible: set<MsgId>): (r: set<set<MsgId>>) {
    set v | v in visible :: ClassOf(db, visible, v)
  }

  ghost function HeadOf(db: Db, visible: set<MsgId>, rank: map<MsgId, nat>, v: MsgId): (head: MsgId)
    requires Ranks(db, rank) && visible <= db.msgs.Keys && v in visible
    ensures head in Heads(db, visible)
    decreases rank[v]
  {
    if HasVisibleParent(db, visible, v) then HeadOf(db, visible, rank, Parent(db, v).value) else v
  }

  lemma JoinedSymmetric(db: Db, visible: set<MsgId>, u: MsgId, v: MsgId)
    requires Joined(db, visible, u, v)
    ensures Joined(db, visible, v, u)
  {
    var way :| Way(db, visible, way, u, v);
    var back := seq(|way|, i requires 0 <= i < |way| => way[|way| - 1 - i]);
    forall i | 0 < i < |back| ensures Linked(db, back[i - 1], back[i]) {
      assert Linked(db, way[|way| - 1 - i], way[|way| - 1 - i + 1]);
    }
    assert Way(db, visible, back, v, u);
  }

  lemma JoinedTransitive(db: Db, visible: set<MsgId>, u: MsgId, v: MsgId, w: MsgId)
    requires Joined(db, visible, u, v) && Joined(db, visible, v, w)
    ensures Joined(db, visible, u, w)
  {
    var one :| Way(db, visible, one, u, v);
    var two :| Way(db, visible, two, v, w);
    var all := one + two[1..];
    forall i | 0 < i < |all| ensures Linked(db, all[i - 1], all[i]) {
      if i >= |one| {
        assert all[i] == two[i - |one| + 1] && all[i - 1] == two[i - |one|];
      }
    }
    assert Way(db, visible, all, u, w);
  }

  lemma {:induction false} JoinedToHead(db: Db, visible: set<MsgId>, rank: map<MsgId, nat>, v: MsgId)
    requires Ranks(db, rank) && visible <= db.msgs.Keys && v in visible
    ensures Joined(db, visible, v, HeadOf(db, visible, rank, v))
    decreases rank[v]
  {
    assert Way(db, visible, [v], v, v);
    if HasVisibleParent(db, visible, v) {
      var p := Parent(db, v).value;
      assert Way(db, visible, [v, p], v, p);
      JoinedToHead(db, visible, rank, p);
      JoinedTransitive(db, visible, v, p, HeadOf(db, visible, rank, v));
    }
  }

  lemma {:induction false} WayKeepsHead(db: Db, visible: set<MsgId>, rank: map<MsgId, nat>, way: seq<MsgId>,
                                        u: MsgId, v: MsgId)
    requires Ranks(db, rank) && visible <= db.msgs.Keys && Way(db, visible, way, u, v)
    ensures HeadOf(db, visible, rank, u) == HeadOf(db, visible, rank, v)
    decreases |way|
  {
    if |way| > 1 {
      assert Linked(db, way[0], way[1]);
      assert Way(db, visible, way[1..], way[1], v);
      WayKeepsHead(db, visible, rank, way[1..], way[1], v);
    }
  }

  /** Two visible messages are joined exactly when they have the same head. */
  lemma JoinedIsSameHead(db: Db, visible: set<MsgId>, rank: map<MsgId, nat>, u: MsgId, v: MsgId)
    requires Ranks(db, rank) && visible <= db.msgs.Keys && u in visible && v in visible
    ensures Joined(db, visible, u, v) <==> HeadOf(db, visible, rank, u) == HeadOf(db, visible, rank, v)
  {
    if Joined(db, visible, u, v) {
      var way :| Way(db, visible, way, u, v);
      WayKeepsHead(db, visible, rank, way, u, v);
    }
    JoinedToHead(db, visible, rank, u);
    JoinedToHead(db, visible, rank, v);
    JoinedSymmetric(db, visible, v, HeadOf(db, visible, rank, v));
    if HeadOf(db, visible, rank, u) == HeadOf(db, visible, rank, v) {
      JoinedTransitive(db, visible, u, HeadOf(db, visible, rank, u), v);
    }
  }

  ghost function ClassesOf(db: Db, visible: set<MsgId>, heads: set<MsgId>): (r: set<set<MsgId>>) {
    set h | h in heads :: ClassOf(db, visible, h)
  }

  lemma {:induction false} DistinctClasses(db: Db, visible: set<MsgId>, heads: set<MsgId>)
    requires forall h, k :: h in heads && k in heads && h != k ==> ClassOf(db, visible, h) != ClassOf(db, visible, k)
    ensures |ClassesOf(db, visible, heads)| == |heads|
    decreases |heads|
  {
    if heads == {} {
      assert ClassesOf(db, visible, heads) == {};
    } else {
      var h :| h in heads;
      DistinctClasses(db, visible, heads - {h});
      assert ClassesOf(db, visible, heads) == ClassesOf(db, visible, heads - {h}) + {ClassOf(db, visible, h)};
    }
  }

  /** The count is the number of classes that joining each visible message to
      its visible parent makes: how clients group a thread from what they list. */
  lemma CountIsNumberOfClasses(db: Db, a: Addr, mode: ListMode)
    requires Forest(db)
    ensures CountThreads(db, a, mode) == |Classes(db, Listed(db, a, mode))|
  {
    var visible := Listed(db, a, mode);
    var heads := Heads(db, visible);
    var rank :| Ranks(db, rank);
    forall u, v | u in visible && v in visible
      ensures Joined(db, visible, u, v) <==> HeadOf(db, visible, rank, u) == HeadOf(db, visible, rank, v)
    {
      JoinedIsSameHead(db, visible, rank, u, v);
    }
    forall v | v in visible ensures ClassOf(db, visible, v) == ClassOf(db, visible, HeadOf(db, visible, rank, v)) {
      assert HeadOf(db, visible, rank, HeadOf(db, visible, rank, v)) == HeadOf(db, visible, rank, v);
    }
    assert Classes(db, visible) == ClassesOf(db, visible, heads);
    forall h, k | h in heads && k in heads && h != k ensures ClassOf(db, visible, h) != ClassOf(db, visible, k) {
      assert h in ClassOf(db, visible, h);
    }
    DistinctClasses(db, visible, heads);
  }
}
