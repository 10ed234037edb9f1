/**
 The WebSocket hub (internal/handlers/hub.go) and its clients' bounded send
 queues (internal/handlers/ws.go). Addresses are already lower-cased.
*/
module Hub {
  import opened Basics

  type Addr = string
  type Payload = string

  /** wsSendBuffer: the depth of a client's queue. */
  const SEND_BUFFER := 16

  /** A client's queue, and whether its connection has been closed. */
  datatype Conn = Conn(queue: seq<Payload>, closed: bool)

  /** Queue a payload, or close the connection of a client too slow to take it. */
  function Offer(c: Conn, p: Payload): (after: Conn) {
    if |c.queue| < SEND_BUFFER then c.(queue := c.queue + [p]) else c.(closed := true)
  }

  /** A connection has taken a payload: queued behind what was queued, and no
      more closed than before; or it was full, keeps its queue and is closed. */
  predicate Took(before: Conn, after: Conn, p: Payload) {
    if |before.queue| < 16
    then after.queue == before.queue + [p] && after.closed == before.closed
    else after.queue == before.queue && after.closed
  }

  lemma OfferedTook(c: Conn, p: Payload)
    ensures Took(c, Offer(c, p), p)
    ensures forall after :: Took(c, after, p) ==> after == Offer(c, p)
  {
  }

  // ---- The hub, one request at a time ----

  /** The connections once the clients of some addresses were offered a payload. */
  function Offered(conns: map<Client, Conn>, addrs: set<Addr>, p: Payload): (after: map<Client, Conn>) {
    map c | c in conns :: if c.addr in addrs then Offer(conns[c], p) else conns[c]
  }

  class Client {
    const addr: Addr
    var conn: Conn

    constructor (addr: Addr)
      ensures this.addr == addr && conn == Conn([], false)
    {
      this.addr, conn := addr, Conn([], false);
    }
  }

  class Hub {
    /** The connected clients of each address; no address has an empty set. */
    var registry: map<Addr, set<Client>>

    ghost predicate Valid()
      reads this
    {
      forall a :: a in registry ==> registry[a] != {} && forall c :: c in registry[a] ==> c.addr == a
    }

    function At(a: Addr): (clients: set<Client>)
      reads this
    {
      if a in registry then registry[a] else {}
    }

    function All(): (clients: set<Client>)
      reads this
    {
      set a, c | a in registry && c in registry[a] :: c
    }

    /** Where each connected client stands. */
    function Conns(): (conns: map<Client, Conn>)
      reads this, All()
    {
      map c | c in All() :: c.conn
    }

    constructor ()
      ensures Valid() && registry == map[]
    {
      registry := map[];
    }

    method Register(c: Client)
      requires Valid()
      modifies this
      ensures Valid()
      ensures forall a :: At(a) == old(At(a)) + if a == c.addr then {c} else {}
    {
      var clients := if c.addr in registry then registry[c.addr] else {};
      registry := registry[c.addr := clients + {c}];
    }

    method Unregister(c: Client)
      requires Valid()
      modifies this
      ensures Valid()
      ensures forall a :: At(a) == old(At(a)) - {c}
    {
      if c.addr !in registry {
        return;
      }
      var clients := registry[c.addr] - {c};
      registry := registry[c.addr := clients];
      if clients == {} {
        registry := registry - {c.addr};
      }
    }

    /** The clients connected as a, in whatever order the map gives them. */
    method ClientsOf(a: Addr) returns (clients: seq<Client>)
      ensures forall c :: c in clients <==> c in At(a)
      ensures Distinct(clients)
    {
      clients := [];
      var rest := At(a);
      while rest != {}
        invariant rest <= At(a) && Distinct(clients)
        invariant forall c :: c in clients <==> c in At(a) && c !in rest
      {
        var c :| c in rest;
        rest := rest - {c};
        clients := clients + [c];
      }
    }

    /** Offers the payload to each client once. */
    method Send(clients: seq<Client>, p: Payload)
      requires Distinct(clients)
      modifies clients
      ensures forall c :: c in clients ==>
                if |old(c.conn.queue)| < 16
                then c.conn.queue == old(c.conn.queue) + [p] && c.conn.closed == old(c.conn.closed)
                else c.conn.queue == old(c.conn.queue) && c.conn.closed
    {
      for i := 0 to |clients|
        invariant forall j :: 0 <= j < i ==> Took(old(clients[j].conn), clients[j].conn, p)
        invariant forall j :: i <= j < |clients| ==> clients[j].conn == old(clients[j].conn)
      {
        var c := clients[i];
        if |c.conn.queue| < SEND_BUFFER {
          c.conn := c.conn.(queue := c.conn.queue + [p]);
        } else {
          c.conn := c.conn.(closed := true);
        }
      }
    }

    /** Offers the payload once to the clients of addrs, who are these. */
    method SendTo(clients: seq<Client>, ghost addrs: set<Addr>, p: Payload)
      requires Distinct(clients) && forall c :: c in clients <==> c in All() && c.addr in addrs
      modifies All()
      ensures forall c :: c in All() ==>
                if c.addr in addrs then
                  if |old(c.conn.queue)| < 16
                  then c.conn.queue == old(c.conn.queue) + [p] && c.conn.closed == old(c.conn.closed)
                  else c.conn.queue == old(c.conn.queue) && c.conn.closed
                else c.conn == old(c.conn)
      ensures Conns() == Offered(old(Conns()), addrs, p)
    {
      assert (set c | c in clients) <= All();
      Send(clients, p);
      forall c | c in All() ensures c.conn == if c.addr in addrs then Offer(old(c.conn), p) else old(c.conn) {
        OfferedTook(old(c.conn), p);
      }
    }

    /** A message's event reaches its address's clients and nobody else's; item
        is None when the message could not be built or is purged for a, and then
        nothing is sent. */
    method Dispatch(a: Addr, item: Option<Payload>)
      requires Valid()
      modifies All()
      ensures forall c :: c in All() ==>
                if c.addr == a && item.Some? then
                  if |old(c.conn.queue)| < 16
                  then c.conn.queue == old(c.conn.queue) + [item.value] && c.conn.closed == old(c.conn.closed)
                  else c.conn.queue == old(c.conn.queue) && c.conn.closed
                else c.conn == old(c.conn)
      ensures Conns() == if item.Some? then Offered(old(Conns()), {a}, item.value) else old(Conns())
    {
      var clients := ClientsOf(a);
      AtIsAddressed(a);
      if item.Some? {
        SendTo(clients, {a}, item.value);
      }
    }

    /** A trash event always reaches the address's clients: with the message, or
        with only its id when it is gone for a. */
    method DispatchTrash(a: Addr, item: Option<Payload>, gone: Payload)
      requires Valid()
      modifies All()
      ensures forall c :: c in All() ==>
                if c.addr == a then
                  if |old(c.conn.queue)| < 16
                  then && c.conn.queue == old(c.conn.queue) + [if item.Some? then item.value else gone]
                       && c.conn.closed == old(c.conn.closed)
                  else c.conn.queue == old(c.conn.queue) && c.conn.closed
                else c.conn == old(c.conn)
      ensures Conns() == Offered(old(Conns()), {a}, if item.Some? then item.value else gone)
    {
      var clients := ClientsOf(a);
      AtIsAddressed(a);
      SendTo(clients, {a}, if item.Some? then item.value else gone);
    }

    lemma AtIsAddressed(a: Addr)
      requires Valid()
      ensures forall c :: c in At(a) <==> c in All() && c.addr == a
    {
    }

    /** The clients of each participant, each once, without the indicating address's. */
    method AudienceOf(from: Addr, audience: seq<Addr>) returns (clients: seq<Client>)
      requires Valid()
      ensures Distinct(clients)
      ensures forall c :: c in clients <==> c in All() && c.addr in audience && c.addr != from
    {
      clients := [];
      var seen := {from};
      for i := 0 to |audience|
        invariant Distinct(clients)
        invariant forall a :: a in seen <==> a == from || a in audience[..i]
        invariant forall c :: c in clients <==> c in All() && c.addr in seen && c.addr != from
      {
        assert audience[..i + 1] == audience[..i] + [audience[i]];
        var a := audience[i];
        if a in seen {
          continue;
        }
        seen := seen + {a};
        var more := ClientsOf(a);
        AtIsAddressed(a);
        DistinctPlus(clients, more);
        clients := clients + more;
      }
      assert audience[..|audience|] == audience;
    }

    /** An indicator reaches each participant's clients once, however often the
        participant is listed, and never the indicating address's. */
    method RouteIndicator(from: Addr, audience: seq<Addr>, p: Payload)
      requires Valid()
      modifies All()
      ensures forall c :: c in All() ==>
                if c.addr in audience && c.addr != from then
                  if |old(c.conn.queue)| < 16
                  then c.conn.queue == old(c.conn.queue) + [p] && c.conn.closed == old(c.conn.closed)
                  else c.conn.queue == old(c.conn.queue) && c.conn.closed
                else c.conn == old(c.conn)
      ensures Conns() == Offered(old(Conns()), (set a | a in audience) - {from}, p)
    {
      var clients := AudienceOf(from, audience);
      SendTo(clients, (set a | a in audience) - {from}, p);
    }
  }

  ghost predicate Distinct<T>(s: seq<T>) {
    forall i, j :: 0 <= i < j < |s| ==> s[i] != s[j]
  }

  lemma DistinctPlus<T>(s: seq<T>, t: seq<T>)
    requires Distinct(s) && Distinct(t) && forall x :: x in s ==> x !in t
    ensures Distinct(s + t)
  {
    forall i, j | 0 <= i < j < |s + t| ensures (s + t)[i] != (s + t)[j] {
      if i < |s| <= j {
        assert s[i] in s && t[j - |s|] in t;
      }
    }
  }

  // ---- The hub as a state machine ----

  type Id = nat

  /** A client as the machine sees it. written is what its write pump has sent;
      broken, that a write failed and the pump is gone; since, how much had been
      dispatched for its address when it registered. */
  datatype Peer = Peer(addr: Addr, conn: Conn, written: seq<Payload>, broken: bool, since: nat)

  /** A payload on its way: the clients found for it that it has not reached yet. */
  datatype Flight = Landed | Flying(payload: Payload, targets: set<Id>)

  /** log is everything dispatched for each address, in order. */
  datatype State = State(peers: map<Id, Peer>, registry: map<Addr, set<Id>>, log: map<Addr, seq<Payload>>, flight: Flight)

  const IDLE := State(map[], map[], map[], Landed)

  /** The hub's listener is one goroutine: it finds a payload's clients under
      the lock, then offers it to them one by one, while clients come and go,
      pumps write and connections close. */
  datatype Event =
    | Register(id: Id, addr: Addr)
    | Unregister(id: Id)
    | Dispatch(addrs: set<Addr>, payload: Payload)
    | Reach(id: Id)
    | Land
    | Write(id: Id, failed: bool)
    | Close(id: Id)

  function Log(s: State, a: Addr): (payloads: seq<Payload>) {
    if a in s.log then s.log[a] else []
  }

  function Registered(s: State, a: Addr): (ids: set<Id>) {
    if a in s.registry then s.registry[a] else {}
  }

  function Step(s: State, e: Event): (after: State) {
    match e
    case Register(id, a) =>
      if id in s.peers then s
      else s.(peers := s.peers[id := Peer(a, Conn([], false), [], false, |Log(s, a)|)],
              registry := s.registry[a := Registered(s, a) + {id}])
    case Unregister(id) =>
      if id !in s.peers || s.peers[id].addr !in s.registry then s
      else
        var a := s.peers[id].addr;
        var left := s.registry[a] - {id};
        s.(registry := if left == {} then s.registry - {a} else s.registry[a := left])
    case Dispatch(addrs, p) =>
      if s.flight != Landed then s
      else s.(flight := Flying(p, set a, id | a in addrs && a in s.registry && id in s.registry[a] :: id),
              log := map a | a in s.log.Keys + addrs :: if a in addrs then Log(s, a) + [p] else Log(s, a))
    case Reach(id) =>
      if s.flight == Landed || id !in s.flight.targets || id !in s.peers then s
      else s.(flight := s.flight.(targets := s.flight.targets - {id}),
              peers := s.peers[id := s.peers[id].(conn := Offer(s.peers[id].conn, s.flight.payload))])
    case Land =>
      if s.flight == Landed || s.flight.targets != {} then s else s.(flight := Landed)
    case Write(id, failed) =>
      if id !in s.peers || s.peers[id].broken || s.peers[id].conn.queue == [] then s
      else
        var peer := s.peers[id];
        var next := peer.(conn := peer.conn.(queue := peer.conn.queue[1..]));
        s.(peers := s.peers[id := if failed then next.(broken := true)
                                  else next.(written := peer.written + [peer.conn.queue[0]])])
    case Close(id) =>
      if id !in s.peers then s
      else s.(peers := s.peers[id := s.peers[id].(conn := s.peers[id].conn.(closed := true))])
  }

  /** What is on its way to a client. */
  function Coming(s: State, id: Id): (payloads: seq<Payload>) {
    if s.flight.Flying? && id in s.flight.targets then [s.flight.payload] else []
  }

  /** Written, queued and coming is all that was dispatched since it registered. */
  ghost predicate NoGap(s: State, id: Id)
    requires id in s.peers
  {
    var p := s.peers[id];
    p.since <= |Log(s, p.addr)|
    && p.written + p.conn.queue + Coming(s, id) == Log(s, p.addr)[p.since..]
  }

  ghost predicate RegistryValid(s: State) {
    && (forall a :: a in s.registry ==> s.registry[a] != {})
    && (forall a, id :: a in s.registry && id in s.registry[a] ==> id in s.peers && s.peers[id].addr == a)
    && (s.flight.Flying? ==> s.flight.targets <= s.peers.Keys)
  }

  ghost predicate Live(s: State, id: Id) {
    id in s.peers && id in Registered(s, s.peers[id].addr) && !s.peers[id].conn.closed && !s.peers[id].broken
  }

  ghost predicate Invariant(s: State) {
    && RegistryValid(s)
    && (forall id :: id in s.peers ==>
          |s.peers[id].conn.queue| <= SEND_BUFFER && s.peers[id].since <= |Log(s, s.peers[id].addr)|)
    && forall id :: Live(s, id) ==> NoGap(s, id)
  }

  lemma StepKeepsRegistry(s: State, e: Event)
    requires RegistryValid(s)
    ensures RegistryValid(Step(s, e))
  {
  }

  lemma LogOnlyGrows(s: State, e: Event, a: Addr)
    ensures |Log(s, a)| <= |Log(Step(s, e), a)|
  {
  }

  lemma StepKeepsBound(s: State, e: Event, id: Id)
    requires Invariant(s) && id in Step(s, e).peers
    ensures |Step(s, e).peers[id].conn.queue| <= SEND_BUFFER
    ensures Step(s, e).peers[id].since <= |Log(Step(s, e), Step(s, e).peers[id].addr)|
  {
    LogOnlyGrows(s, e, Step(s, e).peers[id].addr);
  }

  lemma DispatchKeepsNoGap(s: State, e: Event, id: Id)
    requires Invariant(s) && Live(s, id) && e.Dispatch? && s.flight == Landed
    ensures NoGap(Step(s, e), id)
  {
    var p := s.peers[id];
    var before, after := Log(s, p.addr), Log(Step(s, e), p.addr);
    assert p.written + p.conn.queue + [] == before[p.since..];
    if p.addr in e.addrs {
      assert id in Step(s, e).flight.targets;
      assert after[p.since..] == before[p.since..] + [e.payload];
      assert p.written + p.conn.queue + [e.payload] == p.written + p.conn.queue + [] + [e.payload];
    } else {
      assert Coming(Step(s, e), id) == [];
    }
  }

  lemma ReachKeepsNoGap(s: State, e: Event, id: Id)
    requires Invariant(s) && Live(s, id) && e.Reach? && Live(Step(s, e), id)
    ensures NoGap(Step(s, e), id)
  {
    var p, q := s.peers[id], Step(s, e).peers[id];
    if e.id == id && s.flight.Flying? && id in s.flight.targets {
      assert q.conn.queue == p.conn.queue + [s.flight.payload];
      assert q.written + q.conn.queue + [] == p.written + p.conn.queue + Coming(s, id);
    }
  }

  lemma WriteKeepsNoGap(s: State, e: Event, id: Id)
    requires Invariant(s) && Live(s, id) && e.Write? && Live(Step(s, e), id)
    ensures NoGap(Step(s, e), id)
  {
    var p, q := s.peers[id], Step(s, e).peers[id];
    if e.id == id && p.conn.queue != [] {
      assert p.conn.queue == [p.conn.queue[0]] + p.conn.queue[1..];
      assert q.written + q.conn.queue == p.written + p.conn.queue;
    }
  }

  lemma StepKeepsNoGap(s: State, e: Event, id: Id)
    requires Invariant(s) && Live(Step(s, e), id)
    ensures NoGap(Step(s, e), id)
  {
    if id !in s.peers {
      var p := Step(s, e).peers[id];
      assert p.written + p.conn.queue + Coming(Step(s, e), id) == [];
    } else {
      assert Live(s, id);
      match e
      case Dispatch(_, _) => if s.flight == Landed { DispatchKeepsNoGap(s, e, id); }
      case Reach(_) => ReachKeepsNoGap(s, e, id);
      case Write(_, _) => WriteKeepsNoGap(s, e, id);
      case Land => assert Coming(s, id) == Coming(Step(s, e), id);
      case _ =>
    }
  }

  function Run(s: State, events: seq<Event>): (after: State)
    decreases |events|
  {
    if events == [] then s else Run(Step(s, events[0]), events[1..])
  }

  lemma {:induction false} RunKeeps(s: State, events: seq<Event>)
    requires Invariant(s)
    ensures Invariant(Run(s, events))
    decreases |events|
  {
    if events != [] {
      StepKeepsRegistry(s, events[0]);
      forall id | id in Step(s, events[0]).peers
        ensures |Step(s, events[0]).peers[id].conn.queue| <= SEND_BUFFER
                && Step(s, events[0]).peers[id].since <= |Log(Step(s, events[0]), Step(s, events[0]).peers[id].addr)|
      {
        StepKeepsBound(s, events[0], id);
      }
      forall id | Live(Step(s, events[0]), id) ensures NoGap(Step(s, events[0]), id) {
        StepKeepsNoGap(s, events[0], id);
      }
      RunKeeps(Step(s, events[0]), events[1..]);
    }
  }

  /** In every run, whatever interleaves with what: a client still registered,
      not closed and whose writes have not failed has been written, has queued or
      is about to be offered exactly what was dispatched for its address since it
      registered, in order; no queue is deeper than the buffer; and the registry
      holds no empty set. */
  lemma DeliveryHasNoGaps(events: seq<Event>, id: Id)
    ensures var s := Run(IDLE, events);
            && (forall a :: a in s.registry ==> s.registry[a] != {})
            && (id in s.peers ==> |s.peers[id].conn.queue| <= SEND_BUFFER)
            && (Live(s, id) ==>
                  var p := s.peers[id];
                  p.since <= |Log(s, p.addr)|
                  && p.written + p.conn.queue + Coming(s, id) == Log(s, p.addr)[p.since..])
  {
    RunKeeps(IDLE, events);
  }

  /** Between payloads nothing is coming: written and queued is all there was. */
  lemma AtRestNothingIsMissing(events: seq<Event>, id: Id)
    requires Run(IDLE, events).flight == Landed && Live(Run(IDLE, events), id)
    ensures var s := Run(IDLE, events);
            var p := s.peers[id];
            p.since <= |Log(s, p.addr)| && p.written + p.conn.queue == Log(s, p.addr)[p.since..]
  {
    DeliveryHasNoGaps(events, id);
    var s := Run(IDLE, events);
    assert s.peers[id].written + s.peers[id].conn.queue + [] == s.peers[id].written + s.peers[id].conn.queue;
  }

  // ---- What reaching a client does ----

  /** A client reached with room keeps its connection as it was and has the
      payload queued last; a full one keeps its queue and is closed. */
  lemma ReachedQueuesOrCloses(s: State, id: Id)
    requires s.flight.Flying? && id in s.flight.targets && id in s.peers
    ensures var before, after := s.peers[id].conn, Step(s, Reach(id)).peers[id].conn;
            if |before.queue| < 16
            then after.queue == before.queue + [s.flight.payload] && after.closed == before.closed
            else after.queue == before.queue && after.closed
  {
  }

  /** Dispatching puts a payload on its way to every client registered for one of
      its addresses, and logs it there. */
  lemma DispatchFindsClients(s: State, addrs: set<Addr>, p: Payload, a: Addr, id: Id)
    requires s.flight == Landed && a in addrs && a in s.registry && id in s.registry[a]
    ensures var after := Step(s, Dispatch(addrs, p));
            && after.flight.Flying? && after.flight.payload == p && id in after.flight.targets
            && Log(after, a) == Log(s, a) + [p]
  {
  }

  /** The event closes id: it says so, or a payload reaches it when full. */
  predicate Closes(s: State, e: Event, id: Id) {
    || e == Close(id)
    || (e == Reach(id) && s.flight.Flying? && id in s.flight.targets && id in s.peers && |s.peers[id].conn.queue| >= 16)
  }

  ghost predicate ClosedInRun(s: State, events: seq<Event>, id: Id)
    decreases |events|
  {
    events != [] && (Closes(s, events[0], id) || ClosedInRun(Step(s, events[0]), events[1..], id))
  }

  lemma {:induction false} ClosedSince(s: State, events: seq<Event>, id: Id)
    requires id in Run(s, events).peers && Run(s, events).peers[id].conn.closed
    requires id in s.peers ==> !s.peers[id].conn.closed
    ensures ClosedInRun(s, events, id)
    decreases |events|
  {
    if events != [] {
      var next := Step(s, events[0]);
      if id in next.peers && next.peers[id].conn.closed {
        assert Closes(s, events[0], id);
      } else {
        ClosedSince(next, events[1..], id);
      }
    }
  }

  /** Over every run a client is closed only if something closed it: a close of
      its own, or a payload that reached it with 16 queued. */
  lemma ClosedOnlyIf(events: seq<Event>, id: Id)
    requires id in Run(IDLE, events).peers && Run(IDLE, events).peers[id].conn.closed
    ensures ClosedInRun(IDLE, events, id)
  {
    ClosedSince(IDLE, events, id);
  }

  lemma StepStaysLive(s: State, e: Event, id: Id)
    requires RegistryValid(s) && Live(s, id)
    requires e != Unregister(id) && e != Write(id, true) && !Closes(s, e, id)
    ensures Live(Step(s, e), id)
  {
  }

  /** And a registered client stays live, so is owed every payload, as long as it
      is not unregistered, none of its writes fails and nothing closes it. */
  lemma {:induction false} StaysLive(s: State, events: seq<Event>, id: Id)
    requires RegistryValid(s) && Live(s, id) && !ClosedInRun(s, events, id)
    requires forall i :: 0 <= i < |events| ==> events[i] != Unregister(id) && events[i] != Write(id, true)
    ensures Live(Run(s, events), id)
    decreases |events|
  {
    if events != [] {
      StepStaysLive(s, events[0], id);
      StepKeepsRegistry(s, events[0]);
      StaysLive(Step(s, events[0]), events[1..], id);
    }
  }

  // ---- The hub is the machine ----

  function Reaches(order: seq<Id>): (events: seq<Event>) {
    seq(|order|, i requires 0 <= i < |order| => Reach(order[i]))
  }

  /** What the listener does with one payload: find the clients, offer it to
      each in some order, and be done. */
  function Offering(addrs: set<Addr>, p: Payload, order: seq<Id>): (events: seq<Event>) {
    [Dispatch(addrs, p)] + Reaches(order) + [Land]
  }

  function Targets(s: State, addrs: set<Addr>): (ids: set<Id>) {
    set a, id | a in addrs && a in s.registry && id in s.registry[a] :: id
  }

  lemma {:induction false} RunPlus(s: State, events: seq<Event>, more: seq<Event>)
    ensures Run(s, events + more) == Run(Run(s, events), more)
    decreases |events|
  {
    if events == [] {
      assert events + more == more;
    } else {
      assert (events + more)[1..] == events[1..] + more;
      RunPlus(Step(s, events[0]), events[1..], more);
    }
  }

  /** Each target, reached once, is offered the payload. */
  lemma {:induction false} ReachesOffer(s: State, order: seq<Id>)
    requires s.flight.Flying? && Distinct(order) && forall id :: id in order ==> id in s.flight.targets && id in s.peers
    ensures var after := Run(s, Reaches(order));
            && after == s.(peers := after.peers, flight := after.flight)
            && after.flight == s.flight.(targets := s.flight.targets - set id | id in order)
            && after.peers.Keys == s.peers.Keys
            && forall id :: id in s.peers ==>
                 after.peers[id] == if id in order then s.peers[id].(conn := Offer(s.peers[id].conn, s.flight.payload))
                                    else s.peers[id]
    decreases |order|
  {
    if order == [] {
      assert s.flight.targets - (set id | id in order) == s.flight.targets;
    } else {
      var next := Step(s, Reach(order[0]));
      assert Reaches(order)[1..] == Reaches(order[1..]) && Reaches(order)[0] == Reach(order[0]);
      assert forall id :: id in order <==> id == order[0] || id in order[1..];
      ReachesOffer(next, order[1..]);
      assert s.flight.targets - {order[0]} - (set id | id in order[1..]) == s.flight.targets - set id | id in order;
    }
  }

  /** Whatever order the listener takes, a payload for some addresses ends up
      offered once to each of their clients. */
  lemma OfferingOffers(s: State, addrs: set<Addr>, p: Payload, order: seq<Id>)
    requires RegistryValid(s) && s.flight == Landed
    requires Distinct(order) && (set id | id in order) == Targets(s, addrs)
    ensures var after := Run(s, Offering(addrs, p, order));
            && after.registry == s.registry && after.flight == Landed && after.peers.Keys == s.peers.Keys
            && forall id :: id in s.peers ==>
                 after.peers[id] == if id in Targets(s, addrs) then s.peers[id].(conn := Offer(s.peers[id].conn, p))
                                    else s.peers[id]
  {
    var flying := Step(s, Dispatch(addrs, p));
    assert Offering(addrs, p, order)[1..] == Reaches(order) + [Land];
    RunPlus(flying, Reaches(order), [Land]);
    assert forall id :: id in order <==> id in Targets(s, addrs);
    ReachesOffer(flying, order);
    var reached := Run(flying, Reaches(order));
    assert reached.flight.targets == {};
    assert [Land][1..] == [];
    assert Run(reached, [Land]) == Step(reached, Land);
  }

  /** A hub with this registry and these connections stands as the machine's
      state says, its clients under these names. */
  ghost predicate Shows(registry: map<Addr, set<Client>>, conns: map<Client, Conn>, name: map<Client, Id>, s: State) {
    && conns.Keys <= name.Keys
    && (forall c, d :: c in name && d in name && name[c] == name[d] ==> c == d)
    && registry.Keys == s.registry.Keys
    && (forall a :: a in registry ==> registry[a] <= conns.Keys && s.registry[a] == set c | c in registry[a] :: name[c])
    && (forall a, c :: a in registry && c in registry[a] ==> c.addr == a)
    && forall c :: c in conns ==>
         && c.addr in registry && c in registry[c.addr]
         && name[c] in s.peers && s.peers[name[c]].addr == c.addr && s.peers[name[c]].conn == conns[c]
  }

  lemma TargetsAreNamed(registry: map<Addr, set<Client>>, conns: map<Client, Conn>, name: map<Client, Id>, s: State,
                        addrs: set<Addr>, c: Client)
    requires Shows(registry, conns, name, s) && c in conns
    ensures name[c] in Targets(s, addrs) <==> c.addr in addrs
  {
    assert name[c] in s.registry[c.addr];
    if name[c] in Targets(s, addrs) {
      var a :| a in addrs && a in s.registry && name[c] in s.registry[a];
      var d :| d in registry[a] && name[d] == name[c];
      assert d in conns;
    }
  }

  lemma OfferedIsShown(registry: map<Addr, set<Client>>, before: map<Client, Conn>, name: map<Client, Id>,
                       s: State, after: State, addrs: set<Addr>, p: Payload)
    requires Shows(registry, before, name, s)
    requires after.registry == s.registry && after.peers.Keys == s.peers.Keys
    requires forall c :: c in before ==>
               after.peers[name[c]] == if c.addr in addrs then s.peers[name[c]].(conn := Offer(s.peers[name[c]].conn, p))
                                       else s.peers[name[c]]
    ensures Shows(registry, Offered(before, addrs, p), name, after)
  {
  }

  /** What Dispatch, DispatchTrash and RouteIndicator promise of the connections
      is what the machine makes of one payload's way, whatever the order. */
  lemma OfferingShown(registry: map<Addr, set<Client>>, before: map<Client, Conn>, name: map<Client, Id>,
                      s: State, addrs: set<Addr>, p: Payload, order: seq<Id>)
    requires Shows(registry, before, name, s) && RegistryValid(s) && s.flight == Landed
    requires Distinct(order) && (set id | id in order) == Targets(s, addrs)
    ensures Shows(registry, Offered(before, addrs, p), name, Run(s, Offering(addrs, p, order)))
  {
    OfferingOffers(s, addrs, p, order);
    forall c | c in before ensures name[c] in Targets(s, addrs) <==> c.addr in addrs {
      TargetsAreNamed(registry, before, name, s, addrs, c);
    }
    OfferedIsShown(registry, before, name, s, Run(s, Offering(addrs, p, order)), addrs, p);
  }
}
