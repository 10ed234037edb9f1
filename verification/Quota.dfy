/**
 Quotas (internal/handlers/quota.go) and the local delivery loop that applies
 them (internal/handlers/messages.go, resolveLocalDelivery), against fmsgid's
 limits and usage. Addresses in one quota pool share its limits and usage.
*/
module Quota {
  import opened Basics
  import opened Store
  import opened Operations

  type Pool = nat

  const OK := 200
  const NOT_FOUND := 404
  const USER_UNKNOWN := 100
  const USER_FULL := 101
  const USER_NOT_ACCEPTING := 102

  /** A limit below zero is unlimited. */
  datatype Limits = Limits(
    recvCountPer1d: int, recvSizePer1d: int, recvSizeTotal: int,
    sendSizePerMsg: int, sendCountPer1d: int, sendSizePer1d: int, sendSizeTotal: int)

  datatype Usage = Usage(
    recvCountPer1d: int, recvSizePer1d: int, recvSizeTotal: int,
    sendCountPer1d: int, sendSizePer1d: int, sendSizeTotal: int)

  datatype Detail = Detail(acceptingNew: bool, limits: Limits, usage: Usage)

  // ---- quota.go ----

  predicate RecvLimitExceeded(d: Detail, size: int) {
    || (d.limits.recvCountPer1d > -1 && d.usage.recvCountPer1d + 1 > d.limits.recvCountPer1d)
    || (d.limits.recvSizePer1d > -1 && d.usage.recvSizePer1d + size > d.limits.recvSizePer1d)
    || (d.limits.recvSizeTotal > -1 && d.usage.recvSizeTotal + size > d.limits.recvSizeTotal)
  }

  /** The response code local delivery records; None leaves the row pending. */
  function LocalDeliveryCode(status: int, d: Option<Detail>, size: int): (code: Option<int>) {
    if status == NOT_FOUND then Some(USER_UNKNOWN)
    else if status != OK || d.None? then None
    else if !d.value.acceptingNew then Some(USER_NOT_ACCEPTING)
    else if RecvLimitExceeded(d.value, size) then Some(USER_FULL)
    else Some(ACCEPTED)
  }

  datatype SendRefusal = SizePerMsg | CountPer1d | SizePer1d | SizeTotal

  /** The first send limit one more message would exceed. */
  function CheckSendLimits(d: Detail, size: int): (r: Option<SendRefusal>) {
    if d.limits.sendSizePerMsg > -1 && size > d.limits.sendSizePerMsg then Some(SizePerMsg)
    else if d.limits.sendCountPer1d > -1 && d.usage.sendCountPer1d + 1 > d.limits.sendCountPer1d then Some(CountPer1d)
    else if d.limits.sendSizePer1d > -1 && d.usage.sendSizePer1d + size > d.limits.sendSizePer1d then Some(SizePer1d)
    else if d.limits.sendSizeTotal > -1 && d.usage.sendSizeTotal + size > d.limits.sendSizeTotal then Some(SizeTotal)
    else None
  }

  // ---- fmsgid ----

  datatype Book = Book(poolOf: map<Addr, Pool>, accepting: set<Addr>, limits: map<Pool, Limits>, usage: map<Pool, Usage>)

  predicate BookValid(b: Book) {
    forall a :: a in b.poolOf ==> b.poolOf[a] in b.limits && b.poolOf[a] in b.usage
  }

  function DetailOf(b: Book, a: Addr): (r: Option<Detail>)
    requires BookValid(b)
  {
    if a in b.poolOf then Some(Detail(a in b.accepting, b.limits[b.poolOf[a]], b.usage[b.poolOf[a]])) else None
  }

  function AddReceived(u: Usage, size: int): (after: Usage) {
    u.(recvCountPer1d := u.recvCountPer1d + 1, recvSizePer1d := u.recvSizePer1d + size, recvSizeTotal := u.recvSizeTotal + size)
  }

  function AddSent(u: Usage, size: int): (after: Usage) {
    u.(sendCountPer1d := u.sendCountPer1d + 1, sendSizePer1d := u.sendSizePer1d + size, sendSizeTotal := u.sendSizeTotal + size)
  }

  predicate Below(limit: int, used: int) {
    limit > -1 ==> used <= limit
  }

  predicate Within(l: Limits, u: Usage) {
    && Below(l.recvCountPer1d, u.recvCountPer1d) && Below(l.recvSizePer1d, u.recvSizePer1d)
    && Below(l.recvSizeTotal, u.recvSizeTotal) && Below(l.sendCountPer1d, u.sendCountPer1d)
    && Below(l.sendSizePer1d, u.sendSizePer1d) && Below(l.sendSizeTotal, u.sendSizeTotal)
  }

  /** The pool is within its limits. */
  predicate PoolSafe(b: Book, p: Pool) {
    p in b.limits && p in b.usage ==> Within(b.limits[p], b.usage[p])
  }

  class Fmsgid {
    var book: Book

    constructor (book: Book)
      requires BookValid(book)
      ensures this.book == book
    {
      this.book := book;
    }

    method Fetch(a: Addr) returns (status: int, d: Option<Detail>)
      requires BookValid(book)
      ensures d == DetailOf(book, a) && status == if d.Some? then OK else NOT_FOUND
    {
      if a in book.poolOf {
        var p := book.poolOf[a];
        status, d := OK, Some(Detail(a in book.accepting, book.limits[p], book.usage[p]));
      } else {
        status, d := NOT_FOUND, None;
      }
    }

    method RecordRecv(a: Addr, size: int)
      requires BookValid(book) && a in book.poolOf
      modifies this
      ensures book == RecordedRecv(old(book), a, size)
    {
      var p := book.poolOf[a];
      book := book.(usage := book.usage[p := AddReceived(book.usage[p], size)]);
    }
  }

  function RecordedRecv(b: Book, a: Addr, size: int): (after: Book)
    requires BookValid(b) && a in b.poolOf
  {
    b.(usage := b.usage[b.poolOf[a] := AddReceived(b.usage[b.poolOf[a]], size)])
  }

  // ---- The local delivery loop ----

  datatype Desk = Desk(book: Book, rows: map<Addr, Delivery>)

  /** One recipient. unreachable: the call to fmsgid fails, so the row stays pending. */
  function ResolveOne(c: Config, k: Desk, a: Addr, size: int, now: Time, unreachable: set<Addr>): (after: Desk)
    requires BookValid(k.book)
  {
    if !Local(c, a) || a in unreachable then k
    else
      var d := DetailOf(k.book, a);
      var code := LocalDeliveryCode(if d.Some? then OK else NOT_FOUND, d, size).value;
      if a !in k.rows || k.rows[a] != PENDING then k
      else if code == ACCEPTED
      then Desk(RecordedRecv(k.book, a, size), k.rows[a := Delivery(Some(now), Some(code))])
      else k.(rows := k.rows[a := Delivery(None, Some(code))])
  }

  function ResolveAll(c: Config, k: Desk, addrs: seq<Addr>, size: int, now: Time, unreachable: set<Addr>): (r: Desk)
    requires BookValid(k.book)
    ensures BookValid(r.book) && r.rows.Keys == k.rows.Keys
    ensures r.book == k.book.(usage := r.book.usage) && r.book.usage.Keys == k.book.usage.Keys
    decreases |addrs|
  {
    if addrs == [] then k
    else ResolveAll(c, ResolveOne(c, k, addrs[0], size, now, unreachable), addrs[1..], size, now, unreachable)
  }

  method ResolveLocalDelivery(c: Config, f: Fmsgid, rows: map<Addr, Delivery>, addrs: seq<Addr>, size: int, now: Time,
                              unreachable: set<Addr>) returns (after: map<Addr, Delivery>)
    requires BookValid(f.book)
    modifies f
    ensures Desk(f.book, after) == ResolveAll(c, Desk(old(f.book), rows), addrs, size, now, unreachable)
  {
    after := rows;
    assert addrs[0..] == addrs;
    for i := 0 to |addrs|
      invariant BookValid(f.book)
      invariant ResolveAll(c, Desk(f.book, after), addrs[i..], size, now, unreachable)
                == ResolveAll(c, Desk(old(f.book), rows), addrs, size, now, unreachable)
    {
      assert addrs[i..][1..] == addrs[i + 1..];
      var a := addrs[i];
      if !Local(c, a) || a in unreachable {
        continue;
      }
      var status, d := f.Fetch(a);
      var code := LocalDeliveryCode(status, d, size);
      if code.None? {
        continue;
      }
      var delivered := if code.value == ACCEPTED then Some(now) else None;
      var affected := a in after && after[a] == PENDING;
      if affected {
        after := after[a := Delivery(delivered, code)];
      }
      if delivered.Some? && affected {
        f.RecordRecv(a, size);
      }
    }
  }

  /** A delivery is made only when it fits the limits of the recipient's pool
      as they stand then, so it leaves every pool that was within them so. */
  lemma ResolveOneIsSafe(c: Config, k: Desk, a: Addr, size: int, now: Time, unreachable: set<Addr>, p: Pool)
    requires BookValid(k.book) && PoolSafe(k.book, p)
    ensures PoolSafe(ResolveOne(c, k, a, size, now, unreachable).book, p)
  {
  }

  /** However many recipients of one message share the pool. */
  lemma {:induction false} ResolveAllIsSafe(c: Config, k: Desk, addrs: seq<Addr>, size: int, now: Time,
                                            unreachable: set<Addr>, p: Pool)
    requires BookValid(k.book) && PoolSafe(k.book, p)
    ensures PoolSafe(ResolveAll(c, k, addrs, size, now, unreachable).book, p)
    decreases |addrs|
  {
    if addrs != [] {
      ResolveOneIsSafe(c, k, addrs[0], size, now, unreachable, p);
      ResolveAllIsSafe(c, ResolveOne(c, k, addrs[0], size, now, unreachable), addrs[1..], size, now, unreachable, p);
    }
  }

  // ---- What a turn decides ----

  /** One of the pool's receive limits would be passed by one more message of
      this size; a limit below zero is none. */
  predicate WouldPass(l: Limits, u: Usage, size: int) {
    || (l.recvCountPer1d >= 0 && u.recvCountPer1d >= l.recvCountPer1d)
    || (l.recvSizePer1d >= 0 && u.recvSizePer1d + size > l.recvSizePer1d)
    || (l.recvSizeTotal >= 0 && u.recvSizeTotal + size > l.recvSizeTotal)
  }

  lemma {:induction false} ResolveAllPlus(c: Config, k: Desk, addrs: seq<Addr>, more: seq<Addr>, size: int, now: Time,
                                          unreachable: set<Addr>)
    requires BookValid(k.book)
    ensures ResolveAll(c, k, addrs + more, size, now, unreachable)
            == ResolveAll(c, ResolveAll(c, k, addrs, size, now, unreachable), more, size, now, unreachable)
    decreases |addrs|
  {
    if addrs == [] {
      assert addrs + more == more;
    } else {
      assert (addrs + more)[1..] == addrs[1..] + more;
      ResolveAllPlus(c, ResolveOne(c, k, addrs[0], size, now, unreachable), addrs[1..], more, size, now, unreachable);
    }
  }

  lemma {:induction false} OutcomesStay(c: Config, k: Desk, addrs: seq<Addr>, size: int, now: Time,
                                        unreachable: set<Addr>, a: Addr)
    requires BookValid(k.book) && a in k.rows
    requires k.rows[a] != Delivery(None, None) || a !in addrs
    ensures ResolveAll(c, k, addrs, size, now, unreachable).rows[a] == k.rows[a]
    decreases |addrs|
  {
    if addrs != [] {
      OutcomesStay(c, ResolveOne(c, k, addrs[0], size, now, unreachable), addrs[1..], size, now, unreachable, a);
    }
  }

  /** The state before the i-th address's turn. */
  function BeforeTurn(c: Config, k: Desk, addrs: seq<Addr>, i: nat, size: int, now: Time, unreachable: set<Addr>): (r: Desk)
    requires BookValid(k.book) && i <= |addrs|
    ensures BookValid(r.book) && r.rows.Keys == k.rows.Keys
    ensures r.book == k.book.(usage := r.book.usage) && r.book.usage.Keys == k.book.usage.Keys
  {
    ResolveAll(c, k, addrs[..i], size, now, unreachable)
  }

  lemma TurnIs(c: Config, k: Desk, addrs: seq<Addr>, i: nat, size: int, now: Time, unreachable: set<Addr>)
    requires BookValid(k.book) && i < |addrs|
    ensures BeforeTurn(c, k, addrs, i + 1, size, now, unreachable)
            == ResolveOne(c, BeforeTurn(c, k, addrs, i, size, now, unreachable), addrs[i], size, now, unreachable)
    ensures ResolveAll(c, k, addrs, size, now, unreachable)
            == ResolveAll(c, BeforeTurn(c, k, addrs, i + 1, size, now, unreachable), addrs[i + 1..], size, now, unreachable)
  {
    assert addrs[..i + 1] == addrs[..i] + [addrs[i]];
    assert addrs == addrs[..i + 1] + addrs[i + 1..];
    ResolveAllPlus(c, k, addrs[..i], [addrs[i]], size, now, unreachable);
    ResolveAllPlus(c, k, addrs[..i + 1], addrs[i + 1..], size, now, unreachable);
  }

  /** The same of one turn on its own. */
  lemma OneDecidesRow(c: Config, k: Desk, a: Addr, size: int, now: Time, unreachable: set<Addr>)
    requires BookValid(k.book) && a in k.rows && k.rows[a] == Delivery(None, None) && a !in unreachable
    requires c.local != "" && a.domain == c.local
    ensures var b, row := k.book, ResolveOne(c, k, a, size, now, unreachable).rows[a];
            var known := a in b.poolOf;
            var full := known && WouldPass(b.limits[b.poolOf[a]], b.usage[b.poolOf[a]], size);
            && (row.code == Some(100) <==> !known)
            && (row.code == Some(102) <==> known && a !in b.accepting)
            && (row.code == Some(101) <==> known && a in b.accepting && full)
            && (row.code == Some(200) <==> known && a in b.accepting && !full)
            && row.code.Some? && row.delivered == if row.code == Some(200) then Some(now) else None
  {
  }

  /** A local row still without an outcome when its address's turn comes, and
      fmsgid answers, ends with 100 exactly when the address has no pool, with
      102 exactly when it has one and is not accepting, with 101 exactly when it
      is accepting and a limit of the pool would be passed then; and otherwise,
      and only then, with 200 and delivered. */
  lemma TurnDecidesRow(c: Config, k: Desk, addrs: seq<Addr>, i: nat, size: int, now: Time, unreachable: set<Addr>)
    requires BookValid(k.book) && i < |addrs| && addrs[i] in k.rows && addrs[i] !in unreachable
    requires c.local != "" && addrs[i].domain == c.local
    requires BeforeTurn(c, k, addrs, i, size, now, unreachable).rows[addrs[i]] == Delivery(None, None)
    ensures var a, b := addrs[i], k.book;
            var usage := BeforeTurn(c, k, addrs, i, size, now, unreachable).book.usage;
            var row := ResolveAll(c, k, addrs, size, now, unreachable).rows[a];
            var known := a in b.poolOf;
            var full := known && WouldPass(b.limits[b.poolOf[a]], usage[b.poolOf[a]], size);
            && (row.code == Some(100) <==> !known)
            && (row.code == Some(102) <==> known && a !in b.accepting)
            && (row.code == Some(101) <==> known && a in b.accepting && full)
            && (row.code == Some(200) <==> known && a in b.accepting && !full)
            && row.code.Some? && row.delivered == if row.code == Some(200) then Some(now) else None
  {
    TurnIs(c, k, addrs, i, size, now, unreachable);
    var after := BeforeTurn(c, k, addrs, i + 1, size, now, unreachable);
    OneDecidesRow(c, BeforeTurn(c, k, addrs, i, size, now, unreachable), addrs[i], size, now, unreachable);
    OutcomesStay(c, after, addrs[i + 1..], size, now, unreachable, addrs[i]);
  }

  /** A turn charges a pool one message of this size exactly when it is the
      recipient's and the turn delivers; a row that is not local, not answered
      for or already has its outcome is passed over. */
  lemma TurnCharges(c: Config, k: Desk, addrs: seq<Addr>, i: nat, size: int, now: Time, unreachable: set<Addr>, p: Pool)
    requires BookValid(k.book) && i < |addrs| && p in k.book.usage
    ensures var before := BeforeTurn(c, k, addrs, i, size, now, unreachable);
            var after := BeforeTurn(c, k, addrs, i + 1, size, now, unreachable);
            var a, u, v := addrs[i], before.book.usage[p], after.book.usage[p];
            var delivers := a in k.rows && before.rows[a] == Delivery(None, None) && after.rows[a].delivered.Some?;
            && v == (if delivers && a in k.book.poolOf && k.book.poolOf[a] == p
                     then u.(recvCountPer1d := u.recvCountPer1d + 1, recvSizePer1d := u.recvSizePer1d + size,
                             recvSizeTotal := u.recvSizeTotal + size)
                     else u)
            && (c.local == "" || a.domain != c.local || a in unreachable
                || (a in k.rows && before.rows[a] != Delivery(None, None))
                ==> after == before)
  {
    TurnIs(c, k, addrs, i, size, now, unreachable);
  }

  /** The rows of addresses the loop is not given stay as they are. */
  lemma OthersRowsStay(c: Config, k: Desk, addrs: seq<Addr>, size: int, now: Time, unreachable: set<Addr>, a: Addr)
    requires BookValid(k.book) && a in k.rows && a !in addrs
    ensures ResolveAll(c, k, addrs, size, now, unreachable).rows[a] == k.rows[a]
  {
    OutcomesStay(c, k, addrs, size, now, unreachable, a);
  }

  // ---- What is recorded is what is delivered ----

  /** The addresses of pool p delivered between before and after. */
  function NewlyDelivered(b: Book, before: map<Addr, Delivery>, after: map<Addr, Delivery>,
                          p: Pool): (addrs: set<Addr>) {
    set a | a in after && a in before && a in b.poolOf && b.poolOf[a] == p
            && before[a].delivered.None? && after[a].delivered.Some?
  }

  /** Whether one turn delivers to a, in pool p. */
  predicate Delivers(c: Config, k: Desk, a: Addr, size: int, now: Time, unreachable: set<Addr>, p: Pool)
    requires BookValid(k.book)
  {
    a in k.book.poolOf && k.book.poolOf[a] == p && a in k.rows && k.rows[a].delivered.None?
    && ResolveOne(c, k, a, size, now, unreachable).rows[a].delivered.Some?
  }

  /** What one turn charges a pool and does to the rows. */
  lemma OneTurn(c: Config, k: Desk, a: Addr, size: int, now: Time, unreachable: set<Addr>, p: Pool)
    requires BookValid(k.book) && p in k.book.usage
    ensures var next := ResolveOne(c, k, a, size, now, unreachable);
            && next.book.poolOf == k.book.poolOf && next.rows.Keys == k.rows.Keys
            && next.book.usage[p]
               == (if Delivers(c, k, a, size, now, unreachable, p)
                   then AddReceived(k.book.usage[p], size) else k.book.usage[p])
            && forall b :: b in k.rows && (b != a || k.rows[b] != PENDING) ==> next.rows[b] == k.rows[b]
  {
  }

  lemma OneMoreDelivered(c: Config, k: Desk, a: Addr, size: int, now: Time, unreachable: set<Addr>, p: Pool,
                         last: map<Addr, Delivery>)
    requires BookValid(k.book) && p in k.book.usage && last.Keys == k.rows.Keys
    requires var next := ResolveOne(c, k, a, size, now, unreachable);
             forall b :: b in next.rows && next.rows[b] != PENDING ==> last[b] == next.rows[b]
    ensures var next := ResolveOne(c, k, a, size, now, unreachable);
            |NewlyDelivered(k.book, k.rows, last, p)|
            == |NewlyDelivered(next.book, next.rows, last, p)| + if Delivers(c, k, a, size, now, unreachable, p) then 1 else 0
  {
    var next := ResolveOne(c, k, a, size, now, unreachable);
    OneTurn(c, k, a, size, now, unreachable, p);
    var all, rest := NewlyDelivered(k.book, k.rows, last, p), NewlyDelivered(next.book, next.rows, last, p);
    assert forall b :: b != a ==> (b in all <==> b in rest);
    if Delivers(c, k, a, size, now, unreachable, p) {
      assert all == rest + {a};
    } else {
      assert all == rest;
    }
  }

  predicate ChargedFor(before: Usage, after: Usage, n: nat, size: int) {
    && after.recvCountPer1d == before.recvCountPer1d + n
    && after.recvSizeTotal == before.recvSizeTotal + n * size
    && after.recvSizePer1d == before.recvSizePer1d + n * size
  }

  lemma ChargedOneMore(before: Usage, mid: Usage, after: Usage, n: nat, size: int)
    requires mid == AddReceived(before, size) && ChargedFor(mid, after, n, size)
    ensures ChargedFor(before, after, n + 1, size)
  {
    assert (n + 1) * size == n * size + size;
  }

  /** Each row with an outcome keeps it, however often its address is listed;
      each pool is charged once for each of its addresses delivered. */
  lemma {:induction false} RecordedIsDelivered(c: Config, k: Desk, addrs: seq<Addr>, size: int, now: Time,
                                               unreachable: set<Addr>, p: Pool)
    requires BookValid(k.book) && p in k.book.usage
    ensures var r := ResolveAll(c, k, addrs, size, now, unreachable);
            && (forall a :: a in k.rows && k.rows[a] != PENDING ==> r.rows[a] == k.rows[a])
            && ChargedFor(k.book.usage[p], r.book.usage[p], |NewlyDelivered(k.book, k.rows, r.rows, p)|, size)
    decreases |addrs|
  {
    if addrs == [] {
      assert NewlyDelivered(k.book, k.rows, k.rows, p) == {};
    } else {
      var a := addrs[0];
      var next := ResolveOne(c, k, a, size, now, unreachable);
      var r := ResolveAll(c, k, addrs, size, now, unreachable);
      RecordedIsDelivered(c, next, addrs[1..], size, now, unreachable, p);
      OneTurn(c, k, a, size, now, unreachable, p);
      OneMoreDelivered(c, k, a, size, now, unreachable, p, r.rows);
      if Delivers(c, k, a, size, now, unreachable, p) {
        ChargedOneMore(k.book.usage[p], next.book.usage[p], r.book.usage[p],
                       |NewlyDelivered(next.book, next.rows, r.rows, p)|, size);
      }
    }
  }

  /** The answers the loop acted on make its rows those of one local delivery. */
  lemma {:induction false} ResolveAllDelivers(c: Config, k: Desk, addrs: seq<Addr>, size: int, now: Time,
                                              unreachable: set<Addr>)
    returns (codes: map<Addr, int>)
    requires BookValid(k.book)
    ensures var r := ResolveAll(c, k, addrs, size, now, unreachable);
            r.rows == ToRows(c, k.rows, codes.Keys, codes, now)
    ensures codes.Keys <= set i | 0 <= i < |addrs| :: addrs[i]
    decreases |addrs|
  {
    if addrs == [] {
      codes := map[];
    } else {
      var a := addrs[0];
      var next := ResolveOne(c, k, a, size, now, unreachable);
      codes := ResolveAllDelivers(c, next, addrs[1..], size, now, unreachable);
      if a in k.rows && next.rows[a] != k.rows[a] {
        codes := codes[a := next.rows[a].code.value];
      }
    }
  }

  // ---- Runs ----

  /** A message of size bytes sent by sender, whose draft has rows of recipients
      and of recipients added to it; recipients added to a message already sent,
      with the rows it has by then; and usage that lapses as days pass or is
      released. */
  datatype Act =
    | SendMessage(sender: Addr, size: nat, to: map<Addr, Delivery>, addTo: map<Addr, Delivery>,
                  toAddrs: seq<Addr>, addToAddrs: seq<Addr>, unreachable: set<Addr>, now: Time)
    | DeliverAdded(size: nat, rows: map<Addr, Delivery>, addrs: seq<Addr>, unreachable: set<Addr>, now: Time)
    | Lapse(pool: Pool, less: Usage)

  predicate NotNegative(u: Usage) {
    && u.recvCountPer1d >= 0 && u.recvSizePer1d >= 0 && u.recvSizeTotal >= 0
    && u.sendCountPer1d >= 0 && u.sendSizePer1d >= 0 && u.sendSizeTotal >= 0
  }

  function Minus(u: Usage, v: Usage): (after: Usage) {
    Usage(u.recvCountPer1d - v.recvCountPer1d, u.recvSizePer1d - v.recvSizePer1d, u.recvSizeTotal - v.recvSizeTotal,
          u.sendCountPer1d - v.sendCountPer1d, u.sendSizePer1d - v.sendSizePer1d, u.sendSizeTotal - v.sendSizeTotal)
  }

  predicate MaySend(b: Book, sender: Addr, size: int)
    requires BookValid(b)
  {
    var d := DetailOf(b, sender);
    d.Some? && d.value.acceptingNew && CheckSendLimits(d.value, size).None?
  }

  /** recordSend */
  function RecordedSend(b: Book, sender: Addr, size: int): (r: Book)
    requires BookValid(b) && sender in b.poolOf
    ensures BookValid(r) && r == b.(usage := r.usage) && r.usage.Keys == b.usage.Keys
  {
    b.(usage := b.usage[b.poolOf[sender] := AddSent(b.usage[b.poolOf[sender]], size)])
  }

  function Perform(c: Config, b: Book, act: Act): (r: Book)
    requires BookValid(b)
    ensures BookValid(r) && r == b.(usage := r.usage) && r.usage.Keys == b.usage.Keys
  {
    match act
    case SendMessage(sender, size, to, addTo, toAddrs, addToAddrs, unreachable, now) =>
      if !MaySend(b, sender, size) then b
      else
        var first := ResolveAll(c, Desk(RecordedSend(b, sender, size), to), toAddrs, size, now, unreachable).book;
        ResolveAll(c, Desk(first, addTo), addToAddrs, size, now, unreachable).book
    case DeliverAdded(size, rows, addrs, unreachable, now) =>
      ResolveAll(c, Desk(b, rows), addrs, size, now, unreachable).book
    case Lapse(p, less) =>
      if p !in b.usage || !NotNegative(less) then b else b.(usage := b.usage[p := Minus(b.usage[p], less)])
  }

  function PerformAll(c: Config, b: Book, acts: seq<Act>): (r: Book)
    requires BookValid(b)
    decreases |acts|
  {
    if acts == [] then b else PerformAll(c, Perform(c, b, acts[0]), acts[1..])
  }

  lemma SendIsSafe(b: Book, sender: Addr, size: nat, p: Pool)
    requires BookValid(b) && PoolSafe(b, p) && MaySend(b, sender, size)
    ensures PoolSafe(RecordedSend(b, sender, size), p)
  {
  }

  lemma PerformIsSafe(c: Config, b: Book, act: Act, p: Pool)
    requires BookValid(b) && PoolSafe(b, p)
    ensures PoolSafe(Perform(c, b, act), p)
  {
    match act
    case SendMessage(sender, size, to, addTo, toAddrs, addToAddrs, unreachable, now) =>
      if MaySend(b, sender, size) {
        var sent := RecordedSend(b, sender, size);
        SendIsSafe(b, sender, size, p);
        ResolveAllIsSafe(c, Desk(sent, to), toAddrs, size, now, unreachable, p);
        var first := ResolveAll(c, Desk(sent, to), toAddrs, size, now, unreachable).book;
        ResolveAllIsSafe(c, Desk(first, addTo), addToAddrs, size, now, unreachable, p);
      }
    case DeliverAdded(size, rows, addrs, unreachable, now) =>
      ResolveAllIsSafe(c, Desk(b, rows), addrs, size, now, unreachable, p);
    case Lapse(_, _) =>
  }

  /** A sender may send exactly when fmsgid knows it, it may send at all, the
      message is within what one message may be, and counting it passes none of
      its send limits; and what it sends is counted once against its pool. */
  lemma SendDecides(b: Book, sender: Addr, size: nat)
    requires BookValid(b)
    ensures MaySend(b, sender, size)
            <==> && sender in b.poolOf && sender in b.accepting
                 && var l, u := b.limits[b.poolOf[sender]], b.usage[b.poolOf[sender]];
                    && (l.sendSizePerMsg >= 0 ==> size <= l.sendSizePerMsg)
                    && (l.sendCountPer1d >= 0 ==> u.sendCountPer1d < l.sendCountPer1d)
                    && (l.sendSizePer1d >= 0 ==> u.sendSizePer1d + size <= l.sendSizePer1d)
                    && (l.sendSizeTotal >= 0 ==> u.sendSizeTotal + size <= l.sendSizeTotal)
    ensures sender in b.poolOf ==>
              var p := b.poolOf[sender];
              var u, v := b.usage[p], RecordedSend(b, sender, size).usage[p];
              v == u.(sendCountPer1d := u.sendCountPer1d + 1, sendSizePer1d := u.sendSizePer1d + size,
                      sendSizeTotal := u.sendSizeTotal + size)
  {
  }

  /** The refusal is for the first limit in the order of the checks. */
  lemma RefusedForFirst(d: Detail, size: int)
    ensures var l, u := d.limits, d.usage;
            var tooBig := l.sendSizePerMsg >= 0 && size > l.sendSizePerMsg;
            var tooMany := l.sendCountPer1d >= 0 && u.sendCountPer1d >= l.sendCountPer1d;
            var tooMuch := l.sendSizePer1d >= 0 && u.sendSizePer1d + size > l.sendSizePer1d;
            var noSpace := l.sendSizeTotal >= 0 && u.sendSizeTotal + size > l.sendSizeTotal;
            && (CheckSendLimits(d, size) == Some(SizePerMsg) <==> tooBig)
            && (CheckSendLimits(d, size) == Some(CountPer1d) <==> !tooBig && tooMany)
            && (CheckSendLimits(d, size) == Some(SizePer1d) <==> !tooBig && !tooMany && tooMuch)
            && (CheckSendLimits(d, size) == Some(SizeTotal) <==> !tooBig && !tooMany && !tooMuch && noSpace)
  {
  }

  /** A pool within its limits is never taken over them by sends, by adding
      recipients and by the local deliveries either leads to, in any sequence. */
  lemma {:induction false} RunsStayWithinLimits(c: Config, b: Book, acts: seq<Act>, p: Pool)
    requires BookValid(b) && PoolSafe(b, p)
    ensures PoolSafe(PerformAll(c, b, acts), p)
    decreases |acts|
  {
    if acts != [] {
      PerformIsSafe(c, b, acts[0], p);
      RunsStayWithinLimits(c, Perform(c, b, acts[0]), acts[1..], p);
    }
  }
}
