/**
 Storage accounting: what fmsgid has recorded for an address is what the
 address still holds (internal/handlers/trash.go, usageOf and markPurged;
 internal/handlers/messages.go, resolveLocalDelivery; internal/handlers/quota.go).
*/
module Ledger {
  import opened Basics
  import opened Store
  import opened Trash
  import opened Removal
  import opened Operations
  import opened Host
  import opened Structure

  /** What a stored message counts against a while a has not deleted it for good. */
  ghost function Charge(c: Config, db: Db, a: Addr, way: Way, id: MsgId): (n: int)
    requires id in db.msgs
  {
    if OwnPurged(db, a, id) then 0 else Owed(c, db.msgs[id], a, way)
  }

  ghost function Charges(c: Config, db: Db, a: Addr, way: Way): (charges: map<MsgId, int>) {
    map id | id in db.msgs :: Charge(c, db, a, way, id)
  }

  /** The recorded sizes of the stored messages a sent (or of its deliveries of
      stored messages) that it has not deleted for good. */
  ghost function Holding(c: Config, db: Db, a: Addr, way: Way): (n: int) {
    Total(Charges(c, db, a, way))
  }

  // ---- How each kind of change moves what is held ----

  lemma SameCharge(c: Config, db: Db, after: Db, a: Addr, way: Way, id: MsgId)
    requires id in db.msgs && id in after.msgs
    requires after.msgs[id] == db.msgs[id] || after.msgs[id] == db.msgs[id].(pid := None)
    requires OwnPurged(after, a, id) <==> OwnPurged(db, a, id)
    ensures Charge(c, after, a, way, id) == Charge(c, db, a, way, id)
  {
  }

  lemma ChargesPut(c: Config, db: Db, id: MsgId, m: Message, a: Addr, way: Way)
    ensures Charges(c, Put(db, id, m), a, way)
            == Charges(c, db, a, way)[id := Charge(c, Put(db, id, m), a, way, id)]
  {
    var after := Put(db, id, m);
    forall x | x in db.msgs && x != id ensures Charge(c, after, a, way, x) == Charge(c, db, a, way, x) {
      SameCharge(c, db, after, a, way, x);
    }
  }

  lemma PutMoves(c: Config, db: Db, id: MsgId, m: Message, a: Addr, way: Way)
    ensures Holding(c, Put(db, id, m), a, way)
            == Holding(c, db, a, way) + Charge(c, Put(db, id, m), a, way, id)
               - (if id in db.msgs then Charge(c, db, a, way, id) else 0)
  {
    ChargesPut(c, db, id, m, a, way);
    TotalPut(Charges(c, db, a, way), id, Charge(c, Put(db, id, m), a, way, id));
  }

  lemma ChargesDrop(c: Config, db: Db, gone: set<MsgId>, a: Addr, way: Way)
    ensures Charges(c, Drop(db, gone), a, way) == Charges(c, db, a, way) - gone
  {
    var after := Drop(db, gone);
    forall x | x in after.msgs ensures Charge(c, after, a, way, x) == Charge(c, db, a, way, x) {
      SameCharge(c, db, after, a, way, x);
    }
  }

  /** Removing what counts for a nowhere moves nothing. */
  lemma DropMoves(c: Config, db: Db, gone: set<MsgId>, a: Addr, way: Way)
    requires forall id :: id in gone && id in db.msgs ==> Charge(c, db, a, way, id) == 0
    ensures Holding(c, Drop(db, gone), a, way) == Holding(c, db, a, way)
  {
    ChargesDrop(c, db, gone, a, way);
    TotalPartition(Charges(c, db, a, way), gone);
    TotalZero(Only(Charges(c, db, a, way), gone));
  }

  /** Trash writes that make or unmake no purge of a's move nothing. */
  lemma TrashMoves(c: Config, db: Db, after: Db, a: Addr, way: Way)
    requires after.msgs == db.msgs && forall id :: OwnPurged(after, a, id) <==> OwnPurged(db, a, id)
    ensures Holding(c, after, a, way) == Holding(c, db, a, way)
  {
    forall x | x in db.msgs ensures Charge(c, after, a, way, x) == Charge(c, db, a, way, x) {
      SameCharge(c, db, after, a, way, x);
    }
    assert Charges(c, after, a, way) == Charges(c, db, a, way);
  }

  lemma ChargesMark(c: Config, db: Db, a: Addr, ids: set<MsgId>, top: Option<MsgId>, now: Time, way: Way)
    ensures var after := MarkPurged(db, a, ids, top, now);
            var newly := NewlyPurged(db, a, ids);
            && Charges(c, after, a, way) - newly == Charges(c, db, a, way) - newly
            && forall id :: id in newly && id in db.msgs ==> Charge(c, after, a, way, id) == 0
  {
    var after := MarkPurged(db, a, ids, top, now);
    var newly := NewlyPurged(db, a, ids);
    forall x | x in db.msgs && x !in newly ensures Charge(c, after, a, way, x) == Charge(c, db, a, way, x) {
      SameCharge(c, db, after, a, way, x);
    }
  }

  lemma ReleasedIs(c: Config, db: Db, a: Addr, ids: set<MsgId>, way: Way)
    ensures Released(c, db, a, ids, way) == Total(Only(Charges(c, db, a, way), NewlyPurged(db, a, ids)))
  {
    assert Only(Charges(c, db, a, way), NewlyPurged(db, a, ids)) == GivenUp(c, db, a, ids, way);
  }

  /** Marking messages purged takes exactly what is released off what is held. */
  lemma MarkMoves(c: Config, db: Db, a: Addr, ids: set<MsgId>, top: Option<MsgId>, now: Time, way: Way)
    ensures Holding(c, MarkPurged(db, a, ids, top, now), a, way) == Holding(c, db, a, way) - Released(c, db, a, ids, way)
  {
    var after := MarkPurged(db, a, ids, top, now);
    var newly := NewlyPurged(db, a, ids);
    ChargesMark(c, db, a, ids, top, now, way);
    ReleasedIs(c, db, a, ids, way);
    TotalPartition(Charges(c, db, a, way), newly);
    TotalPartition(Charges(c, after, a, way), newly);
    TotalZero(Only(Charges(c, after, a, way), newly));
  }

  // ---- Each step ----

  /** What nobody here holds counts for no local address. */
  lemma UnheldCountsNothing(c: Config, db: Db, id: MsgId, now: Time, a: Addr, way: Way)
    requires Unheld(c, db, id, now) && Local(c, a)
    ensures Charge(c, db, a, way, id) == 0
  {
    assert a in Holders(db.msgs[id]) ==> OwnPurged(db, a, id);
  }

  /** A purge takes off the caller's holdings what it releases, and nothing off
      anyone else's: what it removes from the host counts for no local address. */
  lemma PurgeMoves(c: Config, db: Db, caller: Addr, id: MsgId, thread: bool, now: Time, a: Addr, way: Way)
    requires Purge(c, db, caller, id, thread, now).Done? && Local(c, a)
    ensures Holding(c, Purge(c, db, caller, id, thread, now).db, a, way)
            == Holding(c, db, a, way)
               - if a == caller then Released(c, db, caller, Subtree(db, caller, id), way) else 0
  {
    var ids := Subtree(db, caller, id);
    var marked := AfterMark(db, caller, id, thread, now);
    var gone := Removable(c, marked, ids, now);
    forall x | x in gone ensures Charge(c, marked, a, way, x) == 0 {
      UnheldCountsNothing(c, marked, x, now, a, way);
    }
    DropMoves(c, marked, gone, a, way);
    if a == caller {
      MarkMoves(c, db, a, ids, if thread then Some(id) else None, now, way);
    } else {
      TrashMoves(c, db, marked, a, way);
    }
  }

  lemma DraftCountsNothing(c: Config, db: Db, id: MsgId, a: Addr, way: Way)
    requires id in db.msgs && db.msgs[id].sent.None? && DraftPlain(db.msgs[id])
    ensures Charge(c, db, a, way, id) == 0
  {
  }

  /** Adding or editing a draft moves nothing. */
  lemma DraftPutMoves(c: Config, db: Db, id: MsgId, m: Message, a: Addr, way: Way)
    requires DraftsPlain(db) && m.sent.None? && DraftPlain(m)
    requires id in db.msgs ==> db.msgs[id].sent.None?
    ensures Holding(c, Put(db, id, m), a, way) == Holding(c, db, a, way)
  {
    PutMoves(c, db, id, m, a, way);
    DraftCountsNothing(c, Put(db, id, m), id, a, way);
    if id in db.msgs {
      DraftCountsNothing(c, db, id, a, way);
    }
  }

  /** A change to rows a has no part in, or to no delivery, moves nothing of a's. */
  lemma SameOwedMoves(c: Config, db: Db, id: MsgId, m: Message, a: Addr, way: Way)
    requires id in db.msgs && Owed(c, m, a, way) == Owed(c, db.msgs[id], a, way)
    ensures Holding(c, Put(db, id, m), a, way) == Holding(c, db, a, way)
  {
    PutMoves(c, db, id, m, a, way);
  }

  lemma DeliveryOwes(c: Config, m: Message, d: After, a: Addr)
    requires d.Deliver?
    ensures Owed(c, DeliverTo(c, m, d), a, Sent) == Owed(c, m, a, Sent)
    ensures Owed(c, DeliverTo(c, m, d), a, Received)
            == Owed(c, m, a, Received) + Gained(m, DeliverTo(c, m, d), a, RecordedSize(c, m))
  {
    assert RecordedSize(c, DeliverTo(c, m, d)) == RecordedSize(c, m);
  }

  /** Local delivery adds to what a holds the recorded size of each delivery,
      unless a had already deleted the message for good. */
  lemma DeliveryMoves(c: Config, db: Db, d: After, a: Addr)
    requires d.Deliver? && d.id in db.msgs
    ensures var m := db.msgs[d.id];
            var m' := DeliverTo(c, m, d);
            && Holding(c, Put(db, d.id, m'), a, Sent) == Holding(c, db, a, Sent)
            && Holding(c, Put(db, d.id, m'), a, Received)
               == Holding(c, db, a, Received)
                  + if OwnPurged(db, a, d.id) then 0 else Gained(m, m', a, RecordedSize(c, m))
  {
    var m := db.msgs[d.id];
    var m' := DeliverTo(c, m, d);
    DeliveryOwes(c, m, d, a);
    PutMoves(c, db, d.id, m', a, Sent);
    PutMoves(c, db, d.id, m', a, Received);
  }
}
