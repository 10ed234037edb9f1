/**
 No row ever names a missing file, however requests and their commits end
 (internal/handlers/transaction.go and the handlers that create and remove files).
*/
module FileSafety {
  import opened Store
  import opened Walks
  import opened Trash
  import opened Removal
  import opened Operations
  import opened Host

  predicate Has(db: Db, id: MsgId, p: Part) {
    id in db.msgs && p in db.msgs[id].parts
  }

  function At(db: Db, id: MsgId, p: Part): (path: Path)
    requires Has(db, id, p)
  {
    db.msgs[id].parts[p].path
  }

  /** Every stored path names a file. */
  ghost predicate NoDangling(db: Db, files: set<Path>) {
    forall id, p :: Has(db, id, p) ==> At(db, id, p) in files
  }

  /** A draft shares its files with nothing: that is what lets Update, Delete
      and DeleteAttachment remove them without looking for other uses. */
  ghost predicate DraftsAlone(db: Db) {
    forall id, p, other, q ::
      (Has(db, id, p) && Has(db, other, q) && db.msgs[id].sent.None? && At(db, id, p) == At(db, other, q))
      ==> id == other && p == q
  }

  ghost predicate FilesSafe(db: Db, files: set<Path>) {
    NoDangling(db, files) && DraftsAlone(db)
  }

  /** m may replace id's row when its parts are the old ones, but for one that
      is in a file nothing had; and a sent message's parts never change. */
  predicate PartsKept(db: Db, id: MsgId, m: Message, files: set<Path>, part: Part) {
    && (forall p :: p in m.parts ==>
          || (Has(db, id, p) && m.parts[p].path == At(db, id, p))
          || (p == part && m.parts[p].path !in files))
    && (id in db.msgs && db.msgs[id].sent.Some? ==> m.sent.Some? && m.parts == db.msgs[id].parts)
  }

  lemma PutKeepsFilesSafe(db: Db, id: MsgId, m: Message, files: set<Path>, part: Part, more: set<Path>)
    requires FilesSafe(db, files) && PartsKept(db, id, m, files, part)
    requires forall p :: p in m.parts ==> m.parts[p].path in files + more
    ensures FilesSafe(Put(db, id, m), files + more)
  {
    var after := Put(db, id, m);
    forall x, p, y, q | Has(after, x, p) && Has(after, y, q) && after.msgs[x].sent.None?
                        && At(after, x, p) == At(after, y, q)
      ensures x == y && p == q
    {
      if x != id {
        assert Has(db, x, p);
      }
      if y != id {
        assert Has(db, y, q);
      }
    }
    forall x, p | Has(after, x, p) ensures At(after, x, p) in files + more {
      if x != id {
        assert Has(db, x, p);
      }
    }
  }

  lemma DropKeepsFilesSafe(db: Db, ids: set<MsgId>, files: set<Path>)
    requires FilesSafe(db, files)
    ensures FilesSafe(Drop(db, ids), files)
  {
    var after := Drop(db, ids);
    assert forall x, p :: Has(after, x, p) ==> Has(db, x, p) && At(after, x, p) == At(db, x, p);
  }

  lemma SamePartsKeepFilesSafe(db: Db, after: Db, files: set<Path>)
    requires FilesSafe(db, files) && after.msgs == db.msgs
    ensures FilesSafe(after, files)
  {
    assert forall x, p :: Has(after, x, p) ==> Has(db, x, p) && At(after, x, p) == At(db, x, p);
  }

  ghost predicate Unused(db: Db, path: Path) {
    forall id, p :: Has(db, id, p) ==> At(db, id, p) != path
  }

  lemma RemovingUnused(db: Db, files: set<Path>, removed: set<Path>)
    requires NoDangling(db, files) && forall path :: path in removed ==> Unused(db, path)
    ensures NoDangling(db, files - removed)
  {
  }

  /** What a handler leaves: safe with its created files, and nothing scheduled
      for removal is still used. */
  ghost predicate OutcomeSafe(o: Outcome, files: set<Path>)
    requires o.Done?
  {
    FilesSafe(o.db, files + o.created) && forall path :: path in o.removed ==> Unused(o.db, path)
  }

  lemma DraftEditIsSafe(c: Config, db: Db, caller: Addr, r: Request, files: set<Path>)
    requires FilesSafe(db, files) && Handle(c, db, caller, r).Done? && Handle(c, db, caller, r).created !! files
    requires r.CreateReq? || r.UpdateReq? || r.UploadReq? || r.DeleteAttachmentReq?
    requires r.CreateReq? ==> db.nextId !in db.msgs
    ensures OutcomeSafe(Handle(c, db, caller, r), files)
  {
    var o := Handle(c, db, caller, r);
    match r
    case CreateReq(d) => PutKeepsFilesSafe(db, db.nextId, NewMessage(caller, d), files, Body, {d.path});
    case UpdateReq(id, d) =>
      PutKeepsFilesSafe(db, id, Updated(db.msgs[id], d), files, Body, {d.path});
      OldPartUnused(db, id, Body, o.db, files);
    case UploadReq(id, name, file) =>
      PutKeepsFilesSafe(db, id, o.db.msgs[id], files, Attachment(name), {file.path});
    case DeleteAttachmentReq(id, name) =>
      PutKeepsFilesSafe(db, id, o.db.msgs[id], files, Body, {});
      assert files + {} == files;
      OldPartUnused(db, id, Attachment(name), o.db, files);
  }

  /** A draft's old file is used by nothing once its part no longer names it. */
  lemma OldPartUnused(db: Db, id: MsgId, part: Part, after: Db, files: set<Path>)
    requires FilesSafe(db, files) && id in db.msgs && db.msgs[id].sent.None?
    requires after.msgs.Keys == db.msgs.Keys
    requires forall x: MsgId, p :: Has(after, x, p) ==>
               || ((x, p) == (id, part) && At(after, x, p) !in files)
               || ((x, p) != (id, part) && Has(db, x, p) && At(after, x, p) == At(db, x, p))
    ensures Has(db, id, part) ==> Unused(after, At(db, id, part))
  {
  }

  lemma OrphansAreUnused(db: Db, gone: set<MsgId>)
    ensures forall path :: path in Orphaned(db, gone) ==> Unused(Drop(db, gone), path)
  {
    var after := Drop(db, gone);
    forall path, id, p | path in Orphaned(db, gone) && Has(after, id, p) ensures At(after, id, p) != path {
      assert !InUse(after, path);
      if At(after, id, p) == path {
        assert Uses(after.msgs[id], path);
      }
    }
  }

  lemma HandleIsSafe(c: Config, db: Db, caller: Addr, r: Request, files: set<Path>)
    requires FilesSafe(db, files) && db.nextId !in db.msgs
    requires Handle(c, db, caller, r).Done? && Handle(c, db, caller, r).created !! files
    ensures OutcomeSafe(Handle(c, db, caller, r), files)
  {
    var o := Handle(c, db, caller, r);
    assert files + {} == files;
    match r
    case CreateReq(_) => DraftEditIsSafe(c, db, caller, r, files);
    case UpdateReq(_, _) => DraftEditIsSafe(c, db, caller, r, files);
    case UploadReq(_, _, _) => DraftEditIsSafe(c, db, caller, r, files);
    case DeleteAttachmentReq(_, _) => DraftEditIsSafe(c, db, caller, r, files);
    case DeleteReq(id, thread, permanent, now) =>
      if db.msgs[id].sent.None? {
        DropKeepsFilesSafe(db, {id}, files);
        forall path, x, p | path in o.removed && Has(o.db, x, p) ensures At(o.db, x, p) != path {
          var q :| q in db.msgs[id].parts && db.msgs[id].parts[q].path == path;
          assert Has(db, id, q) && Has(db, x, p);
        }
      } else if permanent {
        var marked := AfterMark(db, caller, id, thread, now);
        var gone := Removable(c, marked, Subtree(db, caller, id), now);
        SamePartsKeepFilesSafe(db, marked, files);
        DropKeepsFilesSafe(marked, gone, files);
        OrphansAreUnused(marked, gone);
      } else {
        SamePartsKeepFilesSafe(db, o.db, files);
      }
    case SendReq(id, _, _, _, _) => PutKeepsFilesSafe(db, id, o.db.msgs[id], files, Body, {});
    case AddReq(id, _, _, _) => PutKeepsFilesSafe(db, id, o.db.msgs[id], files, Body, {});
    case ReactReq(_, file, _, _, _, _) =>
      PutKeepsFilesSafe(db, db.nextId, o.db.msgs[db.nextId], files, Body, {file.path});
    case RestoreReq(_, _) => SamePartsKeepFilesSafe(db, o.db, files);
  }

  lemma RunAfterIsSafe(c: Config, w: World, after: After)
    requires FilesSafe(w.db, w.files)
    ensures FilesSafe(RunAfter(c, w, after).db, RunAfter(c, w, after).files)
  {
    if after.Deliver? && after.id in w.db.msgs {
      PutKeepsFilesSafe(w.db, after.id, DeliverTo(c, w.db.msgs[after.id], after), w.files, Body, {});
      assert w.files + {} == w.files;
    }
  }

  /** However its commit ends, a request leaves no row without its file; one
      that is rolled back leaves the files and the rows as they were. */
  lemma ConcludeIsSafe(c: Config, w: World, o: Outcome, commit: Commit)
    requires FilesSafe(w.db, w.files) && o.Done? && OutcomeSafe(o, w.files) && o.created !! w.files
    ensures FilesSafe(Conclude(c, w, o, commit).db, Conclude(c, w, o, commit).files)
    ensures commit == StatementFailed ==> Conclude(c, w, o, commit) == w
    ensures commit == NotCommitted ==> Conclude(c, w, o, commit) == w.(files := w.files + o.created)
  {
    if commit == Acknowledged {
      RemovingUnused(o.db, w.files + o.created, o.removed);
      RunAfterIsSafe(c, w.(db := o.db, files := w.files + o.created - o.removed), o.after);
    } else if commit == StatementFailed {
      assert w.files + o.created - o.created == w.files;
    }
  }

  lemma StepIsSafe(c: Config, w: World, e: Event)
    requires FilesSafe(w.db, w.files) && IdsBelow(w.db)
    ensures FilesSafe(Step(c, w, e).db, Step(c, w, e).files)
  {
    match e
    case Api(caller, req, commit) =>
      var o := Handle(c, w.db, caller, req);
      if o.Done? && o.created !! w.files {
        HandleIsSafe(c, w.db, caller, req, w.files);
        ConcludeIsSafe(c, w, o, commit);
      }
    case Receive(m) =>
      if MayReceive(c, w, m) {
        ReceiveIsSafe(c, w, m);
      }
    case SetOutcome(id, row, outcome) =>
      if MaySetOutcome(c, w.db, id, row) {
        assert forall p :: p in w.db.msgs[id].parts ==> Has(w.db, id, p);
        PutKeepsFilesSafe(w.db, id, WithOutcome(w.db.msgs[id], row, outcome), w.files, Body, {});
        assert w.files + {} == w.files;
      }
  }

  lemma ReceiveIsSafe(c: Config, w: World, m: Message)
    requires FilesSafe(w.db, w.files) && MayReceive(c, w, m) && w.db.nextId !in w.db.msgs
    ensures FilesSafe(Put(w.db, w.db.nextId, m), w.files + Paths(m))
  {
    var after := Put(w.db, w.db.nextId, m);
    forall x, p, q | Has(w.db, x, p) && w.db.msgs[x].sent.None? && q in m.parts
      ensures m.parts[q].path != At(w.db, x, p)
    {
      assert Uses(w.db.msgs[x], At(w.db, x, p));
    }
    forall x, p, y, q | Has(after, x, p) && Has(after, y, q) && after.msgs[x].sent.None?
                        && At(after, x, p) == At(after, y, q)
      ensures x == y && p == q
    {
      assert Has(w.db, x, p);
      assert y == w.db.nextId || Has(w.db, y, q);
    }
    forall x, p | Has(after, x, p) ensures At(after, x, p) in w.files + Paths(m) {
      if x != w.db.nextId {
        assert Has(w.db, x, p);
      }
    }
  }
}
