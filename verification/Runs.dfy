/** Whole runs of the replica: deltas, local mutations, replay verdicts, compaction,
    body cache, crypto flags and folder maintenance in any order. */
module Runs {
  import opened Prelude
  import opened Text
  import opened Json
  import opened Schema
  import opened Delta
  import opened DeltaTheorems
  import opened Queue
  import opened Mutations
  import Messages
  import Bodies
  import Labels
  import SyncState

  datatype Step =
    | SyncDelta(folder: Folder, delta: FolderDelta)
    | Mutate(account: string, op: MutationOp, sendKey: string, stamps: seq<Stamp>)
    | MarkThreadRead(thread: Key)
    | StoreBody(k: Key, html: string, now: int)
    | EvictBody(k: Key)
    | EvictOldest(victims: set<Key>)
    | RaiseCrypto(k: Key, hasCiphertext: bool, hasSignedPart: bool)
    | ListFolders(fs: seq<Labels.MailFolder>)
    | DeleteFolder(k: Key)
    | PruneFolders(account: string, source: string, keep: set<string>)
    | Compact(account: string)
    | Verdict(v: Queue.Verdict)
    | AdvanceCursor(k: Key, c: SyncState.Cursor)

  /** Ids are unique, by primary key; a mutation may stop before all its rows are queued. */
  ghost predicate Valid(db: Db, s: Step) {
    match s
    case SyncDelta(f, d) => ValidDelta(f, d)
    case Mutate(_, op, sendKey, stamps) => |stamps| <= |Targets(op, sendKey)| && FreshIds(db.pending, stamps)
    case EvictOldest(victims) => victims <= db.bodies.Keys
    case Verdict(v) => IsPending(db.pending, v.id)
    case _ => true
  }

  ghost function Apply(db: Db, s: Step): Db
    requires Valid(db, s)
  {
    match s
    case SyncDelta(f, d) => ApplyDelta(db, f, d)
    case Mutate(account, op, sendKey, stamps) => Mutated(db, account, op, sendKey, stamps)
    case MarkThreadRead(t) => MarkReadLocally(db, t.account, t.id, true)
    case StoreBody(k, html, now) =>
      var r := Bodies.WithBody(db, k, html, now);
      if r.Ok? then r.value else db
    case EvictBody(k) => Bodies.WithoutBody(db, k)
    case EvictOldest(victims) => Bodies.Evicted(db, victims)
    case RaiseCrypto(k, c, p) => Messages.CryptoFlags(db, k, c, p)
    case ListFolders(fs) => db.(labels := Labels.UpsertAll(db.labels, fs))
    case DeleteFolder(k) => Labels.WithoutLabels(db, {k})
    case PruneFolders(account, source, keep) => Labels.Pruned(db, account, source, keep)
    case Compact(account) => db.(pending := Compacted(db.pending, account))
    case Verdict(v) => db.(pending := Settle(db.pending, v))
    case AdvanceCursor(k, c) => db.(syncState := db.syncState[k := SyncState.Merged(SyncState.RowAt(db, k), c)])
  }

  ghost predicate ValidRun(db: Db, steps: seq<Step>)
    decreases |steps|
  {
    steps == [] || (Valid(db, steps[0]) && ValidRun(Apply(db, steps[0]), steps[1..]))
  }

  ghost function RunSteps(db: Db, steps: seq<Step>): Db
    requires ValidRun(db, steps)
    decreases |steps|
  {
    if steps == [] then db else RunSteps(Apply(db, steps[0]), steps[1..])
  }

  // ---- Single steps keep the invariant ----

  /** What a step does to the messages when it neither delivers nor marks: none
      appears and none changes its read state. */
  ghost predicate ReadKept(db: Db, after: Db) {
    forall k :: k in after.messages ==> k in db.messages && after.messages[k].isRead == db.messages[k].isRead
  }

  lemma SameTables(db: Db, after: Db)
    requires Inv(db)
    requires after.messages == db.messages && after.threads == db.threads
    requires after.threadLabels == db.threadLabels && after.bodies == db.bodies
    ensures Inv(after) && ReadKept(db, after)
  {
    forall k ensures WellKeyedCell(k, CellAt(after, k)) && CoherentCell(CellAt(after, k)) {
      assert WellKeyedCell(k, CellAt(db, k)) && CoherentCell(CellAt(db, k));
      assert LabelsOf(after, k) == LabelsOf(db, k);
    }
  }

  function ReadCell(c: Cell, read: bool): Cell {
    if c.msg.None? || c.thread.None? then c
    else c.(msg := Some(c.msg.value.(isRead := read)), thread := Some(c.thread.value.(isRead := read)))
  }

  /** Marking a thread marks its one message. */
  lemma MarkReadAt(db: Db, account: string, threadId: string, read: bool, k: Key)
    requires Inv(db)
    ensures CellAt(MarkReadLocally(db, account, threadId, read), k)
         == if k == Key(account, threadId) then ReadCell(CellAt(db, k), read) else CellAt(db, k)
  {
    assert WellKeyedCell(k, CellAt(db, k)) && CoherentCell(CellAt(db, k));
    assert LabelsOf(MarkReadLocally(db, account, threadId, read), k) == LabelsOf(db, k);
  }

  lemma MarkReadKeepsInv(db: Db, account: string, threadId: string, read: bool)
    requires Inv(db)
    ensures Inv(MarkReadLocally(db, account, threadId, read))
  {
    var after := MarkReadLocally(db, account, threadId, read);
    forall k ensures WellKeyedCell(k, CellAt(after, k)) && CoherentCell(CellAt(after, k)) {
      assert WellKeyedCell(k, CellAt(db, k)) && CoherentCell(CellAt(db, k));
      MarkReadAt(db, account, threadId, read, k);
    }
  }

  lemma StarOneKeepsInv(db: Db, j: Key, star: bool)
    requires Inv(db)
    ensures Inv(StarOne(db, j, star)) && ReadKept(db, StarOne(db, j, star))
  {
    var after := StarOne(db, j, star);
    forall k ensures WellKeyedCell(k, CellAt(after, k)) && CoherentCell(CellAt(after, k)) {
      assert WellKeyedCell(k, CellAt(db, k)) && CoherentCell(CellAt(db, k));
      assert LabelsOf(after, k) == LabelsOf(db, k);
    }
  }

  lemma {:induction false} StarAllKeepsInv(db: Db, account: string, mids: seq<string>, star: bool)
    requires Inv(db)
    ensures Inv(StarAll(db, account, mids, star)) && ReadKept(db, StarAll(db, account, mids, star))
  {
    if mids != [] {
      StarAllKeepsInv(db, account, mids[..|mids| - 1], star);
      StarOneKeepsInv(StarAll(db, account, mids[..|mids| - 1], star), Key(account, mids[|mids| - 1]), star);
    }
  }

  lemma MoveOneKeepsInv(db: Db, j: Key, src: string, dst: string)
    requires Inv(db)
    ensures Inv(MoveOne(db, j, src, dst)) && ReadKept(db, MoveOne(db, j, src, dst))
  {
    var after := MoveOne(db, j, src, dst);
    assert WellKeyedCell(j, CellAt(db, j));
    forall k ensures WellKeyedCell(k, CellAt(after, k)) && CoherentCell(CellAt(after, k)) {
      assert WellKeyedCell(k, CellAt(db, k)) && CoherentCell(CellAt(db, k));
      if k != j || j !in db.messages {
        assert LabelsOf(after, k) == LabelsOf(db, k);
      }
    }
  }

  lemma {:induction false} MoveAllKeepsInv(db: Db, account: string, mids: seq<string>, src: string, dst: string)
    requires Inv(db)
    ensures Inv(MoveAll(db, account, mids, src, dst)) && ReadKept(db, MoveAll(db, account, mids, src, dst))
  {
    if mids != [] {
      MoveAllKeepsInv(db, account, mids[..|mids| - 1], src, dst);
      MoveOneKeepsInv(MoveAll(db, account, mids[..|mids| - 1], src, dst), Key(account, mids[|mids| - 1]), src, dst);
    }
  }

  lemma MoveOneAt(db: Db, j: Key, src: string, dst: string, k: Key)
    requires Inv(db)
    ensures CellAt(MoveOne(db, j, src, dst), k)
         == if k == j && k in db.messages then CellAt(db, k).(labels := LabelsOf(db, k) - {src} + {dst})
            else CellAt(db, k)
  {
    var after := MoveOne(db, j, src, dst);
    assert WellKeyedCell(j, CellAt(db, j));
    if k == j && k in db.messages {
      assert LabelsOf(after, k) == LabelsOf(db, k) - {src} + {dst};
    } else {
      assert LabelsOf(after, k) == LabelsOf(db, k);
    }
  }

  /** A local move relinks exactly the named messages. */
  lemma {:induction false} MoveAllAt(db: Db, account: string, mids: seq<string>, src: string, dst: string, k: Key)
    requires Inv(db)
    ensures CellAt(MoveAll(db, account, mids, src, dst), k)
         == if k in KeysOf(account, mids) && k in db.messages
            then CellAt(db, k).(labels := LabelsOf(db, k) - {src} + {dst}) else CellAt(db, k)
  {
    if mids != [] {
      var init, j := mids[..|mids| - 1], Key(account, mids[|mids| - 1]);
      var mid := MoveAll(db, account, init, src, dst);
      MoveAllAt(db, account, init, src, dst, k);
      MoveAllKeepsInv(db, account, init, src, dst);
      assert mids == init + [mids[|mids| - 1]];
      MoveOneAt(mid, j, src, dst, k);
    } else {
      assert LabelsOf(MoveAll(db, account, mids, src, dst), k) == LabelsOf(db, k);
    }
  }

  /** A local flag change stars exactly the named messages. */
  lemma {:induction false} StarAllAt(db: Db, account: string, mids: seq<string>, star: bool, k: Key)
    ensures CellAt(StarAll(db, account, mids, star), k)
         == if k in KeysOf(account, mids) && k in db.messages
            then CellAt(db, k).(msg := Some(db.messages[k].(isStarred := star))) else CellAt(db, k)
  {
    var after := StarAll(db, account, mids, star);
    if mids != [] {
      StarAllAt(db, account, mids[..|mids| - 1], star, k);
      assert mids == mids[..|mids| - 1] + [mids[|mids| - 1]];
      assert LabelsOf(after, k) == LabelsOf(StarAll(db, account, mids[..|mids| - 1], star), k);
    }
  }

  /** A local delete empties the cells of its messages and no other. */
  lemma DeleteAt(db: Db, account: string, mids: seq<string>, k: Key)
    requires Inv(db)
    ensures CellAt(DeleteLocally(db, account, mids), k) == if k in KeysOf(account, mids) then EMPTY else CellAt(db, k)
  {
    var mid := Delta.DeleteMessages(db, KeysOf(account, mids));
    forall j ensures WellKeyedCell(j, CellAt(mid, j)) {
      assert WellKeyedCell(j, CellAt(db, j));
      assert LabelsOf(mid, j) == LabelsOf(db, j);
    }
    SweepAt(mid, account, k);
    assert WellKeyedCell(k, CellAt(db, k)) && CoherentCell(CellAt(db, k));
    assert LabelsOf(mid, k) == LabelsOf(db, k);
  }

  lemma DeleteKeepsInv(db: Db, account: string, mids: seq<string>)
    requires Inv(db)
    ensures Inv(DeleteLocally(db, account, mids)) && ReadKept(db, DeleteLocally(db, account, mids))
  {
    var after := DeleteLocally(db, account, mids);
    forall k ensures WellKeyedCell(k, CellAt(after, k)) && CoherentCell(CellAt(after, k)) {
      assert WellKeyedCell(k, CellAt(db, k)) && CoherentCell(CellAt(db, k));
      DeleteAt(db, account, mids, k);
    }
  }

  lemma WriteKeepsInv(db: Db, account: string, op: MutationOp)
    requires Inv(db)
    ensures Inv(WriteLocally(db, account, op))
    ensures !op.MarkRead? ==> ReadKept(db, WriteLocally(db, account, op))
  {
    match op
    case MarkRead(threadId, _, _, _, read) => MarkReadKeepsInv(db, account, threadId, read);
    case SetFlag(mids, _, _, flag, add) => StarAllKeepsInv(db, account, mids, StarValue(flag, add));
    case Move(mids, src, dst, _, _, _) => MoveAllKeepsInv(db, account, mids, src, dst);
    case Delete(mids, _, _) => DeleteKeepsInv(db, account, mids);
    case Send(_) =>
  }

  lemma CryptoKeepsInv(db: Db, j: Key, c: bool, p: bool)
    requires Inv(db)
    ensures Inv(Messages.CryptoFlags(db, j, c, p)) && ReadKept(db, Messages.CryptoFlags(db, j, c, p))
  {
    var after := Messages.CryptoFlags(db, j, c, p);
    assert WellKeyedCell(j, CellAt(db, j)) && CoherentCell(CellAt(db, j));
    forall k ensures WellKeyedCell(k, CellAt(after, k)) && CoherentCell(CellAt(after, k)) {
      assert WellKeyedCell(k, CellAt(db, k)) && CoherentCell(CellAt(db, k));
      assert LabelsOf(after, k) == LabelsOf(db, k);
    }
  }

  /** Body-cache steps. */
  lemma BodyStepKeepsInv(db: Db, s: Step)
    requires Inv(db) && Valid(db, s) && (s.StoreBody? || s.EvictBody? || s.EvictOldest?)
    ensures Inv(Apply(db, s)) && ReadKept(db, Apply(db, s))
  {
    match s
    case StoreBody(k, html, now) =>
      if Bodies.WithBody(db, k, html, now).Ok? { Bodies.SetBodyKeepsInv(db, k, html, now); }
    case EvictBody(k) => Bodies.EvictKeepsInv(db, k);
    case EvictOldest(victims) => Bodies.MaybeEvictKeepsInv(db, victims);
  }

  lemma FolderStepKeepsInv(db: Db, s: Step)
    requires Inv(db) && Valid(db, s) && (s.ListFolders? || s.DeleteFolder? || s.PruneFolders?)
    ensures Inv(Apply(db, s)) && ReadKept(db, Apply(db, s))
  {
    match s
    case ListFolders(fs) => SameTables(db, Apply(db, s));
    case DeleteFolder(k) => Labels.WithoutLabelsKeepsInv(db, {k});
    case PruneFolders(account, source, keep) =>
      if keep != {} { Labels.WithoutLabelsKeepsInv(db, Labels.StaleLabels(db, account, source, keep)); }
  }

  /** Steps that never change which messages exist or whether they are read. */
  predicate Quiet(s: Step) {
    match s
    case SyncDelta(_, _) => false
    case MarkThreadRead(_) => false
    case Mutate(_, op, _, _) => !op.MarkRead?
    case _ => true
  }

  lemma StepKeepsInv(db: Db, s: Step)
    requires Inv(db) && Valid(db, s)
    ensures Inv(Apply(db, s))
    ensures Quiet(s) ==> ReadKept(db, Apply(db, s))
  {
    match s
    case SyncDelta(f, d) => DeltaKeepsInv(db, f, d);
    case Mutate(account, op, sendKey, stamps) =>
      WriteKeepsInv(db, account, op);
      SameTables(WriteLocally(db, account, op), Apply(db, s));
    case MarkThreadRead(t) => MarkReadKeepsInv(db, t.account, t.id, true);
    case StoreBody(_, _, _) => BodyStepKeepsInv(db, s);
    case EvictBody(_) => BodyStepKeepsInv(db, s);
    case EvictOldest(_) => BodyStepKeepsInv(db, s);
    case RaiseCrypto(k, c, p) => CryptoKeepsInv(db, k, c, p);
    case ListFolders(_) => FolderStepKeepsInv(db, s);
    case DeleteFolder(_) => FolderStepKeepsInv(db, s);
    case PruneFolders(_, _, _) => FolderStepKeepsInv(db, s);
    case Compact(_) => SameTables(db, Apply(db, s));
    case Verdict(_) => SameTables(db, Apply(db, s));
    case AdvanceCursor(_, _) => SameTables(db, Apply(db, s));
  }

  /** After a SetFlag the local star is what the server's \Flagged will be, exactly when
      the flag is \Flagged or the message was not starred: other flags clear the star. */
  lemma StarMatchesServer(db: Db, account: string, op: MutationOp, k: Key)
    requires op.SetFlag? && k in KeysOf(account, op.messageIds) && k in db.messages
    ensures k in WriteLocally(db, account, op).messages
    ensures var server := if op.flag == "\\Flagged" then op.add else db.messages[k].isStarred;
            (WriteLocally(db, account, op).messages[k].isStarred == server
             <==> op.flag == "\\Flagged" || !db.messages[k].isStarred)
  {
    var after := WriteLocally(db, account, op);
    StarAllAt(db, account, op.messageIds, StarValue(op.flag, op.add), k);
    assert CellAt(after, k).msg.Some?;
  }

  // ---- The queue invariant ----

  /** Ids are unique, pending rows have attempts left, and all rows were written by
      `encode_params`. */
  ghost predicate QueueInv(q: seq<PendingOp>) {
    UniqueIds(q) && AttemptsLeft(q) && forall op :: op in q ==> Encoded(op)
  }

  lemma SettleKeepsQueueInv(q: seq<PendingOp>, v: Queue.Verdict)
    requires QueueInv(q)
    ensures QueueInv(Settle(q, v))
  {
    SettleKeeps(q, v);
    match v
    case Completed(id) =>
      FilterIn(q, (op: PendingOp) => op.id != id);
    case FailedAt(id, now, error) =>
      var r := WithFailure(q, id, now, error);
      forall op | op in r ensures Encoded(op) {
        var i :| 0 <= i < |r| && r[i] == op;
        assert Encoded(q[i]);
      }
  }

  lemma RowsKeepQueueInv(q: seq<PendingOp>, account: string, op: MutationOp, targets: seq<string>, stamps: seq<Stamp>)
    requires QueueInv(q) && |stamps| <= |targets| && FreshIds(q, stamps)
    ensures QueueInv(q + Rows(account, op, targets, stamps))
  {
    hide EncodeParams;
    var rows := Rows(account, op, targets, stamps);
    forall row | row in rows ensures Encoded(row) && row.retryCount < row.maxRetries {
      var i :| 0 <= i < |rows| && rows[i] == row;
      assert row.opType == OpType(op) && row.params == EncodeParams(op);
    }
  }

  lemma DeltaKeepsQueue(db: Db, f: Folder, d: FolderDelta)
    requires Inv(db) && ValidDelta(f, d)
    ensures ApplyDelta(db, f, d).pending == db.pending
  {
    InvWellKeyed(db);
    RunAt(db, f, Program(d), Key("", ""));
  }

  lemma StepKeepsQueueInv(db: Db, s: Step)
    requires Inv(db) && QueueInv(db.pending) && Valid(db, s)
    ensures QueueInv(Apply(db, s).pending)
  {
    match s
    case SyncDelta(f, d) => DeltaKeepsQueue(db, f, d);
    case Mutate(account, op, sendKey, stamps) =>
      WritesKeepQueue(db, account, op);
      RowsKeepQueueInv(db.pending, account, op, Targets(op, sendKey), stamps);
    case Compact(account) =>
      FilterKeepsOrder(db.pending, (op: PendingOp) => !Cancelled(db.pending, account, op));
      FilterIn(db.pending, (op: PendingOp) => !Cancelled(db.pending, account, op));
    case Verdict(v) => SettleKeepsQueueInv(db.pending, v);
    case _ =>
  }

  /** The store invariant holds after every run. */
  lemma {:induction false} RunKeepsInv(db: Db, steps: seq<Step>)
    requires Inv(db) && QueueInv(db.pending) && ValidRun(db, steps)
    ensures Inv(RunSteps(db, steps)) && TablesAgree(RunSteps(db, steps)) && QueueInv(RunSteps(db, steps).pending)
    decreases |steps|
  {
    InvMeaning(db);
    if steps != [] {
      StepKeepsInv(db, steps[0]);
      StepKeepsQueueInv(db, steps[0]);
      RunKeepsInv(Apply(db, steps[0]), steps[1..]);
    }
  }

  const EMPTY_STORE: Db := Db(map[], map[], {}, map[], [], map[], map[])

  /** So does every store a new installation can reach. */
  lemma ReachableStores(steps: seq<Step>)
    requires ValidRun(EMPTY_STORE, steps)
    ensures TablesAgree(RunSteps(EMPTY_STORE, steps))
  {
    InvMeaning(EMPTY_STORE);
    RunKeepsInv(EMPTY_STORE, steps);
  }

  // ---- A locked message stays gone ----

  ghost predicate LockedThroughout(db: Db, steps: seq<Step>, k: Key)
    requires ValidRun(db, steps)
    decreases |steps|
  {
    Locked(db, k) && (steps != [] ==> LockedThroughout(Apply(db, steps[0]), steps[1..], k))
  }

  /** A message deleted locally does not come back, whatever happens, for as long as
      an operation on it is queued. */
  lemma {:induction false} StaysDeleted(db: Db, steps: seq<Step>, k: Key)
    requires Inv(db) && ValidRun(db, steps) && LockedThroughout(db, steps, k)
    requires k !in db.messages
    ensures k !in RunSteps(db, steps).messages
    decreases |steps|
  {
    if steps != [] {
      var s, after := steps[0], Apply(db, steps[0]);
      StepKeepsInv(db, s);
      match s {
        case SyncDelta(f, d) => NoResurrection(db, f, d, k);
        case _ => assert after.messages.Keys <= db.messages.Keys;
      }
      StaysDeleted(after, steps[1..], k);
    }
  }

  /** A message under the write-lock is deleted by a delta or left as it is. */
  lemma LockedKept(db: Db, f: Folder, d: FolderDelta, k: Key)
    requires Inv(db) && ValidDelta(f, d) && Locked(db, k)
    requires k in ApplyDelta(db, f, d).messages
    ensures k in db.messages && ApplyDelta(db, f, d).messages[k] == db.messages[k]
  {
    var after := ApplyDelta(db, f, d);
    InvWellKeyed(db);
    if Outside(f, k) {
      OtherFoldersUntouched(db, f, d, k);
    } else {
      var uid: u32 :| k == MessageKey(f.account, f.path, uid);
      DeltaInside(db, f, d, uid);
    }
    assert CellAt(after, k).msg == CellAt(db, k).msg;
  }

  // ---- A local write and the next delta ----

  /** The messages a mutation has queued a row for so far. */
  function Queued(op: MutationOp, sendKey: string, stamps: seq<Stamp>): seq<string>
    requires |stamps| <= |Targets(op, sendKey)|
  {
    Targets(op, sendKey)[..|stamps|]
  }

  lemma RowsLock(account: string, op: MutationOp, targets: seq<string>, stamps: seq<Stamp>, k: Key)
    requires |stamps| <= |targets|
    ensures (exists row :: row in Rows(account, op, targets, stamps) && PendingFor(row, k))
       <==> k.account == account && k.id in targets[..|stamps|]
  {
    var rows, queued := Rows(account, op, targets, stamps), targets[..|stamps|];
    if k.account == account && k.id in queued {
      var i :| 0 <= i < |queued| && queued[i] == k.id;
      assert PendingFor(rows[i], k) && rows[i] in rows;
    }
    if row :| row in rows && PendingFor(row, k) {
      var i :| 0 <= i < |rows| && rows[i] == row;
      assert queued[i] == k.id;
    }
  }

  /** A mutation locks exactly the messages whose row is queued. */
  lemma MutateLocks(db: Db, account: string, op: MutationOp, sendKey: string, stamps: seq<Stamp>, k: Key)
    requires |stamps| <= |Targets(op, sendKey)|
    ensures Locked(Mutated(db, account, op, sendKey, stamps), k)
       <==> Locked(db, k) || (k.account == account && k.id in Queued(op, sendKey, stamps))
  {
    hide WriteLocally, Rows, PendingFor, Targets;
    WritesKeepQueue(db, account, op);
    RowsLock(account, op, Targets(op, sendKey), stamps, k);
    var rows := Rows(account, op, Targets(op, sendKey), stamps);
    assert forall row :: row in db.pending + rows <==> row in db.pending || row in rows;
  }

  /** What the next delta makes of a local write, wherever the client stopped between
      the write and its last row: it acts on the written cell, and respects the lock only
      of a message that was locked before or whose row is queued. */
  lemma WriteThenDelta(
      db: Db, op: MutationOp, sendKey: string, stamps: seq<Stamp>, f: Folder, d: FolderDelta, uid: u32)
    requires Inv(db) && ValidDelta(f, d) && |stamps| <= |Targets(op, sendKey)|
    ensures var k := MessageKey(f.account, f.path, uid);
            CellAt(ApplyDelta(Mutated(db, f.account, op, sendKey, stamps), f, d), k)
            == Outcome(f, uid, Locked(db, k) || k.id in Queued(op, sendKey, stamps), d,
                CellAt(WriteLocally(db, f.account, op), k))
  {
    hide WriteLocally, Rows, Outcome;
    var written, mutated := WriteLocally(db, f.account, op), Mutated(db, f.account, op, sendKey, stamps);
    var k := MessageKey(f.account, f.path, uid);
    WriteKeepsInv(db, f.account, op);
    SameTables(written, mutated);
    MutateLocks(db, f.account, op, sendKey, stamps, k);
    InvWellKeyed(mutated);
    DeltaInside(mutated, f, d, uid);
    assert LabelsOf(mutated, k) == LabelsOf(written, k);
  }

  /** Once queued, the optimistic write outlives the next delta of its folder, whatever
      the server still says, exactly when the delta neither wipes the folder nor names the
      UID as vanished (or the write itself removed the message). */
  lemma OptimisticWriteSurvives(
      db: Db, op: MutationOp, sendKey: string, stamps: seq<Stamp>, f: Folder, d: FolderDelta, uid: u32)
    requires Inv(db) && ValidDelta(f, d)
    requires |stamps| <= |Targets(op, sendKey)| && MessageId(f.account, f.path, uid) in Queued(op, sendKey, stamps)
    ensures var k, written := MessageKey(f.account, f.path, uid), WriteLocally(db, f.account, op);
            CellAt(ApplyDelta(Mutated(db, f.account, op, sendKey, stamps), f, d), k) == CellAt(written, k) <==>
              (!d.uidValidityChanged && uid !in d.vanishedUids) || k !in written.messages
  {
    hide WriteLocally, Mutated, Queued;
    var k, written := MessageKey(f.account, f.path, uid), WriteLocally(db, f.account, op);
    WriteThenDelta(db, op, sendKey, stamps, f, d, uid);
    WriteKeepsInv(db, f.account, op);
    assert WellKeyedCell(k, CellAt(written, k)) && CoherentCell(CellAt(written, k));
  }

  /** The read and star state a delta gives the message, if it says any. */
  function Told(d: FolderDelta, uid: u32): Option<(bool, bool)> {
    var all, flags := Deliveries(d, uid), LastFlags(d.flagUpdates, uid);
    if flags.Some? then Some((flags.value.isRead, flags.value.isStarred))
    else if all != [] then Some((all[|all| - 1].isRead, all[|all| - 1].isStarred))
    else None
  }

  /** Everything a mutation can write about a message: presence, read, star and labels. */
  ghost predicate WriteShown(c: Cell, written: Cell) {
    && (c.msg.Some? <==> written.msg.Some?)
    && (c.msg.Some? ==>
        c.msg.value.isRead == written.msg.value.isRead && c.msg.value.isStarred == written.msg.value.isStarred)
    && (c.msg.Some? ==> c.labels == written.labels)
  }

  /** When a delta happens to leave an unlocked write as it is. */
  ghost predicate Undisturbed(f: Folder, uid: u32, d: FolderDelta, written: Cell) {
    var delivered := Deliveries(d, uid) != [];
    if written.msg.None? then uid in d.vanishedUids || !delivered
    else
      && uid !in d.vanishedUids
      && (d.uidValidityChanged ==> delivered && written.labels == {f.labelId})
      && (delivered ==> f.labelId in written.labels)
      && (Told(d, uid).Some? ==> Told(d, uid).value == (written.msg.value.isRead, written.msg.value.isStarred))
  }

  lemma DeliveredShows(f: Folder, ms: seq<RemoteMessage>, c: Cell)
    ensures var r := Delivered(f, ms, c);
            if ms == [] then r == c
            else
              && r.msg.Some? && r.thread.Some? && r.labels == c.labels + {f.labelId}
              && r.msg.value.isRead == ms[|ms| - 1].isRead && r.msg.value.isStarred == ms[|ms| - 1].isStarred
  {}

  lemma FlagsShow(c: Cell, u: Option<FlagUpdate>)
    requires c.msg.Some? ==> c.thread.Some?
    ensures var r := WithFlags(c, u);
            && (r.msg.Some? <==> c.msg.Some?) && r.labels == c.labels
            && (r.msg.Some? && u.Some? ==>
                r.msg.value.isRead == u.value.isRead && r.msg.value.isStarred == u.value.isStarred)
            && (u.None? ==> r == c)
  {}

  /** Presence, read, star and labels of an unlocked message after a delta. */
  lemma UnlockedParts(f: Folder, uid: u32, d: FolderDelta, c: Cell)
    requires CoherentCell(c)
    ensures var r, delivered := Outcome(f, uid, false, d, c), Deliveries(d, uid) != [];
            && (r.msg.Some? <==> uid !in d.vanishedUids && ((c.msg.Some? && !d.uidValidityChanged) || delivered))
            && (r.msg.Some? && Told(d, uid).Some? ==> Told(d, uid).value == (r.msg.value.isRead, r.msg.value.isStarred))
            && (r.msg.Some? && Told(d, uid).None? ==>
                  r.msg.value.isRead == c.msg.value.isRead && r.msg.value.isStarred == c.msg.value.isStarred)
            && (r.msg.Some? ==>
                r.labels == (if d.uidValidityChanged then {} else c.labels) + (if delivered then {f.labelId} else {}))
  {
    hide Delivered, WithFlags, LastFlags, Deliveries;
    var base := if d.uidValidityChanged then EMPTY else c;
    var delivered := Delivered(f, Deliveries(d, uid), base);
    DeliveredShows(f, Deliveries(d, uid), base);
    var swept := if d.vanishedUids == [] then delivered else SweptCell(delivered);
    FlagsShow(swept, LastFlags(d.flagUpdates, uid));
  }

  lemma UnlockedOutcome(f: Folder, uid: u32, d: FolderDelta, c: Cell)
    requires CoherentCell(c)
    ensures WriteShown(Outcome(f, uid, false, d, c), c) <==> Undisturbed(f, uid, d, c)
  {
    hide Outcome, Told, Deliveries;
    UnlockedParts(f, uid, d, c);
    assert c.labels + {} == c.labels && {} + {f.labelId} == {f.labelId};
    assert f.labelId in c.labels <==> c.labels + {f.labelId} == c.labels;
  }

  /** Before its row is queued, a local write outlives the next delta exactly when the
      delta says of the message what was written, or nothing. */
  lemma UnqueuedWriteSurvives(
      db: Db, op: MutationOp, sendKey: string, stamps: seq<Stamp>, f: Folder, d: FolderDelta, uid: u32)
    requires Inv(db) && ValidDelta(f, d) && |stamps| <= |Targets(op, sendKey)|
    requires !Locked(db, MessageKey(f.account, f.path, uid))
    requires MessageId(f.account, f.path, uid) !in Queued(op, sendKey, stamps)
    ensures var k, written := MessageKey(f.account, f.path, uid), WriteLocally(db, f.account, op);
            WriteShown(CellAt(ApplyDelta(Mutated(db, f.account, op, sendKey, stamps), f, d), k), CellAt(written, k))
            <==> Undisturbed(f, uid, d, CellAt(written, k))
  {
    hide WriteLocally, Mutated, Queued, Outcome, WriteShown, Undisturbed;
    var k, written := MessageKey(f.account, f.path, uid), WriteLocally(db, f.account, op);
    WriteThenDelta(db, op, sendKey, stamps, f, d, uid);
    WriteKeepsInv(db, f.account, op);
    assert WellKeyedCell(k, CellAt(written, k)) && CoherentCell(CellAt(written, k));
    UnlockedOutcome(f, uid, d, CellAt(written, k));
  }

  // ---- The rows of a complete mutation ----

  /** The type tag of the row of each kind of operation. */
  predicate HasTag(row: PendingOp, op: MutationOp) {
    match op
    case MarkRead(_, _, _, _, _) => row.opType == "markRead"
    case SetFlag(_, _, _, _, _) => row.opType == "setFlag"
    case Move(_, _, _, _, _, _) => row.opType == "move"
    case Delete(_, _, _) => row.opType == "delete"
    case Send(_) => row.opType == "send"
  }

  /** A fresh row of the queue. */
  predicate FreshRow(row: PendingOp, stamp: Stamp, account: string, resource: string) {
    && row.id == stamp.id && row.account == account && row.resource == resource && row.createdAt == stamp.at
    && row.status == Pending && row.retryCount == 0 && row.maxRetries == 10
    && row.nextRetryAt.None? && row.error.None?
  }

  /** One fresh row for each message, in order, behind the rows that were there. */
  lemma MutationRows(db: Db, account: string, op: MutationOp, sendKey: string, stamps: seq<Stamp>)
    requires !op.Send? && op.messageIds != [] && |stamps| == |op.messageIds|
    ensures var q := Mutated(db, account, op, sendKey, stamps).pending;
            && |q| == |db.pending| + |op.messageIds| && q[..|db.pending|] == db.pending
            && forall i :: 0 <= i < |op.messageIds| ==>
                 var row := q[|db.pending| + i];
                 && FreshRow(row, stamps[i], account, op.messageIds[i]) && HasTag(row, op)
                 && row.params == EncodeParams(op)
  {
    hide WriteLocally, EncodeParams;
    WritesKeepQueue(db, account, op);
  }

  /** A draft, or an operation on no message, queues one row under the generated key. */
  lemma SendRow(db: Db, account: string, op: MutationOp, sendKey: string, stamps: seq<Stamp>)
    requires (op.Send? || op.messageIds == []) && |stamps| == 1
    ensures var q := Mutated(db, account, op, sendKey, stamps).pending;
            && |q| == |db.pending| + 1 && q[..|db.pending|] == db.pending
            && FreshRow(q[|db.pending|], stamps[0], account, sendKey)
            && HasTag(q[|db.pending|], op) && q[|db.pending|].params == EncodeParams(op)
  {
    hide WriteLocally, EncodeParams;
    WritesKeepQueue(db, account, op);
  }

  /** A complete mutation locks every message it names. */
  lemma MutationLocksAll(db: Db, account: string, op: MutationOp, sendKey: string, stamps: seq<Stamp>, id: string)
    requires !op.Send? && id in op.messageIds && |stamps| == |op.messageIds|
    ensures Locked(Mutated(db, account, op, sendKey, stamps), Key(account, id))
  {
    MutationRows(db, account, op, sendKey, stamps);
    var q := Mutated(db, account, op, sendKey, stamps).pending;
    var i :| 0 <= i < |op.messageIds| && op.messageIds[i] == id;
    var row := q[|db.pending| + i];
    assert row in q && FreshRow(row, stamps[i], account, id);
  }

  /** A message deleted locally is gone and does not come back with any delta of any folder
      while its row is queued. */
  lemma DeletedStaysAway(
      db: Db, account: string, ids: seq<string>, folder: string, uids: seq<u32>, sendKey: string, stamps: seq<Stamp>,
      f: Folder, d: FolderDelta, id: string)
    requires Inv(db) && ValidDelta(f, d) && id in ids && |stamps| == |ids|
    ensures var mutated := Mutated(db, account, Delete(ids, folder, uids), sendKey, stamps);
            Key(account, id) !in ApplyDelta(mutated, f, d).messages
  {
    var op := Delete(ids, folder, uids);
    var k, written := Key(account, id), WriteLocally(db, account, op);
    var mutated := Mutated(db, account, op, sendKey, stamps);
    MutationLocksAll(db, account, op, sendKey, stamps, id);
    DeleteAt(db, account, ids, k);
    WriteKeepsInv(db, account, op);
    SameTables(written, mutated);
    assert CellAt(written, k).msg.None?;
    NoResurrection(mutated, f, d, k);
  }

  // ---- How long a lock lasts ----

  /** A pending row on the message other than this one. */
  ghost predicate LockedByOther(q: seq<PendingOp>, k: Key, id: string) {
    exists i :: 0 <= i < |q| && q[i].id != id
      && q[i].account == k.account && q[i].resource == k.id && q[i].status == Pending
  }

  lemma RowsAfterVerdict(q: seq<PendingOp>, v: Queue.Verdict, op: PendingOp)
    requires UniqueIds(q) && op in q && op.id == v.id
    ensures forall o :: o in q && o.id != v.id ==> o in Settle(q, v)
    ensures forall o :: o in Settle(q, v) ==>
              (o in q && o.id != v.id) || (v.FailedAt? && o == FailedOnce(op, v.now, v.error))
    ensures v.FailedAt? ==> FailedOnce(op, v.now, v.error) in Settle(q, v)
  {
    match v
    case Completed(id) => FilterIn(q, (o: PendingOp) => o.id != id);
    case FailedAt(id, now, error) =>
      var r := WithFailure(q, id, now, error);
      forall o | o in q ensures (if o.id == id then FailedOnce(o, now, error) else o) in r {
        var i :| 0 <= i < |q| && q[i] == o;
        assert r[i] in r;
      }
      forall o | o in r ensures (o in q && o.id != id) || o == FailedOnce(op, now, error) {
        var i :| 0 <= i < |r| && r[i] == o;
        assert q[i] in q;
        if q[i].id == id { SameIdSameOp(q, q[i], op); }
      }
  }

  /** After a verdict a message is locked exactly if another pending row is on it, or the
      verdict was a refusal that leaves its row attempts. */
  lemma LockEnds(db: Db, v: Queue.Verdict, op: PendingOp, k: Key)
    requires UniqueIds(db.pending) && op in db.pending && op.id == v.id && op.status == Pending
    ensures Locked(db.(pending := Settle(db.pending, v)), k) <==>
              || LockedByOther(db.pending, k, v.id)
              || (op.account == k.account && op.resource == k.id && v.FailedAt? && op.retryCount + 1 < op.maxRetries)
  {
    hide UniqueIds, Settle;
    var q, after := db.pending, Settle(db.pending, v);
    RowsAfterVerdict(q, v, op);
    if row :| row in after && PendingFor(row, k) {
      if row.id != v.id { var i :| 0 <= i < |q| && q[i] == row; }
    }
    if LockedByOther(q, k, v.id) {
      var i :| 0 <= i < |q| && q[i].id != v.id
        && q[i].account == k.account && q[i].resource == k.id && q[i].status == Pending;
      assert q[i] in q && q[i] in after && PendingFor(q[i], k);
    }
    if op.account == k.account && op.resource == k.id && v.FailedAt? && op.retryCount + 1 < op.maxRetries {
      assert PendingFor(FailedOnce(op, v.now, v.error), k);
    }
  }
}
