/** Deltas are not atomic: each of their statements may be followed by anything else.
    What holds of a store whatever is interleaved with whatever. */
module Interleaving {
  import opened Prelude
  import opened Text
  import opened Schema
  import opened Delta
  import opened DeltaTheorems
  import opened Mutations
  import opened Runs
  import Messages
  import Bodies
  import Labels

  /** One SQL statement of some delta, or a step of a run that is no delta. */
  datatype Event = Statement(folder: Folder, op: Op) | Local(step: Step)

  ghost predicate ValidEvent(db: Db, e: Event) {
    match e
    case Statement(f, op) => ValidFolder(f)
    case Local(s) => !s.SyncDelta? && Valid(db, s)
  }

  ghost function Occur(db: Db, e: Event): Db
    requires ValidEvent(db, e)
  {
    match e
    case Statement(f, op) => Exec(db, f, op)
    case Local(s) => Apply(db, s)
  }

  // ---- Steps that keep rows under their keys ----

  /** No row appears or moves, but a body for a message that is there; threads and bodies
      go with their messages, labels with their threads. */
  ghost predicate Tame(db: Db, after: Db) {
    && after.messages.Keys <= db.messages.Keys && after.threads.Keys <= db.threads.Keys
    && (forall k :: k in after.messages ==>
          var m, was := after.messages[k], db.messages[k];
          m.threadId == was.threadId && m.imapFolder == was.imapFolder && m.imapUid == was.imapUid)
    && (forall k :: k in after.messages && k in db.threads ==> k in after.threads)
    && after.bodies.Keys <= after.messages.Keys
    && (forall tl :: tl in after.threadLabels ==> tl.thread in after.threads)
  }

  /** What the tables of a well-keyed store look like. */
  lemma WellKeyedTables(db: Db)
    requires WellKeyed(db)
    ensures forall k :: k in db.messages ==> k in db.threads && db.messages[k].threadId == k.id
    ensures db.bodies.Keys <= db.messages.Keys
    ensures forall tl :: tl in db.threadLabels ==> tl.thread in db.threads
  {
    forall k ensures k in db.messages ==> k in db.threads && db.messages[k].threadId == k.id
             ensures k in db.bodies ==> k in db.messages
    {
      assert WellKeyedCell(k, CellAt(db, k));
    }
    forall tl | tl in db.threadLabels ensures tl.thread in db.threads {
      assert WellKeyedCell(tl.thread, CellAt(db, tl.thread));
      assert tl == ThreadLabel(tl.thread, tl.labelId) && tl.labelId in LabelsOf(db, tl.thread);
    }
  }

  lemma TameKeepsWellKeyed(db: Db, after: Db)
    requires WellKeyed(db) && Tame(db, after)
    ensures WellKeyed(after)
  {
    WellKeyedTables(db);
    forall k ensures WellKeyedCell(k, CellAt(after, k)) {
      assert WellKeyedCell(k, CellAt(db, k));
      if LabelsOf(after, k) != {} {
        var l :| l in LabelsOf(after, k);
        assert ThreadLabel(k, l) in after.threadLabels;
      }
    }
  }

  lemma {:induction false} StarTame(db: Db, account: string, mids: seq<string>, star: bool)
    requires WellKeyed(db)
    ensures Tame(db, StarAll(db, account, mids, star))
  {
    WellKeyedTables(db);
    if mids != [] {
      StarTame(db, account, mids[..|mids| - 1], star);
    }
  }

  lemma {:induction false} MoveTame(db: Db, account: string, mids: seq<string>, src: string, dst: string)
    requires WellKeyed(db)
    ensures Tame(db, MoveAll(db, account, mids, src, dst))
    ensures MoveAll(db, account, mids, src, dst).messages == db.messages
    ensures MoveAll(db, account, mids, src, dst).threads == db.threads
  {
    WellKeyedTables(db);
    if mids != [] {
      MoveTame(db, account, mids[..|mids| - 1], src, dst);
      var k := Key(account, mids[|mids| - 1]);
      assert k in db.messages ==> Key(k.account, db.messages[k].threadId) == k;
    }
  }

  lemma DeleteTame(db: Db, account: string, mids: seq<string>)
    requires WellKeyed(db)
    ensures Tame(db, DeleteLocally(db, account, mids))
  {
    WellKeyedTables(db);
    var mid := Delta.DeleteMessages(db, KeysOf(account, mids));
    forall k | k in mid.messages ensures k !in Orphans(mid, account) {
      assert k.account == account ==> HasMessages(mid, account, k.id);
    }
  }

  lemma WriteTame(db: Db, account: string, op: MutationOp)
    requires WellKeyed(db)
    ensures Tame(db, WriteLocally(db, account, op))
  {
    WellKeyedTables(db);
    match op
    case MarkRead(_, _, _, _, _) =>
    case SetFlag(mids, _, _, flag, add) => StarTame(db, account, mids, StarValue(flag, add));
    case Move(mids, src, dst, _, _, _) => MoveTame(db, account, mids, src, dst);
    case Delete(mids, _, _) => DeleteTame(db, account, mids);
    case Send(_) =>
  }

  lemma SameTablesTame(db: Db, mid: Db, after: Db)
    requires Tame(db, mid)
    requires after.messages == mid.messages && after.threads == mid.threads
    requires after.threadLabels == mid.threadLabels && after.bodies == mid.bodies
    ensures Tame(db, after)
  {}

  lemma LabelsTame(db: Db, doomed: set<Key>)
    requires WellKeyed(db)
    ensures Tame(db, Labels.WithoutLabels(db, doomed))
  {
    WellKeyedTables(db);
  }

  lemma StoreTame(db: Db, k: Key, html: string, now: int)
    requires WellKeyed(db) && Bodies.WithBody(db, k, html, now).Ok?
    ensures Tame(db, Bodies.WithBody(db, k, html, now).value)
  {
    WellKeyedTables(db);
  }

  lemma EvictTame(db: Db, k: Key)
    requires WellKeyed(db)
    ensures Tame(db, Bodies.WithoutBody(db, k))
  {
    WellKeyedTables(db);
  }

  lemma EvictOldestTame(db: Db, victims: set<Key>)
    requires WellKeyed(db)
    ensures Tame(db, Bodies.Evicted(db, victims))
  {
    WellKeyedTables(db);
  }

  lemma SelfTame(db: Db)
    requires WellKeyed(db)
    ensures Tame(db, db)
  {
    WellKeyedTables(db);
  }

  lemma CryptoTame(db: Db, k: Key, c: bool, p: bool)
    requires WellKeyed(db)
    ensures Tame(db, Messages.CryptoFlags(db, k, c, p))
  {
    WellKeyedTables(db);
    Messages.CryptoFlagsAt(db, k, c, p);
  }

  lemma LocalTame(db: Db, s: Step)
    requires WellKeyed(db) && Valid(db, s) && !s.SyncDelta?
    ensures Tame(db, Apply(db, s))
  {
    hide Tame, WellKeyed;
    SelfTame(db);
    match s
    case SyncDelta(_, _) =>
    case Mutate(account, op, _, _) =>
      WriteTame(db, account, op);
      SameTablesTame(db, WriteLocally(db, account, op), Apply(db, s));
    case MarkThreadRead(t) => WriteTame(db, t.account, MarkRead(t.id, [], "", [], true));
    case StoreBody(k, html, now) =>
      if Bodies.WithBody(db, k, html, now).Ok? { StoreTame(db, k, html, now); }
    case EvictBody(k) => EvictTame(db, k);
    case EvictOldest(victims) => EvictOldestTame(db, victims);
    case RaiseCrypto(k, c, p) => CryptoTame(db, k, c, p);
    case ListFolders(_) => SameTablesTame(db, db, Apply(db, s));
    case DeleteFolder(k) => LabelsTame(db, {k});
    case PruneFolders(account, source, keep) =>
      if keep != {} { LabelsTame(db, Labels.StaleLabels(db, account, source, keep)); }
    case Compact(_) => SameTablesTame(db, db, Apply(db, s));
    case Verdict(_) => SameTablesTame(db, db, Apply(db, s));
    case AdvanceCursor(_, _) => SameTablesTame(db, db, Apply(db, s));
  }

  // ---- Runs of events ----

  ghost predicate ValidEvents(db: Db, events: seq<Event>)
    decreases |events|
  {
    events == [] || (ValidEvent(db, events[0]) && ValidEvents(Occur(db, events[0]), events[1..]))
  }

  ghost function After(db: Db, events: seq<Event>): Db
    requires ValidEvents(db, events)
    decreases |events|
  {
    if events == [] then db else After(Occur(db, events[0]), events[1..])
  }

  lemma EventKeepsWellKeyed(db: Db, e: Event)
    requires WellKeyed(db) && ValidEvent(db, e)
    ensures WellKeyed(Occur(db, e))
  {
    match e
    case Statement(f, op) => ExecKeepsWellKeyed(db, f, op);
    case Local(s) =>
      LocalTame(db, s);
      TameKeepsWellKeyed(db, Apply(db, s));
  }

  /** Every row stays under its key, with its parents, after any interleaving of the
      statements of any deltas with local edits, replay, body, crypto and folder steps. */
  lemma {:induction false} EventsKeepWellKeyed(db: Db, events: seq<Event>)
    requires WellKeyed(db) && ValidEvents(db, events)
    ensures WellKeyed(After(db, events))
    decreases |events|
  {
    if events != [] {
      EventKeepsWellKeyed(db, events[0]);
      EventsKeepWellKeyed(Occur(db, events[0]), events[1..]);
    }
  }

  /** So after any events a delta that is cut off converges when applied again. */
  lemma RetryAfterEvents(db: Db, events: seq<Event>, f: Folder, d: FolderDelta, n: nat)
    requires WellKeyed(db) && ValidEvents(db, events) && ValidDelta(f, d) && n <= |Program(d)|
    ensures var now := After(db, events);
            ApplyDelta(Run(now, f, Program(d)[..n]), f, d) == ApplyDelta(now, f, d)
  {
    EventsKeepWellKeyed(db, events);
    CrashRetry(After(db, events), f, d, n);
  }

  ghost predicate LockedAlong(db: Db, events: seq<Event>, k: Key)
    requires ValidEvents(db, events)
    decreases |events|
  {
    Locked(db, k) && (events != [] ==> LockedAlong(Occur(db, events[0]), events[1..], k))
  }

  lemma EventLeavesGone(db: Db, e: Event, k: Key)
    requires WellKeyed(db) && ValidEvent(db, e) && Locked(db, k) && k !in db.messages
    ensures k !in Occur(db, e).messages
  {
    match e
    case Statement(f, op) =>
      ExecAt(db, f, op, k);
      assert WellKeyedCell(k, CellAt(db, k));
      assert CellAt(Exec(db, f, op), k).msg.None?;
    case Local(s) => LocalTame(db, s);
  }

  /** A message deleted locally stays away while an operation on it is queued, even when
      the delete falls between two statements of a delta that delivers it. */
  lemma {:induction false} StaysGone(db: Db, events: seq<Event>, k: Key)
    requires WellKeyed(db) && ValidEvents(db, events) && LockedAlong(db, events, k)
    requires k !in db.messages
    ensures k !in After(db, events).messages
    decreases |events|
  {
    if events != [] {
      EventLeavesGone(db, events[0], k);
      EventKeepsWellKeyed(db, events[0]);
      StaysGone(Occur(db, events[0]), events[1..], k);
    }
  }

  /** A message under the write-lock loses its row or any part of it only to a wipe of its
      folder or to its own vanished UID, statement by statement. */
  lemma LockedStatement(db: Db, f: Folder, op: Op, k: Key)
    requires WellKeyed(db) && ValidFolder(f) && Locked(db, k) && k in db.messages
    ensures CellAt(Exec(db, f, op), k) == CellAt(db, k)
       <==> && !(op.Wipe? && k in InFolder(db, f.account, f.path))
            && !(op.Vanish? && k == MessageKey(f.account, f.path, op.uid))
  {
    ExecAt(db, f, op, k);
    assert WellKeyedCell(k, CellAt(db, k));
  }
}
