/** The newest intention wins: a message shows what the newest pending markRead on it
    says. Which steps of a run keep that, exactly. */
module Intent {
  import opened Prelude
  import opened Text
  import opened Schema
  import opened Delta
  import opened Queue
  import opened Mutations
  import opened Runs
  import opened Json
  import Replay

  // ---- The newest pending markRead of a message ----

  predicate MarksRead(op: PendingOp, k: Key) {
    InGroup(op, k.account, k.id, "markRead")
  }

  /** The last one queued, whatever its id. */
  function Newest(q: seq<PendingOp>, k: Key): Option<PendingOp> {
    if q == [] then None
    else if MarksRead(q[|q| - 1], k) then Some(q[|q| - 1])
    else Newest(q[..|q| - 1], k)
  }

  /** Does the operation ask for read? */
  predicate Says(op: PendingOp) {
    ReadOf(op) == Some(1)
  }

  predicate Agree(a: Option<PendingOp>, b: Option<PendingOp>) {
    a.Some? && b.Some? ==> (Says(a.value) <==> Says(b.value))
  }

  predicate Shows(db: Db, k: Key)
    requires k in db.messages
  {
    Newest(db.pending, k).Some? ==> (db.messages[k].isRead <==> Says(Newest(db.pending, k).value))
  }

  ghost predicate IntentShown(db: Db) {
    forall k :: k in db.messages ==> Shows(db, k)
  }

  lemma {:induction false} NewestIn(q: seq<PendingOp>, k: Key)
    ensures Newest(q, k).Some? ==> Newest(q, k).value in q && MarksRead(Newest(q, k).value, k)
    ensures Newest(q, k).None? ==> forall op :: op in q ==> !MarksRead(op, k)
  {
    if q != [] {
      NewestIn(q[..|q| - 1], k);
      assert q == q[..|q| - 1] + [q[|q| - 1]];
    }
  }

  lemma {:induction false} NewestAppend(p: seq<PendingOp>, q: seq<PendingOp>, k: Key)
    ensures Newest(p + q, k) == if Newest(q, k).Some? then Newest(q, k) else Newest(p, k)
  {
    if q == [] {
      assert p + q == p;
    } else {
      assert (p + q)[..|p + q| - 1] == p + q[..|q| - 1];
      NewestAppend(p, q[..|q| - 1], k);
    }
  }

  function Last(g: seq<PendingOp>): Option<PendingOp> {
    if g == [] then None else Some(g[|g| - 1])
  }

  function MarksOf(q: seq<PendingOp>, k: Key): seq<PendingOp> {
    Group(q, k.account, k.id, "markRead")
  }

  lemma {:induction false} NewestIsLast(q: seq<PendingOp>, k: Key)
    ensures Newest(q, k) == Last(MarksOf(q, k))
  {
    if q != [] {
      NewestIsLast(q[..|q| - 1], k);
    }
  }

  // ---- Compaction ----

  /** The newest one compaction spares. */
  function NewestSurvivor(q: seq<PendingOp>, k: Key): Option<PendingOp> {
    Last(Filter(MarksOf(q, k), (op: PendingOp) => Survives(MarksOf(q, k), op)))
  }

  lemma OtherAccountsKept(q: seq<PendingOp>, account: string, k: Key)
    requires k.account != account
    ensures MarksOf(Compacted(q, account), k) == MarksOf(q, k)
  {
    hide Filter, ReadOf;
    var keep := (op: PendingOp) => !Cancelled(q, account, op);
    FilterCommutes(q, keep, (op: PendingOp) => InGroup(op, k.account, k.id, "markRead"));
    GroupIn(q, k.account, k.id, "markRead");
    FilterAll(MarksOf(q, k), keep);
  }

  lemma NewestCompacted(q: seq<PendingOp>, account: string, k: Key)
    ensures Newest(Compacted(q, account), k) == if k.account == account then NewestSurvivor(q, k) else Newest(q, k)
  {
    hide Cancelled, Survives, Newest, Filter;
    NewestIsLast(q, k);
    NewestIsLast(Compacted(q, account), k);
    if k.account == account {
      GroupAfterCompaction(q, account, k.id, "markRead");
    } else {
      OtherAccountsKept(q, account, k);
    }
  }

  // ---- Replay verdicts ----

  /** The verdict takes the row out of 'pending'. */
  predicate TakesOut(v: Queue.Verdict, op: PendingOp) {
    op.id == v.id && (v.Completed? || op.retryCount + 1 >= op.maxRetries)
  }

  lemma NewestAppendOne(q: seq<PendingOp>, op: PendingOp, k: Key)
    ensures Newest(q + [op], k) == if MarksRead(op, k) then Some(op) else Newest(q, k)
  {
    assert (q + [op])[..|q|] == q;
  }

  lemma WithoutLast(init: seq<PendingOp>, last: PendingOp, id: string)
    ensures Without(init + [last], id) == Without(init, id) + if last.id != id then [last] else []
  {
    assert (init + [last])[..|init|] == init;
  }

  lemma WithoutAbsent(q: seq<PendingOp>, id: string)
    requires forall op :: op in q ==> op.id != id
    ensures Without(q, id) == q
  {
    FilterAll(q, (op: PendingOp) => op.id != id);
  }

  lemma SettledNewestRow(init: seq<PendingOp>, last: PendingOp, v: Queue.Verdict, k: Key)
    requires UniqueIds(init + [last]) && last.id == v.id && last.status == Pending
    ensures Without(init + [last], v.id) == init
    ensures var after := Newest(Settle(init + [last], v), k);
            if MarksRead(last, k) && !TakesOut(v, last) then after.Some? && (Says(after.value) <==> Says(last))
            else after == Newest(init, k)
  {
    hide Settle, Without, Newest;
    var q := init + [last];
    assert q[..|q| - 1] == init && q[|q| - 1] == last;
    forall op | op in init ensures op.id != v.id {
      var i :| 0 <= i < |init| && init[i] == op;
      assert q[i] == op;
    }
    SettleLast(q, v);
    SettleAbsent(init, v);
    WithoutLast(init, last, v.id);
    WithoutAbsent(init, v.id);
    if v.FailedAt? { NewestAppendOne(init, FailedOnce(last, v.now, v.error), k); }
  }

  lemma OtherIds(init: seq<PendingOp>, last: PendingOp, op: PendingOp)
    requires UniqueIds(init + [last]) && op in init
    ensures op.id != last.id
  {
    var i :| 0 <= i < |init| && init[i] == op;
    assert (init + [last])[i] == op && (init + [last])[|init|] == last;
  }

  /** The newest one after a verdict: the next newest if it was taken out, else the same
      (with a failure noted, maybe). */
  lemma {:induction false} NewestSettled(q: seq<PendingOp>, v: Queue.Verdict, k: Key)
    requires UniqueIds(q) && forall op :: op in q && op.id == v.id ==> op.status == Pending
    ensures var n, after := Newest(q, k), Newest(Settle(q, v), k);
            if n.Some? && TakesOut(v, n.value) then after == Newest(Without(q, v.id), k)
            else (after.Some? <==> n.Some?) && Agree(after, n)
  {
    hide Settle, Without, Newest, MarksRead, Says;
    if q == [] {
      SettleAbsent(q, v);
      NewestIn(q, k);
    } else {
      var init, last := q[..|q| - 1], q[|q| - 1];
      assert q == init + [last] && last in q;
      forall op | op in init ensures op in q {}
      NewestAppendOne(init, last, k);
      NewestIn(init, k);
      if last.id == v.id {
        SettledNewestRow(init, last, v, k);
        if Newest(init, k).Some? { OtherIds(init, last, Newest(init, k).value); }
      } else {
        SettleLast(q, v);
        NewestAppendOne(Settle(init, v), last, k);
        WithoutLast(init, last, v.id);
        NewestAppendOne(Without(init, v.id), last, k);
        NewestSettled(init, v, k);
      }
    }
  }

  // ---- New rows ----

  lemma NewestOfRows(account: string, op: MutationOp, targets: seq<string>, stamps: seq<Stamp>, k: Key)
    requires |stamps| <= |targets|
    ensures var n := Newest(Rows(account, op, targets, stamps), k);
            && (n.Some? <==> op.MarkRead? && k.account == account && k.id in targets[..|stamps|])
            && (n.Some? ==> (Says(n.value) <==> op.read))
  {
    var rows, queued := Rows(account, op, targets, stamps), targets[..|stamps|];
    OpTypesDiffer();
    NewestIn(rows, k);
    var n := Newest(rows, k);
    if n.Some? {
      var i :| 0 <= i < |rows| && rows[i] == n.value;
      assert queued[i] == k.id;
    } else if op.MarkRead? && k.account == account && k.id in queued {
      var i :| 0 <= i < |queued| && queued[i] == k.id;
      assert rows[i] in rows && MarksRead(rows[i], k);
    }
  }

  // ---- Which steps keep the intention, exactly ----

  /** A local markRead leaves no message shown otherwise than its newest row says: the
      messages it queues a row for are its thread's or read that way already, and its
      thread's message has a row queued or no newest row that disagrees. */
  ghost predicate MarkHarmless(db: Db, account: string, op: MutationOp, queued: seq<string>)
    requires op.MarkRead?
  {
    forall k :: k in db.messages && k.account == account ==>
      if k.id in queued then k.id == op.threadId || db.messages[k].isRead == op.read
      else k.id == op.threadId && Newest(db.pending, k).Some? ==> (Says(Newest(db.pending, k).value) <==> op.read)
  }

  /** What a step must not do: take the newest row of a message away while the next
      newest says otherwise, or write a read state its newest row contradicts. */
  ghost predicate Harmless(db: Db, s: Step)
    requires Valid(db, s)
  {
    match s
    case Mutate(account, op, sendKey, stamps) =>
      op.MarkRead? ==> MarkHarmless(db, account, op, Queued(op, sendKey, stamps))
    case MarkThreadRead(t) =>
      t in db.messages && Newest(db.pending, t).Some? ==> Says(Newest(db.pending, t).value)
    case Compact(account) =>
      forall k :: k in db.messages && k.account == account ==>
        Agree(Newest(db.pending, k), NewestSurvivor(db.pending, k))
    case Verdict(v) =>
      forall k :: k in db.messages && Newest(db.pending, k).Some? && TakesOut(v, Newest(db.pending, k).value) ==>
        Agree(Newest(db.pending, k), Newest(Without(db.pending, v.id), k))
    case _ => true
  }

  lemma ReadKeptShows(db: Db, after: Db)
    requires IntentShown(db) && ReadKept(db, after) && after.pending == db.pending
    ensures IntentShown(after)
  {
    forall k | k in after.messages ensures Shows(after, k) {
      assert Shows(db, k);
    }
  }

  lemma DeltaShows(db: Db, f: Folder, d: FolderDelta)
    requires Inv(db) && ValidDelta(f, d) && IntentShown(db)
    ensures IntentShown(ApplyDelta(db, f, d))
  {
    var after := ApplyDelta(db, f, d);
    DeltaKeepsQueue(db, f, d);
    forall k | k in after.messages ensures Shows(after, k) {
      NewestIn(db.pending, k);
      if Newest(db.pending, k).Some? {
        LockedKept(db, f, d, k);
        assert Shows(db, k);
      }
    }
  }

  lemma MarkReadIs(db: Db, account: string, threadId: string, read: bool, k: Key)
    requires Inv(db)
    ensures var after := MarkReadLocally(db, account, threadId, read);
            && (k in after.messages <==> k in db.messages)
            && (k in db.messages ==>
                  after.messages[k].isRead == if k == Key(account, threadId) then read else db.messages[k].isRead)
  {
    assert WellKeyedCell(k, CellAt(db, k)) && CoherentCell(CellAt(db, k));
  }

  lemma MarkShows(db: Db, account: string, op: MutationOp, sendKey: string, stamps: seq<Stamp>)
    requires Inv(db) && IntentShown(db) && op.MarkRead? && |stamps| <= |Targets(op, sendKey)|
    ensures IntentShown(Mutated(db, account, op, sendKey, stamps))
       <==> MarkHarmless(db, account, op, Queued(op, sendKey, stamps))
  {
    hide Newest, Says, Rows, ReadCell;
    var after, queued := Mutated(db, account, op, sendKey, stamps), Queued(op, sendKey, stamps);
    forall k ensures k in after.messages <==> k in db.messages
             ensures k in db.messages ==> (Shows(after, k) <==>
               k.account == account ==>
                 if k.id in queued then k.id == op.threadId || db.messages[k].isRead == op.read
                 else k.id == op.threadId && Newest(db.pending, k).Some? ==>
                     (Says(Newest(db.pending, k).value) <==> op.read))
    {
      MarkReadIs(db, account, op.threadId, op.read, k);
      NewestOfRows(account, op, Targets(op, sendKey), stamps, k);
      NewestAppend(db.pending, Rows(account, op, Targets(op, sendKey), stamps), k);
      assert k in db.messages ==> Shows(db, k);
    }
  }

  lemma MutateShows(db: Db, account: string, op: MutationOp, sendKey: string, stamps: seq<Stamp>)
    requires Inv(db) && IntentShown(db) && !op.MarkRead? && |stamps| <= |Targets(op, sendKey)|
    ensures IntentShown(Mutated(db, account, op, sendKey, stamps))
  {
    hide WriteLocally, Rows;
    var after := Mutated(db, account, op, sendKey, stamps);
    WriteKeepsInv(db, account, op);
    WritesKeepQueue(db, account, op);
    forall k | k in after.messages ensures Shows(after, k) {
      NewestOfRows(account, op, Targets(op, sendKey), stamps, k);
      NewestAppend(db.pending, Rows(account, op, Targets(op, sendKey), stamps), k);
      assert Shows(db, k);
    }
  }

  lemma SurvivorIsThere(q: seq<PendingOp>, k: Key)
    ensures NewestSurvivor(q, k).Some? ==> Newest(q, k).Some?
  {
    NewestIsLast(q, k);
  }

  lemma CompactShows(db: Db, account: string)
    requires IntentShown(db)
    ensures IntentShown(db.(pending := Compacted(db.pending, account))) <==> Harmless(db, Compact(account))
  {
    hide Newest, NewestSurvivor, Compacted, Says;
    var after := db.(pending := Compacted(db.pending, account));
    forall k | k in db.messages
      ensures Shows(after, k) <==> k.account == account ==> Agree(Newest(db.pending, k), NewestSurvivor(db.pending, k))
    {
      NewestCompacted(db.pending, account, k);
      assert Shows(db, k);
      if k.account == account { SurvivorIsThere(db.pending, k); }
    }
  }

  lemma VerdictShows(db: Db, v: Queue.Verdict)
    requires IntentShown(db) && UniqueIds(db.pending) && IsPending(db.pending, v.id)
    ensures IntentShown(db.(pending := Settle(db.pending, v))) <==> Harmless(db, Verdict(v))
  {
    hide Newest, Settle, Without, Says;
    var q, after := db.pending, db.(pending := Settle(db.pending, v));
    var x :| x in q && x.id == v.id && x.status == Pending;
    forall op | op in q && op.id == v.id ensures op.status == Pending { SameIdSameOp(q, x, op); }
    forall k | k in db.messages
      ensures Shows(after, k) <==>
        (Newest(q, k).Some? && TakesOut(v, Newest(q, k).value) ==> Agree(Newest(q, k), Newest(Without(q, v.id), k)))
    {
      NewestSettled(q, v, k);
      assert Shows(db, k);
    }
  }

  lemma MarkThreadShows(db: Db, t: Key)
    requires Inv(db) && IntentShown(db)
    ensures IntentShown(MarkReadLocally(db, t.account, t.id, true)) <==> Harmless(db, MarkThreadRead(t))
  {
    hide Newest, Says;
    var after := MarkReadLocally(db, t.account, t.id, true);
    assert Key(t.account, t.id) == t;
    forall k ensures k in after.messages <==> k in db.messages
             ensures k in db.messages ==>
               (Shows(after, k) <==> k == t && Newest(db.pending, t).Some? ==> Says(Newest(db.pending, t).value))
    {
      MarkReadIs(db, t.account, t.id, true, k);
      assert k in db.messages ==> Shows(db, k);
    }
  }

  /** From a store that shows every intention, a step leads to such a store if and only
      if it is harmless; deltas, wipes, body and folder steps always are. */
  lemma StepShowsIntent(db: Db, s: Step)
    requires Inv(db) && UniqueIds(db.pending) && IntentShown(db) && Valid(db, s)
    ensures IntentShown(Apply(db, s)) <==> Harmless(db, s)
  {
    hide IntentShown, MarkHarmless;
    StepKeepsInv(db, s);
    match s
    case SyncDelta(f, d) => DeltaShows(db, f, d);
    case Mutate(account, op, sendKey, stamps) =>
      if op.MarkRead? {
        MarkShows(db, account, op, sendKey, stamps);
      } else {
        MutateShows(db, account, op, sendKey, stamps);
      }
    case Compact(account) => CompactShows(db, account);
    case Verdict(v) => VerdictShows(db, v);
    case MarkThreadRead(t) => MarkThreadShows(db, t);
    case _ => ReadKeptShows(db, Apply(db, s));
  }

  // ---- Whole runs ----

  ghost predicate HarmlessRun(db: Db, steps: seq<Step>)
    requires ValidRun(db, steps)
    decreases |steps|
  {
    steps == [] || (Harmless(db, steps[0]) && HarmlessRun(Apply(db, steps[0]), steps[1..]))
  }

  ghost predicate ShownThroughout(db: Db, steps: seq<Step>)
    requires ValidRun(db, steps)
    decreases |steps|
  {
    IntentShown(db) && (steps != [] ==> ShownThroughout(Apply(db, steps[0]), steps[1..]))
  }

  /** In a run of any steps every message with pending markRead rows shows the newest
      one's value all along, if and only if every step is harmless. */
  lemma {:induction false} NewestIntentionWins(db: Db, steps: seq<Step>)
    requires Inv(db) && QueueInv(db.pending) && IntentShown(db) && ValidRun(db, steps)
    ensures ShownThroughout(db, steps) <==> HarmlessRun(db, steps)
    decreases |steps|
  {
    hide Harmless, IntentShown;
    if steps != [] {
      var after := Apply(db, steps[0]);
      StepShowsIntent(db, steps[0]);
      StepKeepsInv(db, steps[0]);
      StepKeepsQueueInv(db, steps[0]);
      if IntentShown(after) {
        NewestIntentionWins(after, steps[1..]);
      }
    }
  }

  // ---- Steps that are always harmless ----

  /** No earlier markRead of the same message is pending, or the row stays. */
  ghost predicate InOrder(q: seq<PendingOp>, v: Queue.Verdict) {
    forall op :: op in q && op.id == v.id && TakesOut(v, op) && op.opType == "markRead" ==>
      MarksOf(q, Key(op.account, op.resource)) != [] && MarksOf(q, Key(op.account, op.resource))[0] == op
  }

  /** A client that queues one row for each thread it marks, replays the markReads of a
      message in order, and whose ids grow within the markReads of a message. */
  ghost predicate Deliberate(db: Db, s: Step)
    requires Valid(db, s)
  {
    match s
    case Mutate(_, op, sendKey, stamps) => op.MarkRead? ==> Queued(op, sendKey, stamps) == [op.threadId]
    case MarkThreadRead(_) => false
    case Compact(account) =>
      forall k :: k in db.messages && k.account == account ==> IdsIncrease(MarksOf(db.pending, k))
    case Verdict(v) => InOrder(db.pending, v)
    case _ => true
  }

  lemma CompactionInOrder(q: seq<PendingOp>, k: Key)
    requires (forall op :: op in q ==> Encoded(op)) && IdsIncrease(MarksOf(q, k))
    ensures Agree(Newest(q, k), NewestSurvivor(q, k))
  {
    hide Survives, Filter, IdsIncrease, Encoded, ReadOf;
    var g := MarksOf(q, k);
    NewestIsLast(q, k);
    GroupIn(q, k.account, k.id, "markRead");
    forall i | 0 <= i < |g| ensures ReadOf(g[i]) == Some(0) || ReadOf(g[i]) == Some(1) {
      assert g[i] in g;
      EncodedBit(g[i]);
    }
    EndsMeet(g);
    EndsSurvive(g);
    var z, t := LeadLen(g), TrailStart(g);
    var s := g[..z] + g[t..];
    if t < |g| {
      assert s[|s| - 1] == g[|g| - 1];
    } else if z > 0 {
      assert s[|s| - 1] == g[z - 1];
    }
  }

  lemma VerdictInOrder(q: seq<PendingOp>, v: Queue.Verdict, k: Key)
    requires UniqueIds(q) && InOrder(q, v)
    requires Newest(q, k).Some? && TakesOut(v, Newest(q, k).value)
    ensures Newest(Without(q, v.id), k).None?
  {
    hide Newest;
    var g, n := MarksOf(q, k), Newest(q, k).value;
    NewestIn(q, k);
    NewestIsLast(q, k);
    assert Key(n.account, n.resource) == k;
    NewestIn(Without(q, v.id), k);
    FilterIn(q, (op: PendingOp) => op.id != v.id);
    GroupIn(q, k.account, k.id, "markRead");
    FilterKeepsOrder(q, (op: PendingOp) => InGroup(op, k.account, k.id, "markRead"));
    forall o | o in q && MarksRead(o, k) ensures o.id == v.id {
      assert o in g;
      var i :| 0 <= i < |g| && g[i] == o;
      assert g[0] == n && g[|g| - 1] == n;
    }
  }

  lemma DeliberateIsHarmless(db: Db, s: Step)
    requires QueueInv(db.pending) && Valid(db, s) && Deliberate(db, s)
    ensures Harmless(db, s)
  {
    hide Newest, NewestSurvivor, Encoded, MarksOf, IdsIncrease, InOrder;
    match s
    case Mutate(_, op, sendKey, stamps) =>
      assert op.MarkRead? ==> op.threadId in Queued(op, sendKey, stamps);
    case Compact(account) =>
      forall k | k in db.messages && k.account == account
        ensures Agree(Newest(db.pending, k), NewestSurvivor(db.pending, k))
      {
        CompactionInOrder(db.pending, k);
      }
    case Verdict(v) =>
      forall k | k in db.messages && Newest(db.pending, k).Some? && TakesOut(v, Newest(db.pending, k).value)
        ensures Agree(Newest(db.pending, k), Newest(Without(db.pending, v.id), k))
      {
        VerdictInOrder(db.pending, v, k);
      }
    case _ =>
  }

  ghost predicate DeliberateRun(db: Db, steps: seq<Step>)
    requires ValidRun(db, steps)
    decreases |steps|
  {
    steps == [] || (Deliberate(db, steps[0]) && DeliberateRun(Apply(db, steps[0]), steps[1..]))
  }

  /** So in every run of such a client the newest intention wins. */
  lemma {:induction false} DeliberateRunsShowIntent(db: Db, steps: seq<Step>)
    requires Inv(db) && QueueInv(db.pending) && IntentShown(db) && ValidRun(db, steps) && DeliberateRun(db, steps)
    ensures ShownThroughout(db, steps) && IntentShown(RunSteps(db, steps))
    decreases |steps|
  {
    hide Harmless, IntentShown, Deliberate;
    if steps != [] {
      DeliberateIsHarmless(db, steps[0]);
      StepShowsIntent(db, steps[0]);
      StepKeepsInv(db, steps[0]);
      StepKeepsQueueInv(db, steps[0]);
      DeliberateRunsShowIntent(Apply(db, steps[0]), steps[1..]);
    }
  }

  // ---- Overtaking ----

  function MarkRow(id: string, k: Key, read: bool): PendingOp {
    NewOp(id, k.account, "markRead", k.id, EncodeParams(MarkRead(k.id, [k.id], "INBOX", [7], read)), 0)
  }

  /** One message, marked unread and then read, both rows still queued. */
  function TwoMarks(account: string): Db {
    var k := MessageKey(account, "INBOX", 7);
    var m := RemoteMessage(7, "INBOX", None, None, None, None, None, None, None, None, None, None, None, 0,
                           true, false, None, 0, None, None, None, false, None, None, None);
    Db(map[k := UpsertedMessage(None, account, m)], map[k := UpsertedThread(None, m)], {}, map[],
       [MarkRow("a", k, false), MarkRow("b", k, true)], map[], map[])
  }

  lemma TwoMarksInv(account: string)
    requires |account| == ACCOUNT_ID_LEN
    ensures Inv(TwoMarks(account)) && QueueInv(TwoMarks(account).pending)
  {
    var db, k := TwoMarks(account), MessageKey(account, "INBOX", 7);
    InvMeaning(db);
    forall op | op in db.pending ensures Encoded(op) {
      var read := op == MarkRow("b", k, true);
      assert op.params == EncodeParams(MarkRead(k.id, [k.id], "INBOX", [7], read));
    }
  }

  lemma MarkRowIs(id: string, k: Key, read: bool)
    ensures var op := MarkRow(id, k, read);
            && op.id == id && MarksRead(op, k) && (Says(op) <==> read)
            && ReadOf(op) == Some(if read then 1 else 0) && Replay.Decodes(op)
            && op.retryCount == 0 && op.maxRetries == DEFAULT_MAX_RETRIES && op.createdAt == 0 && op.nextRetryAt.None?
  {
    RecoveredOp(MarkRead(k.id, [k.id], "INBOX", [7], read), k.id);
  }

  lemma TwoMarksNewest(k: Key)
    ensures Newest([MarkRow("a", k, false), MarkRow("b", k, true)], k) == Some(MarkRow("b", k, true))
    ensures Says(MarkRow("b", k, true))
  {
    hide MarksRead, Newest, Says, EncodeParams, Replay.Decodes;
    var a, b := MarkRow("a", k, false), MarkRow("b", k, true);
    MarkRowIs("b", k, true);
    assert [a, b] == [a] + [b];
    NewestAppendOne([a], b, k);
  }

  /** Compaction leaves an off-on pair alone. */
  lemma TwoMarksCompacted(k: Key)
    ensures var q := [MarkRow("a", k, false), MarkRow("b", k, true)];
            Compacted(q, k.account) == q
  {
    var a, b := MarkRow("a", k, false), MarkRow("b", k, true);
    var q := [a, b];
    MarkRowIs("a", k, false);
    MarkRowIs("b", k, true);
    hide ReadOf, EncodeParams, Replay.Decodes;
    assert !Less("b", "a");
    forall op | op in q ensures !Cancelled(q, k.account, op) {
      forall other | other in q ensures !Cancels(op, other, k.account) && !Cancels(other, op, k.account) {
        assert (op == a || op == b) && (other == a || other == b);
      }
    }
    FilterAll(q, (op: PendingOp) => !Cancelled(q, k.account, op));
  }

  /** A dequeue may return both rows, the older one first. */
  lemma TwoMarksDequeued(k: Key, now: int)
    ensures var q := [MarkRow("a", k, false), MarkRow("b", k, true)];
            IsDequeue(DueSet(q, k.account, now), 50, q)
  {
    hide ReadOf, EncodeParams, Replay.Decodes, Says;
    var a, b := MarkRow("a", k, false), MarkRow("b", k, true);
    MarkRowIs("a", k, false);
    MarkRowIs("b", k, true);
    assert a != b by { assert "a"[0] != "b"[0]; }
    assert DueSet([a, b], k.account, now) == {a, b};
  }

  lemma FailureKeepsMark(op: PendingOp, now: int, error: string, k: Key)
    requires MarksRead(op, k) && op.retryCount + 1 < op.maxRetries
    ensures MarksRead(FailedOnce(op, now, error), k) && (Says(FailedOnce(op, now, error)) <==> Says(op))
  {}

  lemma FailureKeepsId(op: PendingOp, now: int, error: string)
    ensures FailedOnce(op, now, error).id == op.id
  {}

  /** The first row refused, the second accepted: the first stays with its failure noted. */
  lemma FirstRefused(a: PendingOp, b: PendingOp, answer: PendingOp -> Replay.Answer)
    requires a.id != b.id && Replay.Decodes(a) && Replay.Decodes(b)
    requires answer(a).Refused? && answer(b).Accepted?
    ensures Replay.Settled([a, b], [a, b], answer) == [FailedOnce(a, answer(a).now, answer(a).error)]
  {
    hide Replay.Decodes, Settle, FailedOnce;
    var q, v := [a, b], FailedAt(a.id, answer(a).now, answer(a).error);
    var left := FailedOnce(a, v.now, v.error);
    assert q[..1] == [a] && [a][..0] == [];
    SettleLast(q, v);
    SettleLast([a], v);
    SettleAbsent([], v);
    assert Settle(q, v) == [left, b] == Replay.Settled(q, [a], answer);
    assert left.id == a.id by { FailureKeepsId(a, v.now, v.error); }
    assert [left, b][..1] == [left];
    SettleLast([left, b], Completed(b.id));
    SettleAbsent([left], Completed(b.id));
    assert Replay.Settled(q, q, answer) == Settle([left, b], Completed(b.id));
  }

  lemma TwoMarksSettled(k: Key, answer: PendingOp -> Replay.Answer)
    requires answer(MarkRow("a", k, false)).Refused? && answer(MarkRow("b", k, true)).Accepted?
    ensures var q := [MarkRow("a", k, false), MarkRow("b", k, true)];
            var n := Newest(Replay.Settled(q, q, answer), k);
            n.Some? && !Says(n.value)
  {
    hide MarksRead, Newest, Says, ReadOf, MarkRow, FailedOnce, Replay.Decodes, Replay.Settled;
    var a, b := MarkRow("a", k, false), MarkRow("b", k, true);
    MarkRowIs("a", k, false);
    MarkRowIs("b", k, true);
    assert "a"[0] != "b"[0];
    FirstRefused(a, b, answer);
    FailureKeepsMark(a, answer(a).now, answer(a).error, k);
    var left := FailedOnce(a, answer(a).now, answer(a).error);
    NewestAppendOne([], left, k);
    assert [] + [left] == [left];
  }

  lemma KeyAccount(account: string)
    ensures MessageKey(account, "INBOX", 7).account == account
  {}

  /** A round in which the server refuses the older row and accepts the newer one leaves
      a message shown as read that its queue will mark unread. */
  lemma OvertakingLosesIntent(account: string, now: int, answer: PendingOp -> Replay.Answer)
    requires |account| == ACCOUNT_ID_LEN
    requires var k := MessageKey(account, "INBOX", 7);
             answer(MarkRow("a", k, false)).Refused? && answer(MarkRow("b", k, true)).Accepted?
    ensures var db := TwoMarks(account);
            var q := db.pending;
            && Inv(db) && QueueInv(q) && IntentShown(db)
            && Compacted(q, account) == q && IsDequeue(DueSet(q, account, now), 50, q)
            && !IntentShown(db.(pending := Replay.Settled(q, q, answer)))
  {
    hide Inv, QueueInv, Newest, Says, Compacted, IsDequeue, DueSet, MarkRow;
    hide Replay.Settled, MessageKey, UpsertedThread;
    var db, k := TwoMarks(account), MessageKey(account, "INBOX", 7);
    assert k.account == account by { KeyAccount(account); }
    TwoMarksInv(account);
    TwoMarksNewest(k);
    TwoMarksCompacted(k);
    TwoMarksDequeued(k, now);
    TwoMarksSettled(k, answer);
    var after := db.(pending := Replay.Settled(db.pending, db.pending, answer));
    assert k in after.messages && !Shows(after, k);
  }
}
