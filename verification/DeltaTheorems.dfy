/** What a whole folder delta does to each message, and what follows from it:
    crash-retry convergence, the write-lock frame, folder convergence and the
    store invariant. */
module DeltaTheorems {
  import opened Prelude
  import opened Text
  import opened Schema
  import opened Delta

  // ---- Meaning of a delta, message by message ----

  /** The deliveries of one message in a delta, in order. */
  function Deliveries(d: FolderDelta, uid: u32): seq<RemoteMessage> {
    Filter(d.added + d.updated, (m: RemoteMessage) => m.uid == uid)
  }

  /** The last flag change a delta carries for the message. */
  function LastFlags(us: seq<FlagUpdate>, uid: u32): Option<FlagUpdate> {
    if us == [] then None
    else if us[|us| - 1].uid == uid then Some(us[|us| - 1])
    else LastFlags(us[..|us| - 1], uid)
  }

  function FlagCell(c: Cell, u: FlagUpdate): Cell {
    FlaggedThread(FlaggedMsg(c, u), u)
  }

  function WithFlags(c: Cell, u: Option<FlagUpdate>): Cell {
    if u.None? then c else FlagCell(c, u.value)
  }

  /** The last delivery wins, except that a missing row keeps the first one's
      insert-only columns. */
  function Delivered(f: Folder, ms: seq<RemoteMessage>, c: Cell): Cell {
    if ms == [] then c
    else UpsertedCell(f.account, f.labelId, ms[|ms| - 1], UpsertedCell(f.account, f.labelId, ms[0], c))
  }

  /** The cell of message `uid` after the whole delta, in closed form. */
  function Outcome(f: Folder, uid: u32, locked: bool, d: FolderDelta, c: Cell): Cell {
    if uid in d.vanishedUids then EMPTY
    else
      var base := if d.uidValidityChanged then EMPTY else c;
      var delivered := if locked then base else Delivered(f, Deliveries(d, uid), base);
      var swept := if d.vanishedUids == [] then delivered else SweptCell(delivered);
      if locked then swept else WithFlags(swept, LastFlags(d.flagUpdates, uid))
  }

  lemma {:induction false} ActAppend(f: Folder, k: Key, locked: bool, p: seq<Op>, q: seq<Op>, c: Cell)
    ensures ActAll(f, k, locked, p + q, c) == ActAll(f, k, locked, q, ActAll(f, k, locked, p, c))
  {
    if q == [] {
      assert p + q == p;
    } else {
      assert (p + q)[..|p + q| - 1] == p + q[..|q| - 1];
      ActAppend(f, k, locked, p, q[..|q| - 1], c);
    }
  }

  lemma ActOne(f: Folder, k: Key, locked: bool, op: Op, c: Cell)
    ensures ActAll(f, k, locked, [op], c) == Act(f, k, locked, op, c)
  {
    assert [op][..0] == [];
  }

  lemma ActTwo(f: Folder, k: Key, locked: bool, op: Op, op': Op, c: Cell)
    ensures ActAll(f, k, locked, [op, op'], c) == Act(f, k, locked, op', Act(f, k, locked, op, c))
  {
    ActOne(f, k, locked, op, c);
    assert [op, op'][..1] == [op];
  }

  lemma {:induction false} ActAllKeepsWellKeyed(f: Folder, k: Key, locked: bool, ops: seq<Op>, c: Cell)
    requires WellKeyedCell(k, c) && ValidFolder(f)
    ensures WellKeyedCell(k, ActAll(f, k, locked, ops, c))
  {
    if ops != [] {
      ActAllKeepsWellKeyed(f, k, locked, ops[..|ops| - 1], c);
      ActKeepsWellKeyed(f, k, locked, ops[|ops| - 1], ActAll(f, k, locked, ops[..|ops| - 1], c));
    }
  }

  /** A later delivery overwrites what an earlier one wrote to an existing row. */
  lemma DeliveredTwice(f: Folder, m: RemoteMessage, n: RemoteMessage, c: Cell)
    requires c.msg.Some? && c.thread.Some? && m.uid == n.uid && m.folder == n.folder
    ensures UpsertedCell(f.account, f.labelId, n, UpsertedCell(f.account, f.labelId, m, c))
        == UpsertedCell(f.account, f.labelId, n, c)
  {}

  lemma SameUid(f: Folder, uid: u32, uid': u32)
    requires MessageKey(f.account, f.path, uid) == MessageKey(f.account, f.path, uid')
    ensures uid == uid'
  {
    MessageIdInjective(f.account, f.path, uid, f.account, f.path, uid');
  }

  lemma DeliveredOnce(f: Folder, m: RemoteMessage, c: Cell)
    ensures UpsertedCell(f.account, f.labelId, m, UpsertedCell(f.account, f.labelId, m, c))
        == UpsertedCell(f.account, f.labelId, m, c)
  {}

  lemma DeliveredNext(f: Folder, uid: u32, init: seq<RemoteMessage>, last: RemoteMessage, c: Cell)
    requires last.uid == uid && last.folder == f.path
    requires forall m :: m in init ==> m.folder == f.path
    ensures var p := (m: RemoteMessage) => m.uid == uid;
            UpsertedCell(f.account, f.labelId, last, Delivered(f, Filter(init, p), c))
                == Delivered(f, Filter(init, p) + [last], c)
  {
    hide Filter;
    var p := (m: RemoteMessage) => m.uid == uid;
    var hits := Filter(init, p);
    FilterIn(init, p);
    if hits != [] {
      assert hits[0] in hits && hits[|hits| - 1] in hits;
      DeliveredTwice(f, hits[|hits| - 1], last, UpsertedCell(f.account, f.labelId, hits[0], c));
    } else {
      DeliveredOnce(f, last, c);
    }
  }

  lemma {:induction false} UpsertsOutcome(f: Folder, uid: u32, locked: bool, ms: seq<RemoteMessage>, c: Cell)
    requires forall m :: m in ms ==> m.folder == f.path
    ensures ActAll(f, MessageKey(f.account, f.path, uid), locked, Upserts(ms), c)
         == if locked then c else Delivered(f, Filter(ms, (m: RemoteMessage) => m.uid == uid), c)
  {
    if ms != [] {
      var init, last := ms[..|ms| - 1], ms[|ms| - 1];
      assert last in ms;
      assert Upserts(ms)[..|ms| - 1] == Upserts(init);
      UpsertsOutcome(f, uid, locked, init, c);
      if !locked && last.uid == uid {
        DeliveredNext(f, uid, init, last, c);
      } else if !locked && MessageKey(f.account, f.path, uid) == MessageKey(f.account, last.folder, last.uid) {
        SameUid(f, uid, last.uid);
      }
    }
  }

  lemma {:induction false} VanishesOutcome(f: Folder, uid: u32, locked: bool, uids: seq<u32>, c: Cell)
    ensures ActAll(f, MessageKey(f.account, f.path, uid), locked, Vanishes(uids), c)
         == if uid in uids then c.(msg := None, body := None) else c
  {
    if uids != [] {
      var init, last := uids[..|uids| - 1], uids[|uids| - 1];
      assert uids == init + [last];
      assert Vanishes(uids)[..|uids| - 1] == Vanishes(init);
      VanishesOutcome(f, uid, locked, init, c);
      if MessageKey(f.account, f.path, uid) == MessageKey(f.account, f.path, last) {
        SameUid(f, uid, last);
      }
    }
  }

  lemma FlagCellTwice(c: Cell, u: FlagUpdate, v: FlagUpdate)
    ensures FlagCell(FlagCell(c, u), v) == FlagCell(c, v)
  {}

  lemma {:induction false} FlagsOutcome(f: Folder, uid: u32, locked: bool, us: seq<FlagUpdate>, c: Cell)
    ensures ActAll(f, MessageKey(f.account, f.path, uid), locked, FlagOps(us), c)
         == if locked then c else WithFlags(c, LastFlags(us, uid))
  {
    if us != [] {
      var k := MessageKey(f.account, f.path, uid);
      var init, last := us[..|us| - 1], us[|us| - 1];
      FlagsOutcome(f, uid, locked, init, c);
      var mid := ActAll(f, k, locked, FlagOps(init), c);
      ActAppend(f, k, locked, FlagOps(init), [SetMessageFlags(last), SetThreadFlags(last)], c);
      ActTwo(f, k, locked, SetMessageFlags(last), SetThreadFlags(last), mid);
      if last.uid == uid {
        if LastFlags(init, uid).Some? { FlagCellTwice(c, LastFlags(init, uid).value, last); }
      } else if k == MessageKey(f.account, f.path, last.uid) {
        SameUid(f, uid, last.uid);
      }
    }
  }

  /** The phases of a delta in sequence. */
  lemma PhaseByPhase(f: Folder, k: Key, locked: bool, d: FolderDelta, c: Cell)
    ensures ActAll(f, k, locked, Program(d), c)
         == ActAll(f, k, locked, FlagOps(d.flagUpdates),
              ActAll(f, k, locked, SweepPhase(d),
                ActAll(f, k, locked, VanishPhase(d),
                  ActAll(f, k, locked, UpsertPhase(d),
                    ActAll(f, k, locked, WipePhase(d), c)))))
  {
    var w, u, v, s := WipePhase(d), UpsertPhase(d), VanishPhase(d), SweepPhase(d);
    ActAppend(f, k, locked, w + u + v + s, FlagOps(d.flagUpdates), c);
    ActAppend(f, k, locked, w + u + v, s, c);
    ActAppend(f, k, locked, w + u, v, c);
    ActAppend(f, k, locked, w, u, c);
  }

  lemma WipedInside(f: Folder, uid: u32, locked: bool, c: Cell)
    requires WellKeyedCell(MessageKey(f.account, f.path, uid), c)
    ensures Act(f, MessageKey(f.account, f.path, uid), locked, Wipe, c) == EMPTY
  {
    if c.msg.Some? {
      MessageIdInjective(f.account, f.path, uid, f.account, c.msg.value.imapFolder, c.msg.value.imapUid);
    }
  }

  lemma WipeOutcome(f: Folder, uid: u32, locked: bool, d: FolderDelta, c: Cell)
    requires WellKeyedCell(MessageKey(f.account, f.path, uid), c)
    ensures ActAll(f, MessageKey(f.account, f.path, uid), locked, WipePhase(d), c)
        == if d.uidValidityChanged then EMPTY else c
  {
    WipedInside(f, uid, locked, c);
    ActOne(f, MessageKey(f.account, f.path, uid), locked, Wipe, c);
  }

  lemma SweepOutcome(f: Folder, k: Key, locked: bool, d: FolderDelta, c: Cell)
    requires k.account == f.account
    ensures ActAll(f, k, locked, SweepPhase(d), c) == if d.vanishedUids == [] then c else SweptCell(c)
  {
    ActOne(f, k, locked, Sweep, c);
  }

  /** The delta's statements have exactly the effect `Outcome` describes on every
      message of the folder: batches, duplicates and orders included. */
  lemma ProgramOutcome(f: Folder, uid: u32, locked: bool, d: FolderDelta, c: Cell)
    requires ValidDelta(f, d)
    requires WellKeyedCell(MessageKey(f.account, f.path, uid), c)
    ensures ActAll(f, MessageKey(f.account, f.path, uid), locked, Program(d), c) == Outcome(f, uid, locked, d, c)
  {
    var k := MessageKey(f.account, f.path, uid);
    hide ActAll, Program, MessageId;
    PhaseByPhase(f, k, locked, d, c);
    var c1 := if d.uidValidityChanged then EMPTY else c;
    WipeOutcome(f, uid, locked, d, c);
    UpsertsOutcome(f, uid, locked, d.added + d.updated, c1);
    var c2 := if locked then c1 else Delivered(f, Deliveries(d, uid), c1);
    VanishesOutcome(f, uid, locked, d.vanishedUids, c2);
    var c3 := if uid in d.vanishedUids then c2.(msg := None, body := None) else c2;
    var c4 := if d.vanishedUids == [] then c3 else SweptCell(c3);
    SweepOutcome(f, k, locked, d, c3);
    FlagsOutcome(f, uid, locked, d.flagUpdates, c4);
  }

  /** Keys that no UID of the folder spells. */
  ghost predicate Outside(f: Folder, k: Key) {
    forall uid: u32 :: k != MessageKey(f.account, f.path, uid)
  }

  lemma OutsideStep(f: Folder, k: Key, locked: bool, op: Op, c: Cell)
    requires Outside(f, k) && WellKeyedCell(k, c) && ValidOp(f, op)
    ensures Act(f, k, locked, op, c) == if k.account == f.account && (op.Wipe? || op.Sweep?) then SweptCell(c) else c
  {
    match op
    case Wipe =>
      assert c.msg.Some? ==> k != MessageKey(f.account, f.path, c.msg.value.imapUid);
    case Upsert(m) => assert k != MessageKey(f.account, f.path, m.uid);
    case Vanish(uid) => assert k != MessageKey(f.account, f.path, uid);
    case Sweep =>
    case SetMessageFlags(u) => assert k != MessageKey(f.account, f.path, u.uid);
    case SetThreadFlags(u) => assert k != MessageKey(f.account, f.path, u.uid);
  }

  /** Outside the folder a delta at most sweeps an orphan thread. */
  lemma {:induction false} OutsideRun(f: Folder, k: Key, locked: bool, ops: seq<Op>, c: Cell)
    requires Outside(f, k) && WellKeyedCell(k, c) && ValidFolder(f)
    requires forall op :: op in ops ==> ValidOp(f, op)
    ensures ActAll(f, k, locked, ops, c)
         == if k.account == f.account && (Wipe in ops || Sweep in ops) then SweptCell(c) else c
  {
    if ops != [] {
      var init, last := ops[..|ops| - 1], ops[|ops| - 1];
      assert ops == init + [last] && ValidOp(f, last);
      OutsideRun(f, k, locked, init, c);
      ActAllKeepsWellKeyed(f, k, locked, init, c);
      OutsideStep(f, k, locked, last, ActAll(f, k, locked, init, c));
    }
  }

  lemma {:induction false} FlagOpsShape(us: seq<FlagUpdate>)
    ensures forall op :: op in FlagOps(us) ==> op.SetMessageFlags? || op.SetThreadFlags?
  {
    if us != [] { FlagOpsShape(us[..|us| - 1]); }
  }

  lemma ProgramValid(f: Folder, d: FolderDelta)
    requires ValidDelta(f, d)
    ensures forall op :: op in Program(d) ==> ValidOp(f, op)
    ensures Wipe in Program(d) <==> d.uidValidityChanged
    ensures Sweep in Program(d) <==> d.vanishedUids != []
  {
    FlagOpsShape(d.flagUpdates);
    assert forall op :: op in UpsertPhase(d) ==> op.Upsert? && ValidOp(f, op);
    assert forall op :: op in VanishPhase(d) ==> op.Vanish?;
    assert [Wipe][0] in [Wipe] && [Sweep][0] in [Sweep];
  }

  // ---- Crash and retry ----

  /** Flag statements change nothing that a later flag change of the same message
      or a later delivery would not overwrite. */
  lemma {:induction false} FlagPrefix(f: Folder, uid: u32, locked: bool, ops: seq<Op>, c: Cell)
    requires forall op :: op in ops ==> op.SetMessageFlags? || op.SetThreadFlags?
    ensures var r := ActAll(f, MessageKey(f.account, f.path, uid), locked, ops, c);
            && (forall u :: FlagCell(r, u) == FlagCell(c, u))
            && (r.msg.Some? <==> c.msg.Some?) && (r.thread.Some? <==> c.thread.Some?)
            && (locked || c.msg.None? ==> r == c)
            && (c.msg.Some? && c.thread.Some? ==>
                  forall m :: UpsertedCell(f.account, f.labelId, m, r) == UpsertedCell(f.account, f.labelId, m, c))
  {
    if ops != [] {
      assert ops[|ops| - 1] in ops;
      FlagPrefix(f, uid, locked, ops[..|ops| - 1], c);
    }
  }

  predicate FlagsOther(f: Folder, uid: u32, op: Op) {
    (op.SetMessageFlags? || op.SetThreadFlags?) && op.u.uid != uid
  }

  /** Flag changes of other messages leave this one alone. */
  lemma {:induction false} OtherFlags(f: Folder, uid: u32, locked: bool, ops: seq<Op>, c: Cell)
    requires forall op :: op in ops ==> FlagsOther(f, uid, op)
    ensures ActAll(f, MessageKey(f.account, f.path, uid), locked, ops, c) == c
  {
    if ops != [] {
      var last := ops[|ops| - 1];
      assert FlagsOther(f, uid, last);
      OtherFlags(f, uid, locked, ops[..|ops| - 1], c);
      if MessageKey(f.account, f.path, uid) == MessageKey(f.account, f.path, last.u.uid) {
        SameUid(f, uid, last.u.uid);
      }
    }
  }

  lemma {:induction false} NoFlagChanges(f: Folder, uid: u32, us: seq<FlagUpdate>)
    requires LastFlags(us, uid).None?
    ensures forall op :: op in FlagOps(us) ==> FlagsOther(f, uid, op)
  {
    if us != [] {
      NoFlagChanges(f, uid, us[..|us| - 1]);
    }
  }

  lemma DeliveriesOfUid(f: Folder, d: FolderDelta, uid: u32)
    requires ValidDelta(f, d)
    ensures forall m :: m in Deliveries(d, uid) ==> m.uid == uid && m.folder == f.path
  {
    FilterIn(d.added + d.updated, (m: RemoteMessage) => m.uid == uid);
    forall m | m in Deliveries(d, uid) ensures m.uid == uid && m.folder == f.path {
      assert m in d.added + d.updated;
    }
  }

  /** A delivery repeated after any of its successors ends where it would have. */
  lemma DeliveredAgain(f: Folder, uid: u32, early: seq<RemoteMessage>, all: seq<RemoteMessage>, c: Cell, mid: Cell)
    requires early <= all && all != []
    requires forall m :: m in all ==> m.uid == uid && m.folder == f.path
    requires UpsertedCell(f.account, f.labelId, all[0], mid)
        == UpsertedCell(f.account, f.labelId, all[0], Delivered(f, early, c))
    ensures Delivered(f, all, mid) == Delivered(f, all, c)
  {
    var once := UpsertedCell(f.account, f.labelId, all[0], c);
    assert all[0] in all;
    DeliveredOnce(f, all[0], c);
    if early != [] {
      assert early[|early| - 1] in all && early[0] == all[0];
      DeliveredTwice(f, early[|early| - 1], all[0], once);
    }
    assert UpsertedCell(f.account, f.labelId, all[0], mid) == once;
  }

  /** The state a crash leaves, in the terms `Outcome` depends on: either the next
      deliveries start over, or nothing but sweeping and flags happened. */
  predicate Resumable(f: Folder, uid: u32, locked: bool, d: FolderDelta, c: Cell, mid: Cell) {
    var all := Deliveries(d, uid);
    if !locked && all != [] then Delivered(f, all, mid) == Delivered(f, all, c)
    else
      || mid == c
      || (var swept := if d.vanishedUids == [] then c else SweptCell(c);
          || mid == swept
          || (&& !locked && LastFlags(d.flagUpdates, uid).Some?
              && mid.msg.Some? && swept.msg.Some?
              && FlagCell(mid, LastFlags(d.flagUpdates, uid).value)
                  == FlagCell(swept, LastFlags(d.flagUpdates, uid).value)))
  }

  lemma CrashWhileUpserting(f: Folder, uid: u32, locked: bool, d: FolderDelta, n: nat, c: Cell)
    requires ValidDelta(f, d) && n <= |UpsertPhase(d)|
    requires !d.uidValidityChanged
    ensures Resumable(f, uid, locked, d, c, ActAll(f, MessageKey(f.account, f.path, uid), locked, Program(d)[..n], c))
  {
    var ms, all := d.added + d.updated, Deliveries(d, uid);
    assert Program(d)[..n] == Upserts(ms[..n]);
    UpsertsOutcome(f, uid, locked, ms[..n], c);
    FilterPrefix(ms, n, (m: RemoteMessage) => m.uid == uid);
    if !locked && all != [] {
      var early := Filter(ms[..n], (m: RemoteMessage) => m.uid == uid);
      DeliveriesOfUid(f, d, uid);
      DeliveredAgain(f, uid, early, all, c, Delivered(f, early, c));
    }
  }

  /** What the message holds once its deliveries and some vanishings were applied. */
  lemma AfterVanishing(f: Folder, uid: u32, locked: bool, d: FolderDelta, van: seq<u32>, c: Cell)
    requires ValidDelta(f, d) && uid !in van
    ensures ActAll(f, MessageKey(f.account, f.path, uid), locked, UpsertPhase(d) + Vanishes(van), c)
         == if locked then c else Delivered(f, Deliveries(d, uid), c)
  {
    var k := MessageKey(f.account, f.path, uid);
    ActAppend(f, k, locked, UpsertPhase(d), Vanishes(van), c);
    UpsertsOutcome(f, uid, locked, d.added + d.updated, c);
    VanishesOutcome(f, uid, locked, van, ActAll(f, k, locked, UpsertPhase(d), c));
  }

  lemma CrashWhileVanishing(f: Folder, uid: u32, locked: bool, d: FolderDelta, n: nat, c: Cell)
    requires ValidDelta(f, d) && |UpsertPhase(d)| <= n <= |UpsertPhase(d)| + |VanishPhase(d)|
    requires !d.uidValidityChanged && uid !in d.vanishedUids
    ensures Resumable(f, uid, locked, d, c, ActAll(f, MessageKey(f.account, f.path, uid), locked, Program(d)[..n], c))
  {
    var u, all := UpsertPhase(d), Deliveries(d, uid);
    var van := d.vanishedUids[..n - |u|];
    assert Program(d)[..n] == u + Vanishes(van);
    AfterVanishing(f, uid, locked, d, van, c);
    if !locked && all != [] {
      DeliveriesOfUid(f, d, uid);
      DeliveredAgain(f, uid, all, all, c, Delivered(f, all, c));
    }
  }

  lemma TakeConcat<T>(a: seq<T>, b: seq<T>, n: nat)
    requires |a| <= n <= |a| + |b|
    ensures (a + b)[..n] == a + b[..n - |a|]
  {}

  lemma LatePrefix(f: Folder, k: Key, locked: bool, d: FolderDelta, n: nat, c: Cell)
    requires |UpsertPhase(d)| + |VanishPhase(d)| < n <= |Program(d)| && !d.uidValidityChanged
    ensures |UpsertPhase(d)| + |VanishPhase(d)| + |SweepPhase(d)| <= n
    ensures ActAll(f, k, locked, Program(d)[..n], c)
         == ActAll(f, k, locked, FlagOps(d.flagUpdates)[..n - |UpsertPhase(d)| - |VanishPhase(d)| - |SweepPhase(d)|],
              ActAll(f, k, locked, SweepPhase(d), ActAll(f, k, locked, UpsertPhase(d) + VanishPhase(d), c)))
  {
    var u, v, s, fl := UpsertPhase(d), VanishPhase(d), SweepPhase(d), FlagOps(d.flagUpdates);
    assert Program(d) == u + v + s + fl;
    TakeConcat(u + v + s, fl, n);
    ActAppend(f, k, locked, u + v + s, fl[..n - |u| - |v| - |s|], c);
    ActAppend(f, k, locked, u + v, s, c);
  }

  lemma CrashAmongFlags(f: Folder, uid: u32, locked: bool, d: FolderDelta, some: seq<Op>, c: Cell, swept: Cell)
    requires ValidDelta(f, d)
    requires forall op :: op in some ==> op in FlagOps(d.flagUpdates)
    requires var delivered := if locked then c else Delivered(f, Deliveries(d, uid), c);
             swept == if d.vanishedUids == [] then delivered else SweptCell(delivered)
    ensures Resumable(f, uid, locked, d, c, ActAll(f, MessageKey(f.account, f.path, uid), locked, some, swept))
  {
    FlagOpsShape(d.flagUpdates);
    FlagPrefix(f, uid, locked, some, swept);
    if LastFlags(d.flagUpdates, uid).None? {
      NoFlagChanges(f, uid, d.flagUpdates);
      OtherFlags(f, uid, locked, some, swept);
    }
    var all := Deliveries(d, uid);
    if !locked && all != [] {
      DeliveriesOfUid(f, d, uid);
      DeliveredAgain(f, uid, all, all, c, ActAll(f, MessageKey(f.account, f.path, uid), locked, some, swept));
    }
  }

  lemma CrashLate(f: Folder, uid: u32, locked: bool, d: FolderDelta, n: nat, c: Cell)
    requires ValidDelta(f, d) && |UpsertPhase(d)| + |VanishPhase(d)| < n <= |Program(d)|
    requires !d.uidValidityChanged && uid !in d.vanishedUids
    ensures Resumable(f, uid, locked, d, c, ActAll(f, MessageKey(f.account, f.path, uid), locked, Program(d)[..n], c))
  {
    var k := MessageKey(f.account, f.path, uid);
    LatePrefix(f, k, locked, d, n, c);
    AfterVanishing(f, uid, locked, d, d.vanishedUids, c);
    var delivered := if locked then c else Delivered(f, Deliveries(d, uid), c);
    SweepOutcome(f, k, locked, d, delivered);
    var swept := if d.vanishedUids == [] then delivered else SweptCell(delivered);
    var some := FlagOps(d.flagUpdates)[..n - |UpsertPhase(d)| - |VanishPhase(d)| - |SweepPhase(d)|];
    CrashAmongFlags(f, uid, locked, d, some, c, swept);
  }

  lemma ResumableOutcome(f: Folder, uid: u32, locked: bool, d: FolderDelta, c: Cell, mid: Cell)
    requires !d.uidValidityChanged && uid !in d.vanishedUids
    requires Resumable(f, uid, locked, d, c, mid)
    ensures Outcome(f, uid, locked, d, mid) == Outcome(f, uid, locked, d, c)
  {}

  lemma CrashOutcome(f: Folder, uid: u32, locked: bool, d: FolderDelta, n: nat, c: Cell)
    requires ValidDelta(f, d) && n <= |Program(d)|
    requires !d.uidValidityChanged && uid !in d.vanishedUids
    ensures Outcome(f, uid, locked, d, ActAll(f, MessageKey(f.account, f.path, uid), locked, Program(d)[..n], c))
        == Outcome(f, uid, locked, d, c)
  {
    var mid := ActAll(f, MessageKey(f.account, f.path, uid), locked, Program(d)[..n], c);
    if n <= |UpsertPhase(d)| {
      CrashWhileUpserting(f, uid, locked, d, n, c);
    } else if n <= |UpsertPhase(d)| + |VanishPhase(d)| {
      CrashWhileVanishing(f, uid, locked, d, n, c);
    } else {
      CrashLate(f, uid, locked, d, n, c);
    }
    ResumableOutcome(f, uid, locked, d, c, mid);
  }

  /** Re-running the delta from any of its intermediate cells. */
  lemma CrashCell(f: Folder, uid: u32, locked: bool, d: FolderDelta, n: nat, c: Cell)
    requires ValidDelta(f, d) && n <= |Program(d)|
    requires WellKeyedCell(MessageKey(f.account, f.path, uid), c)
    ensures var k := MessageKey(f.account, f.path, uid);
            ActAll(f, k, locked, Program(d), ActAll(f, k, locked, Program(d)[..n], c))
                == ActAll(f, k, locked, Program(d), c)
  {
    var k := MessageKey(f.account, f.path, uid);
    var mid := ActAll(f, k, locked, Program(d)[..n], c);
    ActAllKeepsWellKeyed(f, k, locked, Program(d)[..n], c);
    ProgramOutcome(f, uid, locked, d, c);
    ProgramOutcome(f, uid, locked, d, mid);
    if !d.uidValidityChanged && uid !in d.vanishedUids {
      CrashOutcome(f, uid, locked, d, n, c);
    }
  }

  /** Crash-retry convergence: stopping after any number of statements, so in
      particular after any commit, and running the whole delta again gives the
      store of one uninterrupted run. */
  lemma CrashRetry(db: Db, f: Folder, d: FolderDelta, n: nat)
    requires WellKeyed(db) && ValidDelta(f, d) && n <= |Program(d)|
    ensures ApplyDelta(Run(db, f, Program(d)[..n]), f, d) == ApplyDelta(db, f, d)
  {
    var mid := Run(db, f, Program(d)[..n]);
    var again, once := ApplyDelta(mid, f, d), ApplyDelta(db, f, d);
    forall k ensures CellAt(again, k) == CellAt(once, k)
                     && SameRest(db, again) && SameRest(db, once) {
      var locked, c := Locked(db, k), CellAt(db, k);
      assert WellKeyedCell(k, c);
      RunAt(db, f, Program(d)[..n], k);
      RunAt(mid, f, Program(d), k);
      RunAt(db, f, Program(d), k);
      assert Locked(mid, k) == locked;
      ProgramValid(f, d);
      if Outside(f, k) {
        OutsideRun(f, k, locked, Program(d)[..n], c);
        OutsideRun(f, k, locked, Program(d), c);
        ActAllKeepsWellKeyed(f, k, locked, Program(d)[..n], c);
        OutsideRun(f, k, locked, Program(d), CellAt(mid, k));
        assert forall op :: op in Program(d)[..n] ==> op in Program(d);
      } else {
        var uid: u32 :| k == MessageKey(f.account, f.path, uid);
        CrashCell(f, uid, locked, d, n, c);
      }
    }
    assert SameRest(db, again) && SameRest(db, once) by {
      RunAt(db, f, Program(d)[..n], Key("", ""));
      RunAt(mid, f, Program(d), Key("", ""));
      RunAt(db, f, Program(d), Key("", ""));
    }
    SameCells(again, once);
  }

  /** A series of attempts, each cut off after so many statements. */
  function Attempts(db: Db, f: Folder, d: FolderDelta, cuts: seq<nat>): Db {
    if cuts == [] then db
    else
      var n := cuts[|cuts| - 1];
      Run(Attempts(db, f, d, cuts[..|cuts| - 1]), f, if n <= |Program(d)| then Program(d)[..n] else Program(d))
  }

  lemma {:induction false} AttemptsWellKeyed(db: Db, f: Folder, d: FolderDelta, cuts: seq<nat>)
    requires WellKeyed(db) && ValidDelta(f, d)
    ensures WellKeyed(Attempts(db, f, d, cuts))
  {
    if cuts != [] {
      var n := cuts[|cuts| - 1];
      AttemptsWellKeyed(db, f, d, cuts[..|cuts| - 1]);
      var ops := if n <= |Program(d)| then Program(d)[..n] else Program(d);
      RunAt(Attempts(db, f, d, cuts[..|cuts| - 1]), f, ops, Key("", ""));
    }
  }

  /** However many attempts crashed, the first complete one converges. */
  lemma {:induction false} RepeatedCrashes(db: Db, f: Folder, d: FolderDelta, cuts: seq<nat>)
    requires WellKeyed(db) && ValidDelta(f, d)
    ensures ApplyDelta(Attempts(db, f, d, cuts), f, d) == ApplyDelta(db, f, d)
  {
    if cuts != [] {
      var before := Attempts(db, f, d, cuts[..|cuts| - 1]);
      AttemptsWellKeyed(db, f, d, cuts[..|cuts| - 1]);
      RepeatedCrashes(db, f, d, cuts[..|cuts| - 1]);
      var n := if cuts[|cuts| - 1] <= |Program(d)| then cuts[|cuts| - 1] else |Program(d)|;
      assert Program(d)[..|Program(d)|] == Program(d);
      CrashRetry(before, f, d, n);
    }
  }

  // ---- The delta on the store, message by message ----

  /** For a message of the folder the new cell is `Outcome`. */
  lemma DeltaInside(db: Db, f: Folder, d: FolderDelta, uid: u32)
    requires WellKeyed(db) && ValidDelta(f, d)
    ensures var k := MessageKey(f.account, f.path, uid);
            CellAt(ApplyDelta(db, f, d), k) == Outcome(f, uid, Locked(db, k), d, CellAt(db, k))
  {
    var k := MessageKey(f.account, f.path, uid);
    assert WellKeyedCell(k, CellAt(db, k));
    RunAt(db, f, Program(d), k);
    ProgramOutcome(f, uid, Locked(db, k), d, CellAt(db, k));
  }

  lemma InvWellKeyed(db: Db)
    requires Inv(db)
    ensures WellKeyed(db)
  {
    forall k ensures WellKeyedCell(k, CellAt(db, k)) {
      assert WellKeyedCell(k, CellAt(db, k)) && CoherentCell(CellAt(db, k));
    }
  }

  /** Other folders and other accounts keep every row. */
  lemma OtherFoldersUntouched(db: Db, f: Folder, d: FolderDelta, k: Key)
    requires Inv(db) && ValidDelta(f, d) && Outside(f, k)
    ensures CellAt(ApplyDelta(db, f, d), k) == CellAt(db, k)
  {
    assert WellKeyedCell(k, CellAt(db, k)) && CoherentCell(CellAt(db, k));
    InvWellKeyed(db);
    RunAt(db, f, Program(d), k);
    ProgramValid(f, d);
    OutsideRun(f, k, Locked(db, k), Program(d), CellAt(db, k));
  }

  /** The write-lock frame: a message with a pending operation keeps message, thread,
      labels and body, and is not created if it was absent, exactly when the delta
      neither wipes the folder nor names the UID as vanished (or there is nothing to
      lose). */
  lemma WriteLockFrame(db: Db, f: Folder, d: FolderDelta, uid: u32)
    requires Inv(db) && ValidDelta(f, d)
    requires Locked(db, MessageKey(f.account, f.path, uid))
    ensures var k := MessageKey(f.account, f.path, uid);
            CellAt(ApplyDelta(db, f, d), k) == CellAt(db, k) <==>
              (!d.uidValidityChanged && uid !in d.vanishedUids) || k !in db.messages
  {
    var k := MessageKey(f.account, f.path, uid);
    assert WellKeyedCell(k, CellAt(db, k)) && CoherentCell(CellAt(db, k));
    InvWellKeyed(db);
    DeltaInside(db, f, d, uid);
  }

  /** No delta, not even one after a UIDVALIDITY change, brings back a message that
      is gone locally while an operation on it is pending. */
  lemma NoResurrection(db: Db, f: Folder, d: FolderDelta, k: Key)
    requires Inv(db) && ValidDelta(f, d)
    requires Locked(db, k) && k !in db.messages
    ensures k !in ApplyDelta(db, f, d).messages
  {
    var after := ApplyDelta(db, f, d);
    InvWellKeyed(db);
    if Outside(f, k) {
      OtherFoldersUntouched(db, f, d, k);
      assert CellAt(after, k).msg == CellAt(db, k).msg;
    } else {
      var uid: u32 :| k == MessageKey(f.account, f.path, uid);
      DeltaInside(db, f, d, uid);
      assert CellAt(after, k).msg.None?;
    }
  }

  // ---- The columns a delta writes ----

  /** The delta delivers the message, and nothing keeps it from being written. */
  ghost predicate Written(db: Db, f: Folder, d: FolderDelta, uid: u32) {
    && WellKeyed(db) && ValidDelta(f, d) && uid !in d.vanishedUids
    && !Locked(db, MessageKey(f.account, f.path, uid)) && Deliveries(d, uid) != []
  }

  lemma CellRows(db: Db, k: Key)
    ensures k in db.messages <==> CellAt(db, k).msg.Some?
    ensures k in db.messages ==> CellAt(db, k).msg.value == db.messages[k]
    ensures k in db.threads <==> CellAt(db, k).thread.Some?
    ensures k in db.threads ==> CellAt(db, k).thread.value == db.threads[k]
    ensures forall l :: l in CellAt(db, k).labels <==> ThreadLabel(k, l) in db.threadLabels
  {}

  lemma UpsertedIsThere(f: Folder, m: RemoteMessage, c: Cell)
    ensures UpsertedCell(f.account, f.labelId, m, c).msg.Some?
  {}

  function LastDelivery(d: FolderDelta, uid: u32): RemoteMessage
    requires Deliveries(d, uid) != []
  {
    Deliveries(d, uid)[|Deliveries(d, uid)| - 1]
  }

  /** The cell of a written message: first delivery, last delivery, last flag change. */
  lemma WrittenCell(db: Db, f: Folder, d: FolderDelta, uid: u32)
    requires Written(db, f, d, uid)
    ensures LastDelivery(d, uid).uid == uid && LastDelivery(d, uid).folder == f.path
    ensures var k := MessageKey(f.account, f.path, uid);
            var base := if d.uidValidityChanged then EMPTY else CellAt(db, k);
            CellAt(ApplyDelta(db, f, d), k)
            == WithFlags(UpsertedCell(f.account, f.labelId, LastDelivery(d, uid),
                                      UpsertedCell(f.account, f.labelId, Deliveries(d, uid)[0], base)),
                         LastFlags(d.flagUpdates, uid))
  {
    hide UpsertedCell, WithFlags;
    DeltaInside(db, f, d, uid);
    var k := MessageKey(f.account, f.path, uid);
    var base := if d.uidValidityChanged then EMPTY else CellAt(db, k);
    UpsertedIsThere(f, LastDelivery(d, uid), UpsertedCell(f.account, f.labelId, Deliveries(d, uid)[0], base));
    DeliveriesOfUid(f, d, uid);
    assert LastDelivery(d, uid) in Deliveries(d, uid);
  }

  lemma UpsertedRows(f: Folder, m: RemoteMessage, c: Cell, flags: Option<FlagUpdate>, k: Key)
    requires k == MessageKey(f.account, m.folder, m.uid) && WellKeyedCell(k, c)
    ensures var r := WithFlags(UpsertedCell(f.account, f.labelId, m, c), flags);
            && r.msg.Some? && r.thread.Some? && f.labelId in r.labels
            && r.msg.value.threadId == k.id && r.msg.value.imapUid == m.uid && r.msg.value.imapFolder == m.folder
  {}

  lemma UpsertedEnvelope(f: Folder, m: RemoteMessage, c: Cell, flags: Option<FlagUpdate>)
    ensures var r := WithFlags(UpsertedCell(f.account, f.labelId, m, c), flags);
            r.msg.Some? &&
            var e := r.msg.value.envelope;
            && e.fromAddress == m.fromAddress && e.fromName == m.fromName
            && e.toAddresses == m.toAddresses && e.ccAddresses == m.ccAddresses
            && e.bccAddresses == m.bccAddresses && e.replyTo == m.replyTo
            && e.subject == m.subject && e.snippet == m.snippet && e.date == m.date
            && e.bodyText == m.bodyText && e.rawSize == m.rawSize
            && e.remoteEmailId == m.remoteEmailId && e.remoteThreadId == m.remoteThreadId
            && e.messageIdHeader == (if m.messageId.Some? then m.messageId.value
                 else "synthetic-" + f.account + "-" + m.folder + "-" + Decimal(m.uid) + "@kylins.local")
  {}

  lemma UpsertedFlags(f: Folder, m: RemoteMessage, c: Cell, flags: Option<FlagUpdate>)
    ensures var r := WithFlags(UpsertedCell(f.account, f.labelId, m, c), flags);
            && r.msg.Some? && r.thread.Some? &&
            var row, t := r.msg.value, r.thread.value;
            && row.isRead == t.isRead == (if flags.Some? then flags.value.isRead else m.isRead)
            && row.isStarred == t.isStarred == (if flags.Some? then flags.value.isStarred else m.isStarred)
  {}

  lemma UpsertedCrypto(f: Folder, m: RemoteMessage, c: Cell, flags: Option<FlagUpdate>)
    ensures var r := WithFlags(UpsertedCell(f.account, f.labelId, m, c), flags);
            && r.msg.Some? && r.thread.Some? &&
            var row, t := r.msg.value, r.thread.value;
            && row.isEncrypted == t.isEncrypted == (m.cryptoKind in {Some(Encrypted), Some(EncryptedSigned)})
            && row.isSigned == t.isSigned == (m.cryptoKind in {Some(Signed), Some(EncryptedSigned)})
  {}

  lemma UpsertedThreadRow(f: Folder, m: RemoteMessage, c: Cell, flags: Option<FlagUpdate>)
    ensures var r := WithFlags(UpsertedCell(f.account, f.labelId, m, c), flags);
            r.thread.Some? &&
            var t := r.thread.value;
            && t.subject == m.subject && t.snippet == m.snippet && t.lastMessageAt == m.date
            && t.messageCount == 1 && !t.isImportant && t.hasAttachments == m.hasAttachments
            && t.fromName == m.fromName && t.fromAddress == m.fromAddress
  {}

  /** The cell the last delivery is written over. */
  ghost function BeforeLast(db: Db, f: Folder, d: FolderDelta, uid: u32): Cell
    requires Deliveries(d, uid) != []
  {
    UpsertedCell(f.account, f.labelId, Deliveries(d, uid)[0],
                 if d.uidValidityChanged then EMPTY else CellAt(db, MessageKey(f.account, f.path, uid)))
  }

  lemma BeforeLastKeyed(db: Db, f: Folder, d: FolderDelta, uid: u32)
    requires Written(db, f, d, uid)
    ensures WellKeyedCell(MessageKey(f.account, f.path, uid), BeforeLast(db, f, d, uid))
  {
    var k := MessageKey(f.account, f.path, uid);
    assert WellKeyedCell(k, CellAt(db, k));
    DeliveriesOfUid(f, d, uid);
    assert Deliveries(d, uid)[0] in Deliveries(d, uid);
    var base := if d.uidValidityChanged then EMPTY else CellAt(db, k);
    ActKeepsWellKeyed(f, k, false, Upsert(Deliveries(d, uid)[0]), base);
  }

  /** The rows exist, under the folder and UID, in a thread of their own, and the thread
      carries the folder's label. */
  lemma WrittenRows(db: Db, f: Folder, d: FolderDelta, uid: u32)
    requires Written(db, f, d, uid)
    ensures var after, k := ApplyDelta(db, f, d), MessageKey(f.account, f.path, uid);
            && k in after.messages && k in after.threads && ThreadLabel(k, f.labelId) in after.threadLabels
            && after.messages[k].threadId == k.id
            && after.messages[k].imapUid == uid && after.messages[k].imapFolder == f.path
  {
    hide UpsertedCell, WithFlags, ApplyDelta, CellAt, WellKeyedCell, Deliveries, LastDelivery;
    var k := MessageKey(f.account, f.path, uid);
    WrittenCell(db, f, d, uid);
    BeforeLastKeyed(db, f, d, uid);
    UpsertedRows(f, LastDelivery(d, uid), BeforeLast(db, f, d, uid), LastFlags(d.flagUpdates, uid), k);
    CellRows(ApplyDelta(db, f, d), k);
  }

  /** Every column a re-sync overwrites holds the last delivery's value. */
  lemma WrittenEnvelope(db: Db, f: Folder, d: FolderDelta, uid: u32)
    requires Written(db, f, d, uid)
    ensures var k, last := MessageKey(f.account, f.path, uid), LastDelivery(d, uid);
            k in ApplyDelta(db, f, d).messages &&
            var e := ApplyDelta(db, f, d).messages[k].envelope;
            && e.fromAddress == last.fromAddress && e.fromName == last.fromName
            && e.toAddresses == last.toAddresses && e.ccAddresses == last.ccAddresses
            && e.bccAddresses == last.bccAddresses && e.replyTo == last.replyTo
            && e.subject == last.subject && e.snippet == last.snippet && e.date == last.date
            && e.bodyText == last.bodyText && e.rawSize == last.rawSize
            && e.remoteEmailId == last.remoteEmailId && e.remoteThreadId == last.remoteThreadId
            && e.messageIdHeader == (if last.messageId.Some? then last.messageId.value
                 else "synthetic-" + f.account + "-" + f.path + "-" + Decimal(uid) + "@kylins.local")
  {
    hide UpsertedCell, WithFlags, ApplyDelta, CellAt, Deliveries, LastDelivery, LastFlags;
    var k := MessageKey(f.account, f.path, uid);
    WrittenCell(db, f, d, uid);
    UpsertedEnvelope(f, LastDelivery(d, uid), BeforeLast(db, f, d, uid), LastFlags(d.flagUpdates, uid));
    CellRows(ApplyDelta(db, f, d), k);
  }

  /** Flags: the last flag change of the delta, else the last delivery, on message and
      thread alike; the crypto flags follow the last delivery's kind. */
  lemma WrittenFlags(db: Db, f: Folder, d: FolderDelta, uid: u32)
    requires Written(db, f, d, uid)
    ensures var after, k, last := ApplyDelta(db, f, d), MessageKey(f.account, f.path, uid), LastDelivery(d, uid);
            && k in after.messages && k in after.threads &&
            var m, t, flags := after.messages[k], after.threads[k], LastFlags(d.flagUpdates, uid);
            && m.isRead == t.isRead == (if flags.Some? then flags.value.isRead else last.isRead)
            && m.isStarred == t.isStarred == (if flags.Some? then flags.value.isStarred else last.isStarred)
            && m.isEncrypted == t.isEncrypted == (last.cryptoKind in {Some(Encrypted), Some(EncryptedSigned)})
            && m.isSigned == t.isSigned == (last.cryptoKind in {Some(Signed), Some(EncryptedSigned)})
  {
    hide UpsertedCell, WithFlags, ApplyDelta, CellAt, Deliveries, LastDelivery, LastFlags;
    var k := MessageKey(f.account, f.path, uid);
    WrittenCell(db, f, d, uid);
    UpsertedFlags(f, LastDelivery(d, uid), BeforeLast(db, f, d, uid), LastFlags(d.flagUpdates, uid));
    UpsertedCrypto(f, LastDelivery(d, uid), BeforeLast(db, f, d, uid), LastFlags(d.flagUpdates, uid));
    CellRows(ApplyDelta(db, f, d), k);
  }

  /** The thread row mirrors the last delivery. */
  lemma WrittenThread(db: Db, f: Folder, d: FolderDelta, uid: u32)
    requires Written(db, f, d, uid)
    ensures var k, last := MessageKey(f.account, f.path, uid), LastDelivery(d, uid);
            k in ApplyDelta(db, f, d).threads &&
            var t := ApplyDelta(db, f, d).threads[k];
            && t.subject == last.subject && t.snippet == last.snippet && t.lastMessageAt == last.date
            && t.messageCount == 1 && !t.isImportant && t.hasAttachments == last.hasAttachments
            && t.fromName == last.fromName && t.fromAddress == last.fromAddress
  {
    hide UpsertedCell, WithFlags, ApplyDelta, CellAt, Deliveries, LastDelivery, LastFlags;
    var k := MessageKey(f.account, f.path, uid);
    WrittenCell(db, f, d, uid);
    UpsertedThreadRow(f, LastDelivery(d, uid), BeforeLast(db, f, d, uid), LastFlags(d.flagUpdates, uid));
    CellRows(ApplyDelta(db, f, d), k);
  }

  /** Columns of the first insert: the first delivery's if there was no row or it was
      wiped, else what the row held. */
  lemma WrittenOnce(db: Db, f: Folder, d: FolderDelta, uid: u32)
    requires Written(db, f, d, uid) && Inv(db)
    ensures var k, first := MessageKey(f.account, f.path, uid), Deliveries(d, uid)[0];
            && k in ApplyDelta(db, f, d).messages && k in ApplyDelta(db, f, d).threads
            && var m, t := ApplyDelta(db, f, d).messages[k], ApplyDelta(db, f, d).threads[k];
            if k in db.messages && !d.uidValidityChanged then
              && m.insertOnly == db.messages[k].insertOnly && m.bodyCached == db.messages[k].bodyCached
              && k in db.threads
              && t.isSnoozed == db.threads[k].isSnoozed && t.classificationId == db.threads[k].classificationId
            else
              && m.insertOnly.inReplyTo == first.inReplyTo && m.insertOnly.references == first.references
              && m.insertOnly.listUnsubscribe == first.listUnsubscribe
              && m.insertOnly.listUnsubscribePost == first.listUnsubscribePost
              && m.insertOnly.authResults == first.authResults
              && !m.bodyCached && !t.isSnoozed && t.classificationId.None?
  {
    var after, k := ApplyDelta(db, f, d), MessageKey(f.account, f.path, uid);
    assert WellKeyedCell(k, CellAt(db, k)) && CoherentCell(CellAt(db, k));
    WrittenCell(db, f, d, uid);
    assert k in after.messages <==> CellAt(after, k).msg.Some?;
    assert k in after.threads <==> CellAt(after, k).thread.Some?;
    assert k in db.messages <==> CellAt(db, k).msg.Some?;
  }

  /** A flag change alone changes read and star, on the message and on its thread. */
  lemma FlagsOnly(db: Db, f: Folder, d: FolderDelta, uid: u32)
    requires Inv(db) && ValidDelta(f, d) && !d.uidValidityChanged && uid !in d.vanishedUids
    requires Deliveries(d, uid) == [] && LastFlags(d.flagUpdates, uid).Some?
    requires MessageKey(f.account, f.path, uid) in db.messages && !Locked(db, MessageKey(f.account, f.path, uid))
    ensures var after, k := ApplyDelta(db, f, d), MessageKey(f.account, f.path, uid);
            var u := LastFlags(d.flagUpdates, uid).value;
            && k in after.messages && k in after.threads && k in db.threads
            && after.messages[k] == db.messages[k].(isRead := u.isRead, isStarred := u.isStarred)
            && after.threads[k] == db.threads[k].(isRead := u.isRead, isStarred := u.isStarred)
  {
    var after, k := ApplyDelta(db, f, d), MessageKey(f.account, f.path, uid);
    assert WellKeyedCell(k, CellAt(db, k)) && CoherentCell(CellAt(db, k));
    InvWellKeyed(db);
    DeltaInside(db, f, d, uid);
    assert k in after.messages <==> CellAt(after, k).msg.Some?;
    assert k in after.threads <==> CellAt(after, k).thread.Some?;
  }

  /** "First", "last" and "last flag change", in the delta's own sequences. */
  lemma {:induction false} LastFlagsMeaning(us: seq<FlagUpdate>, uid: u32)
    ensures match LastFlags(us, uid)
            case None => forall i :: 0 <= i < |us| ==> us[i].uid != uid
            case Some(u) => exists i :: 0 <= i < |us| && us[i] == u && u.uid == uid
                              && forall j :: i < j < |us| ==> us[j].uid != uid
  {
    if us != [] {
      var init := us[..|us| - 1];
      LastFlagsMeaning(init, uid);
      if us[|us| - 1].uid != uid && LastFlags(us, uid).Some? {
        var u := LastFlags(us, uid).value;
        var i :| 0 <= i < |init| && init[i] == u && forall j :: i < j < |init| ==> init[j].uid != uid;
        assert us[i] == u && forall j :: i < j < |us| ==> us[j].uid != uid;
      }
    }
  }

  // ---- Folder convergence ----

  /** The UIDs cached for a folder. */
  ghost function LocalUids(db: Db, f: Folder): (r: set<u32>)
    ensures forall u: u32 :: u in r <==> exists k :: k in InFolder(db, f.account, f.path) && db.messages[k].imapUid == u
  {
    set k | k in InFolder(db, f.account, f.path) :: db.messages[k].imapUid
  }

  lemma LocalUidsAreKeys(db: Db, f: Folder, uid: u32)
    requires WellKeyed(db) && ValidFolder(f)
    ensures uid in LocalUids(db, f) <==> MessageKey(f.account, f.path, uid) in db.messages
  {
    var key := MessageKey(f.account, f.path, uid);
    forall k | k in InFolder(db, f.account, f.path) && db.messages[k].imapUid == uid ensures k == key {
      assert WellKeyedCell(k, CellAt(db, k));
    }
    if key in db.messages {
      assert WellKeyedCell(key, CellAt(db, key));
      MessageIdInjective(f.account, f.path, uid, key.account, db.messages[key].imapFolder, db.messages[key].imapUid);
      assert key in InFolder(db, f.account, f.path);
    }
  }

  ghost predicate UidLocked(db: Db, f: Folder, uid: u32) {
    Locked(db, MessageKey(f.account, f.path, uid))
  }

  ghost predicate Delivers(d: FolderDelta, uid: u32) {
    exists m :: m in d.added + d.updated && m.uid == uid
  }

  lemma DeliversDefined(d: FolderDelta, uid: u32)
    ensures Deliveries(d, uid) != [] <==> Delivers(d, uid)
  {
    var all := Deliveries(d, uid);
    FilterIn(d.added + d.updated, (m: RemoteMessage) => m.uid == uid);
    if all != [] { assert all[0] in all; }
  }

  lemma OutcomePresence(f: Folder, uid: u32, locked: bool, d: FolderDelta, c: Cell)
    ensures Outcome(f, uid, locked, d, c).msg.Some?
       <==> && uid !in d.vanishedUids
            && ((c.msg.Some? && !d.uidValidityChanged) || (Deliveries(d, uid) != [] && !locked))
  {}

  /** The UIDs a folder holds after any delta: those kept by the wipe or delivered
      to an unlocked message, less the vanished ones. */
  lemma LocalUidsAfter(db: Db, f: Folder, d: FolderDelta, uid: u32)
    requires WellKeyed(db) && ValidDelta(f, d)
    ensures uid in LocalUids(ApplyDelta(db, f, d), f)
       <==> && uid !in d.vanishedUids
            && ((uid in LocalUids(db, f) && !d.uidValidityChanged) || (Delivers(d, uid) && !UidLocked(db, f, uid)))
  {
    var k := MessageKey(f.account, f.path, uid);
    var after := ApplyDelta(db, f, d);
    RunAt(db, f, Program(d), k);
    LocalUidsAreKeys(db, f, uid);
    LocalUidsAreKeys(after, f, uid);
    DeltaInside(db, f, d, uid);
    OutcomePresence(f, uid, Locked(db, k), d, CellAt(db, k));
    DeliversDefined(d, uid);
    assert k in after.messages <==> CellAt(after, k).msg.Some?;
    assert k in db.messages <==> CellAt(db, k).msg.Some?;
  }

  /** Folder convergence: a delta that adds what only the server has and vanishes
      what only the store has leaves the server's UIDs, save those that were gone
      locally with an operation pending. */
  lemma FolderConverges(db: Db, f: Folder, d: FolderDelta, server: set<u32>)
    requires WellKeyed(db) && ValidDelta(f, d) && !d.uidValidityChanged
    requires forall uid: u32 :: Delivers(d, uid) ==> uid in server
    requires forall uid: u32 :: uid in server - LocalUids(db, f) ==> Delivers(d, uid)
    requires forall uid: u32 :: uid in d.vanishedUids <==> uid in LocalUids(db, f) - server
    ensures LocalUids(ApplyDelta(db, f, d), f)
         == set uid | uid in server && (uid in LocalUids(db, f) || !UidLocked(db, f, uid))
    ensures db.pending == [] ==> LocalUids(ApplyDelta(db, f, d), f) == server
  {
    forall uid: u32
      ensures uid in LocalUids(ApplyDelta(db, f, d), f)
         <==> uid in server && (uid in LocalUids(db, f) || !UidLocked(db, f, uid))
    {
      LocalUidsAfter(db, f, d, uid);
    }
  }

  // ---- The invariant ----

  lemma UpsertCoherent(f: Folder, m: RemoteMessage, c: Cell)
    requires CoherentCell(c) && (c.body.Some? ==> c.msg.Some?)
    ensures CoherentCell(UpsertedCell(f.account, f.labelId, m, c))
  {}

  lemma FlagsCoherent(c: Cell, u: FlagUpdate)
    requires CoherentCell(c)
    ensures CoherentCell(FlagCell(c, u))
  {}

  lemma OutcomeCoherent(f: Folder, uid: u32, locked: bool, d: FolderDelta, c: Cell)
    requires CoherentCell(c) && (c.body.Some? ==> c.msg.Some?)
    ensures CoherentCell(Outcome(f, uid, locked, d, c))
  {
    var base := if d.uidValidityChanged then EMPTY else c;
    var all := Deliveries(d, uid);
    if all != [] {
      UpsertCoherent(f, all[0], base);
      UpsertCoherent(f, all[|all| - 1], UpsertedCell(f.account, f.labelId, all[0], base));
    }
    var delivered := if locked then base else Delivered(f, all, base);
    var swept := if d.vanishedUids == [] then delivered else SweptCell(delivered);
    assert CoherentCell(swept);
    if LastFlags(d.flagUpdates, uid).Some? {
      FlagsCoherent(swept, LastFlags(d.flagUpdates, uid).value);
    }
  }

  /** A complete delta re-establishes the invariant. */
  lemma DeltaKeepsInv(db: Db, f: Folder, d: FolderDelta)
    requires Inv(db) && ValidDelta(f, d)
    ensures Inv(ApplyDelta(db, f, d))
  {
    var after := ApplyDelta(db, f, d);
    InvWellKeyed(db);
    forall k ensures WellKeyedCell(k, CellAt(after, k)) && CoherentCell(CellAt(after, k)) {
      assert WellKeyedCell(k, CellAt(db, k)) && CoherentCell(CellAt(db, k));
      RunAt(db, f, Program(d), k);
      assert WellKeyedCell(k, CellAt(after, k));
      if Outside(f, k) {
        OtherFoldersUntouched(db, f, d, k);
      } else {
        var uid: u32 :| k == MessageKey(f.account, f.path, uid);
        DeltaInside(db, f, d, uid);
        OutcomeCoherent(f, uid, Locked(db, k), d, CellAt(db, k));
      }
    }
  }
}
