/** `apply_folder_delta` and its helpers as methods on the store: chunked
    transactions and loops, proved against the statement-by-statement program. */
module Messages {
  import opened Prelude
  import opened Text
  import opened Schema
  import opened Delta
  import opened DeltaTheorems

  /** Messages persisted per transaction. */
  const APPLY_BATCH_SIZE: nat := 200

  datatype AppliedCounts = AppliedCounts(added: nat, updated: nat, deleted: nat)

  /** A state the given statements pass through. */
  ghost predicate PassesThrough(db: Db, f: Folder, ops: seq<Op>, s: Db) {
    exists n: nat :: n <= |ops| && s == Run(db, f, ops[..n])
  }

  /** Every commit since `from` made such a state visible, and none was lost. */
  ghost predicate CommitsAlong(from: seq<Db>, now: seq<Db>, db: Db, f: Folder, ops: seq<Op>) {
    from <= now && forall i :: |from| <= i < |now| ==> PassesThrough(db, f, ops, now[i])
  }

  lemma CommitNext(from: seq<Db>, now: seq<Db>, db: Db, f: Folder, ops: seq<Op>, n: nat)
    requires CommitsAlong(from, now, db, f, ops) && n <= |ops|
    ensures CommitsAlong(from, now + [Run(db, f, ops[..n])], db, f, ops)
  {
    assert PassesThrough(db, f, ops, Run(db, f, ops[..n]));
  }

  /** Crashing right after any commit of `ApplyFolderDelta` and applying the delta
      again ends as if nothing had happened. */
  lemma RetryAfterCommit(db: Db, f: Folder, d: FolderDelta, s: Db)
    requires WellKeyed(db) && ValidDelta(f, d) && PassesThrough(db, f, Program(d), s)
    ensures ApplyDelta(s, f, d) == ApplyDelta(db, f, d)
  {
    var n: nat :| n <= |Program(d)| && s == Run(db, f, Program(d)[..n]);
    CrashRetry(db, f, d, n);
  }

  lemma CommitNone(from: seq<Db>, db: Db, f: Folder, ops: seq<Op>)
    ensures CommitsAlong(from, from, db, f, ops)
  {}

  /** SELECT COUNT(*) FROM pending_operations: does the write-lock hold? */
  method IsLocked(store: Store, k: Key) returns (locked: bool)
    ensures locked <==> exists i :: 0 <= i < |store.pending| && store.pending[i].account == k.account
                          && store.pending[i].resource == k.id && store.pending[i].status == Pending
    ensures locked == Locked(store.Snapshot(), k)
  {
    var hits := set i | 0 <= i < |store.pending| && PendingFor(store.pending[i], k);
    var count := |hits|;
    locked := count > 0;
    if locked {
      var i :| i in hits;
      assert store.pending[i] in store.pending && store.pending[i].account == k.account;
    } else {
      forall i | 0 <= i < |store.pending| ensures !PendingFor(store.pending[i], k) {
        assert i !in hits;
      }
    }
  }

  /** `upsert_message`: thread, message and label, unless the write-lock holds. */
  method UpsertRow(store: Store, f: Folder, m: RemoteMessage)
    modifies store
    ensures store.Snapshot() == Exec(old(store.Snapshot()), f, Upsert(m))
    ensures store.commits == old(store.commits)
  {
    var k := MessageKey(f.account, m.folder, m.uid);
    var locked := IsLocked(store, k);
    if locked { return; }
    var thread := UpsertedThread(if k in store.threads then Some(store.threads[k]) else None, m);
    store.threads := store.threads[k := thread];
    var row := UpsertedMessage(if k in store.messages then Some(store.messages[k]) else None, f.account, m);
    store.messages := store.messages[k := row];
    store.threadLabels := store.threadLabels + {ThreadLabel(k, f.labelId)};
  }

  method SweepThreads(store: Store, account: string)
    modifies store
    ensures store.Snapshot() == SweepOrphans(old(store.Snapshot()), account)
    ensures store.commits == old(store.commits)
  {
    var orphans := set k | k in store.threads && k.account == account
      && !exists j :: j in store.messages && j.account == account && store.messages[j].threadId == k.id;
    assert orphans == Orphans(store.Snapshot(), account);
    store.threads := store.threads - orphans;
    store.threadLabels := set tl | tl in store.threadLabels && tl.thread !in orphans;
  }

  lemma CountWithout<K, V>(m: map<K, V>, gone: set<K>)
    requires gone <= m.Keys
    ensures |m - gone| == |m| - |gone|
  {
    assert (m - gone).Keys == m.Keys - gone;
  }

  /** One vanished UID; returns `rows_affected` of the message delete. */
  method DeleteUid(store: Store, f: Folder, uid: u32) returns (affected: nat)
    modifies store
    ensures store.Snapshot() == Exec(old(store.Snapshot()), f, Vanish(uid))
    ensures affected == |old(store.Snapshot()).messages| - |store.Snapshot().messages|
    ensures store.commits == old(store.commits)
  {
    hide MessageId;
    ghost var before := store.Snapshot();
    var id := MessageId(f.account, f.path, uid);
    var gone := set k | k in store.messages && k.id == id;
    assert gone == WithId(before.messages, id);
    affected := |gone|;
    CountWithout(store.messages, gone);
    store.messages := store.messages - gone;
    store.bodies := store.bodies - gone;
    var bodies := set k | k in store.bodies && k.id == id;
    assert store.bodies == DeleteMessages(before, gone).bodies && bodies == WithId(store.bodies, id);
    store.bodies := store.bodies - bodies;
  }

  ghost predicate FlagHit(db: Db, f: Folder, u: FlagUpdate) {
    !UidLocked(db, f, u.uid) && AtUid(db, f, u.uid) != {}
  }

  /** The flag changes that find an unlocked row. */
  ghost function FlagHits(db: Db, f: Folder, us: seq<FlagUpdate>): seq<FlagUpdate> {
    Filter(us, (u: FlagUpdate) => FlagHit(db, f, u))
  }

  /** The same rows at the same folder and UID, under the same locks. */
  ghost predicate SameRows(d: Db, e: Db) {
    && d.messages.Keys == e.messages.Keys && d.pending == e.pending
    && forall k :: k in d.messages ==>
         d.messages[k].imapFolder == e.messages[k].imapFolder && d.messages[k].imapUid == e.messages[k].imapUid
  }

  lemma FlagsKeepRows(db: Db, f: Folder, u: FlagUpdate)
    ensures SameRows(db, FlagMessage(db, f, u)) && SameRows(db, FlagThread(db, f, u))
  {
    hide MessageId;
    var after := FlagMessage(db, f, u);
    assert FlagThread(db, f, u).messages == db.messages;
    forall k | k in db.messages
      ensures k in after.messages
      ensures after.messages[k].imapFolder == db.messages[k].imapFolder
      ensures after.messages[k].imapUid == db.messages[k].imapUid
    {
      if !Locked(db, MessageKey(f.account, f.path, u.uid)) && k in AtUid(db, f, u.uid) {
        assert after.messages[k] == db.messages[k].(isRead := u.isRead, isStarred := u.isStarred);
      }
    }
    assert after.messages.Keys <= db.messages.Keys;
  }

  lemma SameRowsSameHits(d: Db, e: Db, f: Folder, u: FlagUpdate)
    requires SameRows(d, e)
    ensures FlagHit(d, f, u) == FlagHit(e, f, u)
  {
    assert AtUid(d, f, u.uid) == AtUid(e, f, u.uid);
  }

  lemma {:induction false} FlagOpsAt(us: seq<FlagUpdate>, i: nat)
    requires i < |us|
    ensures FlagOps(us)[..2 * i] == FlagOps(us[..i])
    ensures FlagOps(us)[2 * i] == SetMessageFlags(us[i]) && FlagOps(us)[2 * i + 1] == SetThreadFlags(us[i])
  {
    var init := us[..|us| - 1];
    if i < |us| - 1 {
      FlagOpsAt(init, i);
      assert init[..i] == us[..i];
      assert FlagOps(us)[..2 * i] == FlagOps(init)[..2 * i];
    }
  }

  lemma RunNext(db: Db, f: Folder, ops: seq<Op>, n: nat)
    requires n < |ops|
    ensures Run(db, f, ops[..n + 1]) == Exec(Run(db, f, ops[..n]), f, ops[n])
  {
    assert ops[..n + 1][..n] == ops[..n];
  }

  /** UPDATE messages by account, folder and UID. */
  method FlagRows(store: Store, f: Folder, u: FlagUpdate) returns (hit: bool)
    requires !UidLocked(store.Snapshot(), f, u.uid)
    modifies store
    ensures store.Snapshot() == FlagMessage(old(store.Snapshot()), f, u)
    ensures store.commits == old(store.commits) + [store.Snapshot()]
    ensures hit == (AtUid(old(store.Snapshot()), f, u.uid) != {})
  {
    hide MessageId, Locked;
    var rows := set k | k in store.messages && k.account == f.account
      && store.messages[k].imapFolder == f.path && store.messages[k].imapUid == u.uid;
    assert rows == AtUid(store.Snapshot(), f, u.uid);
    store.messages := store.messages + map k | k in rows ::
      store.messages[k].(isRead := u.isRead, isStarred := u.isStarred);
    store.Commit();
    hit := rows != {};
  }

  /** UPDATE threads by id alone. */
  method MirrorFlags(store: Store, f: Folder, u: FlagUpdate)
    requires !UidLocked(store.Snapshot(), f, u.uid) && AtUid(store.Snapshot(), f, u.uid) != {}
    modifies store
    ensures store.Snapshot() == FlagThread(old(store.Snapshot()), f, u)
    ensures store.commits == old(store.commits) + [store.Snapshot()]
  {
    hide MessageId, Locked, AtUid;
    var mirror := set k | k in store.threads && k.id == MessageId(f.account, f.path, u.uid);
    assert mirror == WithId(store.threads, MessageId(f.account, f.path, u.uid));
    store.threads := store.threads + map k | k in mirror ::
      store.threads[k].(isRead := u.isRead, isStarred := u.isStarred);
    store.Commit();
  }

  /** The two statements of a flag change when there is no lock, or no row. */
  lemma FlagStatements(db: Db, f: Folder, u: FlagUpdate)
    ensures UidLocked(db, f, u.uid) ==> FlagMessage(db, f, u) == db && FlagThread(db, f, u) == db
    ensures var mid := FlagMessage(db, f, u);
            && UidLocked(mid, f, u.uid) == UidLocked(db, f, u.uid)
            && (AtUid(mid, f, u.uid) == {} <==> AtUid(db, f, u.uid) == {})
            && (!FlagHit(db, f, u) ==> FlagThread(mid, f, u) == mid)
  {
    hide MessageId;
    FlagsKeepRows(db, f, u);
    assert AtUid(FlagMessage(db, f, u), f, u.uid) == AtUid(db, f, u.uid);
  }

  /** One flag change: the message, then its thread if a row was hit; each
      statement commits by itself. */
  method ApplyFlagUpdate(store: Store, f: Folder, u: FlagUpdate) returns (hit: bool)
    modifies store
    ensures var mid := Exec(old(store.Snapshot()), f, SetMessageFlags(u));
            && store.Snapshot() == Exec(mid, f, SetThreadFlags(u))
            && (store.commits == old(store.commits) || store.commits == old(store.commits) + [mid]
                || store.commits == old(store.commits) + [mid] + [store.Snapshot()])
    ensures hit == FlagHit(old(store.Snapshot()), f, u)
  {
    hide FlagMessage, FlagThread, Locked, AtUid;
    FlagStatements(store.Snapshot(), f, u);
    var locked := IsLocked(store, MessageKey(f.account, f.path, u.uid));
    if locked { return false; }
    hit := FlagRows(store, f, u);
    if hit {
      MirrorFlags(store, f, u);
    }
  }

  lemma FlagHitsNext(db: Db, f: Folder, us: seq<FlagUpdate>, i: nat)
    requires i < |us|
    ensures FlagHits(db, f, us[..i + 1]) == FlagHits(db, f, us[..i]) + if FlagHit(db, f, us[i]) then [us[i]] else []
  {
    assert us[..i + 1][..i] == us[..i];
  }

  lemma FlagsStartFacts(db: Db, f: Folder, us: seq<FlagUpdate>)
    ensures Run(db, f, FlagOps(us)[..0]) == db && SameRows(db, db) && FlagHits(db, f, us[..0]) == []
  {}

  lemma FlagStepFacts(db: Db, before: Db, f: Folder, us: seq<FlagUpdate>, i: nat)
    requires SameRows(db, before) && i < |us|
    ensures SameRows(db, Exec(Exec(before, f, SetMessageFlags(us[i])), f, SetThreadFlags(us[i])))
    ensures FlagHit(before, f, us[i]) == FlagHit(db, f, us[i])
    ensures |FlagHits(db, f, us[..i + 1])| == |FlagHits(db, f, us[..i])| + if FlagHit(db, f, us[i]) then 1 else 0
  {
    hide FlagMessage, FlagThread, FlagHit, FlagHits;
    FlagsKeepRows(before, f, us[i]);
    FlagsKeepRows(FlagMessage(before, f, us[i]), f, us[i]);
    SameRowsSameHits(db, before, f, us[i]);
    FlagHitsNext(db, f, us, i);
  }

  /** CONDSTORE flag changes, one autocommitted statement after the other. */
  method ApplyFlagUpdates(store: Store, f: Folder, updates: seq<FlagUpdate>) returns (applied: nat)
    modifies store
    ensures store.Snapshot() == Run(old(store.Snapshot()), f, FlagOps(updates))
    ensures applied == |FlagHits(old(store.Snapshot()), f, updates)|
    ensures CommitsAlong(old(store.commits), store.commits, old(store.Snapshot()), f, FlagOps(updates))
  {
    hide *;
    ghost var db := store.Snapshot();
    ghost var ops := FlagOps(updates);
    applied := 0;
    FlagsStartFacts(db, f, updates);
    CommitNone(store.commits, db, f, ops);
    for i := 0 to |updates|
      invariant store.Snapshot() == Run(db, f, ops[..2 * i])
      invariant SameRows(db, store.Snapshot())
      invariant applied == |FlagHits(db, f, updates[..i])|
      invariant CommitsAlong(old(store.commits), store.commits, db, f, ops)
    {
      ghost var before, commits := store.Snapshot(), store.commits;
      var hit := ApplyFlagUpdate(store, f, updates[i]);
      FlagOpsAt(updates, i);
      RunNext(db, f, ops, 2 * i);
      RunNext(db, f, ops, 2 * i + 1);
      FlagStepFacts(db, before, f, updates, i);
      CommitNext(old(store.commits), commits, db, f, ops, 2 * i + 1);
      CommitNext(old(store.commits), commits + [Run(db, f, ops[..2 * i + 1])], db, f, ops, 2 * i + 2);
      if hit {
        applied := applied + 1;
      }
    }
    assert ops[..2 * |updates|] == ops;
    assert updates[..|updates|] == updates;
  }

  lemma ProgramUpsert(d: FolderDelta, i: nat)
    requires i < |d.added| + |d.updated|
    ensures |WipePhase(d)| + i < |Program(d)|
    ensures Program(d)[|WipePhase(d)| + i] == Upsert((d.added + d.updated)[i])
  {}

  lemma ProgramVanish(d: FolderDelta, i: nat)
    requires i < |d.vanishedUids|
    ensures |WipePhase(d)| + |UpsertPhase(d)| + i < |Program(d)|
    ensures Program(d)[|WipePhase(d)| + |UpsertPhase(d)| + i] == Vanish(d.vanishedUids[i])
  {}

  /** Number of statements before the flag changes. */
  function FlagsStart(d: FolderDelta): nat {
    |WipePhase(d)| + |UpsertPhase(d)| + |VanishPhase(d)| + |SweepPhase(d)|
  }

  lemma ProgramTail(db: Db, f: Folder, d: FolderDelta, n: nat)
    requires n <= |FlagOps(d.flagUpdates)|
    ensures FlagsStart(d) + n <= |Program(d)|
    ensures Run(Run(db, f, Program(d)[..FlagsStart(d)]), f, FlagOps(d.flagUpdates)[..n])
        == Run(db, f, Program(d)[..FlagsStart(d) + n])
  {
    var head := WipePhase(d) + UpsertPhase(d) + VanishPhase(d) + SweepPhase(d);
    assert Program(d)[..FlagsStart(d)] == head;
    assert Program(d)[..FlagsStart(d) + n] == head + FlagOps(d.flagUpdates)[..n];
    RunAppend(db, f, head, FlagOps(d.flagUpdates)[..n]);
  }

  lemma CommitsTail(from: seq<Db>, mid: seq<Db>, now: seq<Db>, db: Db, f: Folder, d: FolderDelta)
    requires CommitsAlong(from, mid, db, f, Program(d))
    requires CommitsAlong(mid, now, Run(db, f, Program(d)[..FlagsStart(d)]), f, FlagOps(d.flagUpdates))
    ensures CommitsAlong(from, now, db, f, Program(d))
  {
    var start := Run(db, f, Program(d)[..FlagsStart(d)]);
    forall i | |from| <= i < |now| ensures PassesThrough(db, f, Program(d), now[i]) {
      if i < |mid| {
        assert now[i] == mid[i];
      } else {
        var n: nat :| n <= |FlagOps(d.flagUpdates)| && now[i] == Run(start, f, FlagOps(d.flagUpdates)[..n]);
        ProgramTail(db, f, d, n);
      }
    }
  }

  /** Message count before the vanished UIDs are deleted. */
  ghost function CountBeforeVanish(db: Db, f: Folder, d: FolderDelta): nat {
    |Run(db, f, Program(d)[..|WipePhase(d)| + |UpsertPhase(d)|]).messages|
  }

  ghost function BeforeFlags(db: Db, f: Folder, d: FolderDelta): Db {
    Run(db, f, Program(d)[..FlagsStart(d)])
  }

  /** The UIDVALIDITY wipe, a transaction of its own. */
  method WipeFolderRows(store: Store, f: Folder)
    modifies store
    ensures store.Snapshot() == Exec(old(store.Snapshot()), f, Wipe)
    ensures store.commits == old(store.commits) + [store.Snapshot()]
  {
    var gone := set k | k in store.messages && k.account == f.account && store.messages[k].imapFolder == f.path;
    assert gone == InFolder(store.Snapshot(), f.account, f.path);
    store.messages := store.messages - gone;
    store.bodies := store.bodies - gone;
    SweepThreads(store, f.account);
    store.Commit();
  }

  /** One transaction of upserts, `added` before `updated`. */
  method UpsertChunk(store: Store, f: Folder, d: FolderDelta, lo: nat, hi: nat, ghost db: Db)
    requires lo <= hi <= |d.added| + |d.updated|
    requires store.Snapshot() == Run(db, f, Program(d)[..|WipePhase(d)| + lo])
    modifies store
    ensures store.Snapshot() == Run(db, f, Program(d)[..|WipePhase(d)| + hi])
    ensures store.commits == old(store.commits) + [store.Snapshot()]
  {
    hide *;
    for i := lo to hi
      invariant store.Snapshot() == Run(db, f, Program(d)[..|WipePhase(d)| + i])
      invariant store.commits == old(store.commits)
    {
      var m := if i < |d.added| then d.added[i] else d.updated[i - |d.added|];
      UpsertRow(store, f, m);
      ProgramUpsert(d, i);
      RunNext(db, f, Program(d), |WipePhase(d)| + i);
    }
    store.Commit();
  }

  /** The upsert phase: chunk after chunk. */
  method UpsertAll(store: Store, f: Folder, d: FolderDelta, batch: nat, ghost db: Db, ghost from: seq<Db>)
    requires batch >= 1
    requires store.Snapshot() == Run(db, f, Program(d)[..|WipePhase(d)|])
    requires CommitsAlong(from, store.commits, db, f, Program(d))
    modifies store
    ensures store.Snapshot() == Run(db, f, Program(d)[..|WipePhase(d)| + |UpsertPhase(d)|])
    ensures CommitsAlong(from, store.commits, db, f, Program(d))
  {
    hide *;
    var total := |d.added| + |d.updated|;
    var upsertIdx := 0;
    while upsertIdx < total
      invariant upsertIdx <= total
      invariant store.Snapshot() == Run(db, f, Program(d)[..|WipePhase(d)| + upsertIdx])
      invariant CommitsAlong(from, store.commits, db, f, Program(d))
    {
      var chunkEnd := if upsertIdx + batch < total then upsertIdx + batch else total;
      CommitNext(from, store.commits, db, f, Program(d), |WipePhase(d)| + chunkEnd);
      UpsertChunk(store, f, d, upsertIdx, chunkEnd, db);
      upsertIdx := chunkEnd;
    }
  }

  /** One transaction of deletes by composed id. */
  method VanishChunk(store: Store, f: Folder, d: FolderDelta, lo: nat, hi: nat, ghost db: Db) returns (deleted: nat)
    requires lo <= hi <= |d.vanishedUids|
    requires store.Snapshot() == Run(db, f, Program(d)[..|WipePhase(d)| + |UpsertPhase(d)| + lo])
    modifies store
    ensures store.Snapshot() == Run(db, f, Program(d)[..|WipePhase(d)| + |UpsertPhase(d)| + hi])
    ensures store.commits == old(store.commits) + [store.Snapshot()]
    ensures deleted == |old(store.Snapshot()).messages| - |store.Snapshot().messages|
  {
    hide *;
    deleted := 0;
    for i := lo to hi
      invariant store.Snapshot() == Run(db, f, Program(d)[..|WipePhase(d)| + |UpsertPhase(d)| + i])
      invariant store.commits == old(store.commits)
      invariant deleted == |old(store.Snapshot()).messages| - |store.Snapshot().messages|
    {
      var affected := DeleteUid(store, f, d.vanishedUids[i]);
      deleted := deleted + affected;
      ProgramVanish(d, i);
      RunNext(db, f, Program(d), |WipePhase(d)| + |UpsertPhase(d)| + i);
    }
    store.Commit();
  }

  /** The vanish phase: chunk after chunk. */
  method DeleteVanishedUids(store: Store, f: Folder, d: FolderDelta, batch: nat, ghost db: Db, ghost from: seq<Db>)
    returns (deleted: nat)
    requires batch >= 1
    requires store.Snapshot() == Run(db, f, Program(d)[..|WipePhase(d)| + |UpsertPhase(d)|])
    requires CommitsAlong(from, store.commits, db, f, Program(d))
    modifies store
    ensures store.Snapshot() == Run(db, f, Program(d)[..|WipePhase(d)| + |UpsertPhase(d)| + |VanishPhase(d)|])
    ensures CommitsAlong(from, store.commits, db, f, Program(d))
    ensures deleted == |old(store.Snapshot()).messages| - |store.Snapshot().messages|
  {
    hide *;
    deleted := 0;
    var vanIdx := 0;
    while vanIdx < |d.vanishedUids|
      invariant vanIdx <= |d.vanishedUids|
      invariant store.Snapshot() == Run(db, f, Program(d)[..|WipePhase(d)| + |UpsertPhase(d)| + vanIdx])
      invariant CommitsAlong(from, store.commits, db, f, Program(d))
      invariant deleted == |old(store.Snapshot()).messages| - |store.Snapshot().messages|
    {
      var chunkEnd := if vanIdx + batch < |d.vanishedUids| then vanIdx + batch else |d.vanishedUids|;
      CommitNext(from, store.commits, db, f, Program(d), |WipePhase(d)| + |UpsertPhase(d)| + chunkEnd);
      var n := VanishChunk(store, f, d, vanIdx, chunkEnd, db);
      deleted := deleted + n;
      vanIdx := chunkEnd;
    }
  }

  lemma ProgramStart(db: Db, f: Folder, d: FolderDelta)
    ensures Run(db, f, Program(d)[..0]) == db
    ensures d.uidValidityChanged ==> Program(d)[0] == Wipe
    ensures FlagsStart(d) == |WipePhase(d)| + |UpsertPhase(d)| + |VanishPhase(d)| + |SweepPhase(d)| <= |Program(d)|
  {}

  lemma ProgramSweep(before: Db, f: Folder, d: FolderDelta)
    requires d.vanishedUids != []
    ensures Program(d)[FlagsStart(d) - 1] == Sweep
    ensures Exec(before, f, Sweep) == SweepOrphans(before, f.account)
    ensures SweepOrphans(before, f.account).messages == before.messages
  {}

  lemma BeforeFlagsDefined(db: Db, f: Folder, d: FolderDelta)
    ensures BeforeFlags(db, f, d) == Run(db, f, Program(d)[..FlagsStart(d)])
    ensures CountBeforeVanish(db, f, d) == |Run(db, f, Program(d)[..|WipePhase(d)| + |UpsertPhase(d)|]).messages|
  {
    hide Run, Program;
  }

  lemma ProgramEnd(db: Db, f: Folder, d: FolderDelta)
    ensures Run(BeforeFlags(db, f, d), f, FlagOps(d.flagUpdates)) == ApplyDelta(db, f, d)
  {
    hide Run, FlagOps;
    ProgramTail(db, f, d, |FlagOps(d.flagUpdates)|);
    assert FlagOps(d.flagUpdates)[..|FlagOps(d.flagUpdates)|] == FlagOps(d.flagUpdates);
    assert Program(d)[..|Program(d)|] == Program(d);
  }

  /** Apply a folder delta in transactions of `batch` messages. Whatever the batch
      size the outcome is the one-by-one program, every commit on the way is a
      state of that program, and `deleted` counts the messages really removed. */
  method ApplyFolderDelta(store: Store, f: Folder, d: FolderDelta, batch: nat := APPLY_BATCH_SIZE)
    returns (counts: AppliedCounts)
    requires batch >= 1
    modifies store
    ensures store.Snapshot() == ApplyDelta(old(store.Snapshot()), f, d)
    ensures CommitsAlong(old(store.commits), store.commits, old(store.Snapshot()), f, Program(d))
    ensures counts.added == |d.added|
    ensures counts.updated == |d.updated| + |FlagHits(BeforeFlags(old(store.Snapshot()), f, d), f, d.flagUpdates)|
    ensures counts.deleted
        == CountBeforeVanish(old(store.Snapshot()), f, d) - |BeforeFlags(old(store.Snapshot()), f, d).messages|
  {
    hide *;
    ghost var db := store.Snapshot();
    ghost var ops := Program(d);
    ProgramStart(db, f, d);
    CommitNone(store.commits, db, f, ops);
    if d.uidValidityChanged {
      WipeFolderRows(store, f);
      RunNext(db, f, ops, 0);
      CommitNext(old(store.commits), old(store.commits), db, f, ops, 1);
    }
    UpsertAll(store, f, d, batch, db, old(store.commits));
    var deleted := 0;
    ghost var atVanish := store.Snapshot();
    if d.vanishedUids != [] {
      deleted := DeleteVanishedUids(store, f, d, batch, db, old(store.commits));
      ghost var before, commits := store.Snapshot(), store.commits;
      SweepThreads(store, f.account);
      ProgramSweep(before, f, d);
      RunNext(db, f, ops, FlagsStart(d) - 1);
      CommitNext(old(store.commits), commits, db, f, ops, FlagsStart(d));
      store.Commit();
    }
    assert store.Snapshot() == BeforeFlags(db, f, d) && |atVanish.messages| == CountBeforeVanish(db, f, d) by {
      BeforeFlagsDefined(db, f, d);
    }
    ghost var mid := store.commits;
    var flagged := ApplyFlagUpdates(store, f, d.flagUpdates);
    CommitsTail(old(store.commits), mid, store.commits, db, f, d);
    ProgramEnd(db, f, d);
    counts := AppliedCounts(|d.added|, |d.updated| + flagged, deleted);
  }

  /** The UIDs cached for a folder, each row's once. */
  method ListLocalUids(store: Store, f: Folder) returns (uids: seq<u32>)
    ensures forall u: u32 :: u in uids <==> u in LocalUids(store.Snapshot(), f)
    ensures |uids| == |InFolder(store.Snapshot(), f.account, f.path)|
  {
    var todo := set k | k in store.messages && k.account == f.account && store.messages[k].imapFolder == f.path;
    ghost var rows := InFolder(store.Snapshot(), f.account, f.path);
    assert todo == rows;
    uids := [];
    while todo != {}
      invariant todo <= rows
      invariant forall u: u32 :: u in uids <==> exists k :: k in rows - todo && store.messages[k].imapUid == u
      invariant |uids| + |todo| == |rows|
      decreases |todo|
    {
      var k :| k in todo;
      uids := uids + [store.messages[k].imapUid];
      todo := todo - {k};
    }
  }

  // ---- Crypto flags from the body fetch ----

  function RaisedMessage(m: Message, encrypted: bool, signed: bool): Message {
    m.(isEncrypted := m.isEncrypted || encrypted, isSigned := m.isSigned || signed)
  }

  function RaisedThread(t: Thread, encrypted: bool, signed: bool): Thread {
    t.(isEncrypted := t.isEncrypted || encrypted, isSigned := t.isSigned || signed)
  }

  /** The flags are raised, never lowered, on the message and on its thread. */
  function CryptoFlags(db: Db, k: Key, hasCiphertext: bool, hasSignedPart: bool): Db {
    var encrypted, signed := hasCiphertext && !hasSignedPart, hasSignedPart;
    if k !in db.messages then db
    else
      var t := Key(k.account, db.messages[k].threadId);
      db.(messages := db.messages[k := RaisedMessage(db.messages[k], encrypted, signed)],
          threads := if t in db.threads then db.threads[t := RaisedThread(db.threads[t], encrypted, signed)]
                     else db.threads)
  }

  method RaiseMessage(store: Store, k: Key, encrypted: bool, signed: bool)
    modifies store`messages
    ensures store.messages == if k in old(store.messages)
      then old(store.messages)[k := RaisedMessage(old(store.messages)[k], encrypted, signed)] else old(store.messages)
  {
    if encrypted && k in store.messages && !store.messages[k].isEncrypted {
      store.messages := store.messages[k := store.messages[k].(isEncrypted := true)];
    }
    if signed && k in store.messages && !store.messages[k].isSigned {
      store.messages := store.messages[k := store.messages[k].(isSigned := true)];
    }
  }

  method RaiseThread(store: Store, k: Key, encrypted: bool, signed: bool)
    modifies store`threads
    ensures store.threads == if k in old(store.threads)
      then old(store.threads)[k := RaisedThread(old(store.threads)[k], encrypted, signed)] else old(store.threads)
  {
    if encrypted && k in store.threads && !store.threads[k].isEncrypted {
      store.threads := store.threads[k := store.threads[k].(isEncrypted := true)];
    }
    if signed && k in store.threads && !store.threads[k].isSigned {
      store.threads := store.threads[k := store.threads[k].(isSigned := true)];
    }
  }

  lemma NothingRaised(db: Db, k: Key)
    ensures CryptoFlags(db, k, false, false) == db
  {
    if k in db.messages {
      var t := Key(k.account, db.messages[k].threadId);
      assert db.messages[k := db.messages[k]] == db.messages;
      assert t in db.threads ==> db.threads[t := db.threads[t]] == db.threads;
    }
  }

  /** Flips 0 to 1 on the message and mirrors the flip onto its thread. */
  method SetMessageCryptoFlags(store: Store, k: Key, hasCiphertext: bool, hasSignedPart: bool)
    modifies store
    ensures store.Snapshot() == CryptoFlags(old(store.Snapshot()), k, hasCiphertext, hasSignedPart)
  {
    var encrypted := hasCiphertext && !hasSignedPart;
    var signed := hasSignedPart;
    if !encrypted && !signed {
      NothingRaised(store.Snapshot(), k);
      return;
    }
    RaiseMessage(store, k, encrypted, signed);
    if k in store.messages {
      RaiseThread(store, Key(k.account, store.messages[k].threadId), encrypted, signed);
    }
    store.Commit();
  }

  ghost predicate ThreadOf(db: Db, k: Key, t: Key) {
    k in db.messages && t == Key(k.account, db.messages[k].threadId)
  }

  /** Row by row: one message and one thread are raised, and nothing else changes. */
  lemma CryptoFlagsAt(db: Db, k: Key, c: bool, p: bool)
    ensures var after := CryptoFlags(db, k, c, p);
            && after == db.(messages := after.messages, threads := after.threads)
            && after.messages.Keys == db.messages.Keys && after.threads.Keys == db.threads.Keys
            && (forall j :: j in db.messages ==>
                  after.messages[j] == if j == k then RaisedMessage(db.messages[j], c && !p, p) else db.messages[j])
            && (forall t :: t in db.threads ==>
                  after.threads[t]
                      == if ThreadOf(db, k, t) then RaisedThread(db.threads[t], c && !p, p) else db.threads[t])
            && (forall j, t :: ThreadOf(after, j, t) <==> ThreadOf(db, j, t))
  {}

  /** An encrypted part alone raises the encrypted flag, a signed part the signed flag, on
      the message and on its thread; both keep what they had. */
  lemma CryptoColumns(db: Db, k: Key, hasCiphertext: bool, hasSignedPart: bool)
    requires k in db.messages
    ensures var after, t := CryptoFlags(db, k, hasCiphertext, hasSignedPart), Key(k.account, db.messages[k].threadId);
            && k in after.messages
            && after.messages[k] == db.messages[k].(
                 isEncrypted := db.messages[k].isEncrypted || (hasCiphertext && !hasSignedPart),
                 isSigned := db.messages[k].isSigned || hasSignedPart)
            && (t in db.threads ==>
                  && t in after.threads
                  && after.threads[t] == db.threads[t].(
                       isEncrypted := db.threads[t].isEncrypted || (hasCiphertext && !hasSignedPart),
                       isSigned := db.threads[t].isSigned || hasSignedPart))
  {
    CryptoFlagsAt(db, k, hasCiphertext, hasSignedPart);
  }

  lemma RaisingCommutes(e: bool, s: bool, e': bool, s': bool)
    ensures forall m :: RaisedMessage(RaisedMessage(m, e, s), e', s') == RaisedMessage(RaisedMessage(m, e', s'), e, s)
    ensures forall t :: RaisedThread(RaisedThread(t, e, s), e', s') == RaisedThread(RaisedThread(t, e', s'), e, s)
  {}

  /** Both orders raise the same messages and threads. */
  lemma CryptoRowsCommute(db: Db, k: Key, c: bool, p: bool, l: Key, c': bool, p': bool)
    ensures var a := CryptoFlags(CryptoFlags(db, k, c, p), l, c', p');
            var b := CryptoFlags(CryptoFlags(db, l, c', p'), k, c, p);
            && a == db.(messages := a.messages, threads := a.threads)
            && a.messages.Keys == b.messages.Keys == db.messages.Keys
            && a.threads.Keys == b.threads.Keys == db.threads.Keys
            && (forall j :: j in db.messages ==> a.messages[j] == b.messages[j])
            && (forall t :: t in db.threads ==> a.threads[t] == b.threads[t])
  {
    hide CryptoFlags, ThreadOf, RaisedMessage, RaisedThread;
    var first, second := CryptoFlags(db, k, c, p), CryptoFlags(db, l, c', p');
    CryptoFlagsAt(db, k, c, p);
    CryptoFlagsAt(first, l, c', p');
    CryptoFlagsAt(db, l, c', p');
    CryptoFlagsAt(second, k, c, p);
    RaisingCommutes(c && !p, p, c' && !p', p');
  }

  /** Body fetches may report in any order and more than once. */
  lemma CryptoFlagsCommute(db: Db, k: Key, c: bool, p: bool, l: Key, c': bool, p': bool)
    ensures CryptoFlags(CryptoFlags(db, k, c, p), l, c', p') == CryptoFlags(CryptoFlags(db, l, c', p'), k, c, p)
  {
    hide *;
    CryptoRowsCommute(db, k, c, p, l, c', p');
    CryptoRowsCommute(db, l, c', p', k, c, p);
    var a, b := CryptoFlags(CryptoFlags(db, k, c, p), l, c', p'), CryptoFlags(CryptoFlags(db, l, c', p'), k, c, p);
    assert a.messages == b.messages;
    assert a.threads == b.threads;
  }

  lemma CryptoFlagsOnce(db: Db, k: Key, c: bool, p: bool)
    ensures CryptoFlags(CryptoFlags(db, k, c, p), k, c, p) == CryptoFlags(db, k, c, p)
  {
    hide CryptoFlags, ThreadOf;
    var once := CryptoFlags(db, k, c, p);
    var twice := CryptoFlags(once, k, c, p);
    CryptoFlagsAt(db, k, c, p);
    CryptoFlagsAt(once, k, c, p);
    assert once.messages == twice.messages;
    assert once.threads == twice.threads;
  }

  // ---- Bodies still to fetch ----

  /** The requested messages that exist and have `body_cached = 0`. */
  ghost function Uncached(db: Db, account: string, ids: seq<string>): set<string> {
    set id | id in ids && Key(account, id) in db.messages && !db.messages[Key(account, id)].bodyCached
  }

  /** Chunks of the request, each answered as one SELECT answers it: every matching
      row once. */
  method GetUncachedBodyMessageIds(store: Store, account: string, ids: seq<string>, chunk: nat := 500)
    returns (out: seq<string>)
    requires chunk >= 1
    ensures forall id :: id in out <==> id in Uncached(store.Snapshot(), account, ids)
  {
    out := [];
    var at := 0;
    while at < |ids|
      invariant at <= |ids|
      invariant forall id :: id in out <==> id in Uncached(store.Snapshot(), account, ids[..at])
    {
      var end := if at + chunk < |ids| then at + chunk else |ids|;
      var wanted := set id | id in ids[at..end];
      var rows := set id | id in wanted && Key(account, id) in store.messages
          && !store.messages[Key(account, id)].bodyCached;
      ghost var before, all := out, rows;
      while rows != {}
        invariant rows <= all
        invariant forall id :: id in out <==> id in before || id in all - rows
        decreases |rows|
      {
        var id :| id in rows;
        out := out + [id];
        rows := rows - {id};
      }
      assert ids[..end] == ids[..at] + ids[at..end];
      at := end;
    }
    assert ids[..at] == ids;
  }
}
