/** What replaying the queue does to the server's flags: when compaction leaves that
    unchanged, and what a replay round makes of it. */
module Replay {
  import opened Prelude
  import opened Text
  import opened Json
  import opened Schema
  import opened Queue
  import opened Mutations

  /** One flag of one message on the server. */
  datatype Mark = Mark(folder: string, uid: u32, flag: string)

  /** The server call of a row: decoded and executed as the replay worker does. */
  function CallOf(op: PendingOp): Result<SourceCall> {
    match FromPending(op.opType, op.resource, op.params)
    case Ok(decoded) => ExecViaSource(decoded)
    case Err(e) => Err(e)
  }

  /** The value the row's server call gives the flag, if it names it. */
  function Sets(op: PendingOp, m: Mark): Option<bool> {
    match CallOf(op)
    case Ok(SetFlags(folder, uids, flag, add)) =>
      if folder == m.folder && m.uid in uids && flag == m.flag then Some(add) else None
    case _ => None
  }

  predicate Toggles(op: PendingOp, account: string, m: Mark) {
    op.account == account && op.status == Pending && Sets(op, m).Some?
  }

  /** The flag after the pending rows of the account were replayed oldest first. */
  function FlagAfter(q: seq<PendingOp>, account: string, m: Mark, before: bool): bool {
    if q == [] then before
    else
      var last := q[|q| - 1];
      if Toggles(last, account, m) then Sets(last, m).value else FlagAfter(q[..|q| - 1], account, m, before)
  }

  lemma {:induction false} FlagAfterAppend(p: seq<PendingOp>, q: seq<PendingOp>, account: string, m: Mark, before: bool)
    ensures FlagAfter(p + q, account, m, before) == FlagAfter(q, account, m, FlagAfter(p, account, m, before))
  {
    if q == [] {
      assert p + q == p;
    } else {
      assert (p + q)[..|p + q| - 1] == p + q[..|q| - 1];
      FlagAfterAppend(p, q[..|q| - 1], account, m, before);
    }
  }

  /** The pending rows whose call names the flag, in queue order. */
  function Namers(q: seq<PendingOp>, account: string, m: Mark): seq<PendingOp> {
    Filter(q, (op: PendingOp) => Toggles(op, account, m))
  }

  /** The value the last of these rows gives the flag. */
  function Decided(named: seq<PendingOp>, m: Mark, before: bool): bool {
    if named == [] || Sets(named[|named| - 1], m).None? then before else Sets(named[|named| - 1], m).value
  }

  lemma {:induction false} LastNamerDecides(q: seq<PendingOp>, account: string, m: Mark, before: bool)
    ensures FlagAfter(q, account, m, before) == Decided(Namers(q, account, m), m, before)
  {
    if q != [] {
      LastNamerDecides(q[..|q| - 1], account, m, before);
    }
  }

  lemma NamersIn(q: seq<PendingOp>, account: string, m: Mark)
    ensures forall op :: op in Namers(q, account, m) <==> op in q && Toggles(op, account, m)
  {
    FilterIn(q, (op: PendingOp) => Toggles(op, account, m));
  }

  // ---- Compaction, for any queue ----

  predicate SurvivesIn(q: seq<PendingOp>, account: string, op: PendingOp) {
    Survives(Group(q, account, op.resource, op.opType), op)
  }

  /** The rows naming the flag that compaction spares: by the ids and reads of their groups. */
  function Spared(q: seq<PendingOp>, account: string, m: Mark): seq<PendingOp> {
    Filter(Namers(q, account, m), (op: PendingOp) => SurvivesIn(q, account, op))
  }

  lemma NamersAreToggles(op: PendingOp, m: Mark)
    requires Sets(op, m).Some?
    ensures IsToggleType(op.opType)
  {}

  lemma NamersCompacted(q: seq<PendingOp>, account: string, m: Mark)
    ensures Namers(Compacted(q, account), account, m) == Spared(q, account, m)
  {
    hide Filter, Cancelled, Survives, Sets;
    var keep := (op: PendingOp) => !Cancelled(q, account, op);
    FilterCommutes(q, keep, (op: PendingOp) => Toggles(op, account, m));
    NamersIn(q, account, m);
    var named := Namers(q, account, m);
    forall op | op in named ensures keep(op) == SurvivesIn(q, account, op) {
      NamersAreToggles(op, m);
      SurvivesExactly(q, account, op);
    }
    FilterExt(named, keep, (op: PendingOp) => SurvivesIn(q, account, op));
  }

  lemma SparedOfNone(q: seq<PendingOp>, account: string, m: Mark)
    requires Namers(q, account, m) == []
    ensures Spared(q, account, m) == []
  {}

  /** Compaction keeps the meaning of any queue for a flag if and only if no row names it,
      or the last row naming it agrees with the last spared one, or with the flag itself
      when none is spared. */
  lemma CompactionMeaning(q: seq<PendingOp>, account: string, m: Mark, before: bool)
    ensures var named, spared := Namers(q, account, m), Spared(q, account, m);
            (FlagAfter(Compacted(q, account), account, m, before) == FlagAfter(q, account, m, before)
             <==> named == [] || Decided(spared, m, before) == Decided(named, m, before))
  {
    hide Filter, Cancelled, Survives, Sets, FlagAfter;
    LastNamerDecides(q, account, m, before);
    LastNamerDecides(Compacted(q, account), account, m, before);
    NamersCompacted(q, account, m);
    if Namers(q, account, m) == [] { SparedOfNone(q, account, m); }
  }

  // ---- The special case of one group with increasing ids ----

  /** The rows that name the flag are one group, written by `encode_params`. */
  ghost predicate OneGroup(q: seq<PendingOp>, account: string, resource: string, opType: string, m: Mark) {
    Namers(q, account, m) == Group(q, account, resource, opType) && forall op :: op in q ==> Encoded(op)
  }

  /** Rows written by `encode_params` switch on exactly when `read` is 1. */
  lemma EncodedSets(op: PendingOp, m: Mark)
    requires Encoded(op) && IsToggleType(op.opType)
    ensures ReadOf(op) == Some(0) || ReadOf(op) == Some(1)
    ensures Sets(op, m).Some? ==> Sets(op, m).value == (ReadOf(op) == Some(1))
  {
    var mut: MutationOp :| op.opType == OpType(mut) && op.params == EncodeParams(mut);
    OpTypesDiffer();
    RecoveredOp(mut, op.resource);
  }

  function FirstSwitchesOn(g: seq<PendingOp>): bool { g != [] && ReadOf(g[0]) == Some(1) }
  function LastSwitchesOff(g: seq<PendingOp>): bool { g != [] && ReadOf(g[|g| - 1]) == Some(0) }

  lemma OneGroupReads(q: seq<PendingOp>, account: string, resource: string, opType: string, m: Mark)
    requires OneGroup(q, account, resource, opType, m)
    ensures ZeroOrOne(Group(q, account, resource, opType))
    ensures forall op :: op in Group(q, account, resource, opType) ==> Sets(op, m) == Some(ReadOf(op) == Some(1))
  {
    hide Sets, ReadOf, Encoded;
    var g := Group(q, account, resource, opType);
    NamersIn(q, account, m);
    forall op | op in g
      ensures (ReadOf(op) == Some(0) || ReadOf(op) == Some(1)) && Sets(op, m) == Some(ReadOf(op) == Some(1))
    {
      NamersAreToggles(op, m);
      EncodedSets(op, m);
    }
    forall i | 0 <= i < |g| ensures ReadOf(g[i]) == Some(0) || ReadOf(g[i]) == Some(1) { assert g[i] in g; }
  }

  lemma SparedOfGroup(q: seq<PendingOp>, account: string, resource: string, opType: string, m: Mark)
    requires OneGroup(q, account, resource, opType, m)
    ensures var g := Group(q, account, resource, opType);
            Spared(q, account, m) == Filter(g, (op: PendingOp) => Survives(g, op))
  {
    hide Filter, Survives, Encoded;
    var g := Group(q, account, resource, opType);
    GroupIn(q, account, resource, opType);
    FilterExt(g, (op: PendingOp) => SurvivesIn(q, account, op), (op: PendingOp) => Survives(g, op));
  }

  /** What a group's ends decide. */
  lemma EndsDecide(g: seq<PendingOp>, m: Mark, before: bool)
    requires ZeroOrOne(g) && LeadLen(g) <= TrailStart(g)
    requires forall op :: op in g ==> Sets(op, m) == Some(ReadOf(op) == Some(1))
    ensures g == [] || Decided(g[..LeadLen(g)] + g[TrailStart(g)..], m, before) == Decided(g, m, before)
       <==> !(FirstSwitchesOn(g) && LastSwitchesOff(g) && before)
  {
    hide Sets, ReadOf;
    var z, t := LeadLen(g), TrailStart(g);
    var ends := g[..z] + g[t..];
    if g != [] {
      assert g[|g| - 1] in g && g[0] in g;
      if t < |g| {
        assert ends[|ends| - 1] == g[|g| - 1];
      } else if z > 0 {
        assert ends[|ends| - 1] == g[z - 1] && g[z - 1] in g;
      }
    }
  }

  /** With increasing ids compaction preserves the meaning of a group of one flag, unless
      the group begins by switching on, ends by switching off, and the flag was already set. */
  lemma CompactionPreservesMeaning(
      q: seq<PendingOp>, account: string, resource: string, opType: string, m: Mark, before: bool)
    requires OneGroup(q, account, resource, opType, m) && IdsIncrease(Group(q, account, resource, opType))
    ensures var g := Group(q, account, resource, opType);
            (FlagAfter(Compacted(q, account), account, m, before) == FlagAfter(q, account, m, before)
             <==> !(FirstSwitchesOn(g) && LastSwitchesOff(g) && before))
  {
    var g := Group(q, account, resource, opType);
    CompactionMeaning(q, account, m, before);
    OneGroupReads(q, account, resource, opType, m);
    SparedOfGroup(q, account, resource, opType, m);
    hide *;
    EndsMeet(g);
    EndsSurvive(g);
    EndsDecide(g, m, before);
  }

  // ---- The replay round ----

  /** A message by the folder and UID the client knows it under. */
  datatype Place = Place(folder: string, uid: u32)

  /** One account on the server: the flags that are set, and for each message the folder
      it now lies in. */
  class MailSource {
    var flags: set<Mark>
    var mail: map<Place, string>
  }

  /** What the server answers to an operation, and when. */
  datatype Answer = Accepted | Refused(error: string, now: int)

  /** Moves and deletes leave the flags of other UIDs alone. */
  function Received(flags: set<Mark>, call: SourceCall): set<Mark> {
    match call
    case SetFlags(folder, uids, flag, add) =>
      var marks := set u | u in uids :: Mark(folder, u, flag);
      if add then flags + marks else flags - marks
    case _ => flags
  }

  /** A message is moved or deleted if it still lies where the client knows it. */
  function Rearranged(mail: map<Place, string>, call: SourceCall): map<Place, string> {
    match call
    case SetFlags(_, _, _, _) => mail
    case MoveMessages(src, uids, dst) =>
      map p | p in mail :: if p.folder == src == mail[p] && p.uid in uids then dst else mail[p]
    case DeleteMessages(folder, uids) =>
      map p | p in mail && !(p.folder == folder == mail[p] && p.uid in uids) :: mail[p]
  }

  predicate Decodes(op: PendingOp) {
    FromPending(op.opType, op.resource, op.params).Ok?
  }

  function Played(flags: set<Mark>, ops: seq<PendingOp>, answer: PendingOp -> Answer): set<Mark> {
    if ops == [] then flags
    else
      var before, last := Played(flags, ops[..|ops| - 1], answer), ops[|ops| - 1];
      if CallOf(last).Ok? && answer(last).Accepted? then Received(before, CallOf(last).value) else before
  }

  function Sorted(mail: map<Place, string>, ops: seq<PendingOp>, answer: PendingOp -> Answer): map<Place, string> {
    if ops == [] then mail
    else
      var before, last := Sorted(mail, ops[..|ops| - 1], answer), ops[|ops| - 1];
      if CallOf(last).Ok? && answer(last).Accepted? then Rearranged(before, CallOf(last).value) else before
  }

  function VerdictOn(op: PendingOp, answer: PendingOp -> Answer): Verdict {
    match answer(op)
    case Accepted => Completed(op.id)
    case Refused(error, now) => FailedAt(op.id, now, error)
  }

  /** Rows that do not decode are skipped and stay. */
  function Settled(q: seq<PendingOp>, ops: seq<PendingOp>, answer: PendingOp -> Answer): seq<PendingOp> {
    if ops == [] then q
    else
      var before, last := Settled(q, ops[..|ops| - 1], answer), ops[|ops| - 1];
      if Decodes(last) then Settle(before, VerdictOn(last, answer)) else before
  }

  /** The server call; a refused one changes nothing, a draft goes out by SMTP. */
  method SendOn(source: MailSource, op: MutationOp, accepted: bool)
    modifies source
    ensures source.flags == if accepted && ExecViaSource(op).Ok?
      then Received(old(source.flags), ExecViaSource(op).value) else old(source.flags)
    ensures source.mail == if accepted && ExecViaSource(op).Ok?
      then Rearranged(old(source.mail), ExecViaSource(op).value) else old(source.mail)
  {
    if !accepted || op.Send? { return; }
    match ExecViaSource(op)
    case Ok(SetFlags(folder, uids, flag, add)) =>
      var marks := set u | u in uids :: Mark(folder, u, flag);
      source.flags := if add then source.flags + marks else source.flags - marks;
    case Ok(MoveMessages(src, uids, dst)) =>
      var hit := set p | p in source.mail && p.folder == src && source.mail[p] == src && p.uid in uids;
      source.mail := source.mail + map p | p in hit :: dst;
    case Ok(DeleteMessages(folder, uids)) =>
      var hit := set p | p in source.mail && p.folder == folder && source.mail[p] == folder && p.uid in uids;
      source.mail := source.mail - hit;
    case _ =>
  }

  method SettleRow(store: Store, id: string, a: Answer)
    modifies store
    ensures store.Snapshot() == old(store.Snapshot()).(pending :=
      Settle(old(store.pending), if a.Accepted? then Completed(id) else FailedAt(id, a.now, a.error)))
  {
    match a
    case Accepted => MarkCompleted(store, id);
    case Refused(error, now) => MarkFailed(store, id, now, error);
  }

  /** `run_replay_round`: compact, dequeue at most 50 rows, send each on and settle it. */
  method ReplayRound(store: Store, source: MailSource, account: string, now: int, answer: PendingOp -> Answer)
    returns (ops: seq<PendingOp>)
    requires UniqueIds(store.pending)
    modifies store, source
    ensures var q := Compacted(old(store.pending), account);
            && IsDequeue(DueSet(q, account, now), 50, ops)
            && store.Snapshot() == old(store.Snapshot()).(pending := Settled(q, ops, answer))
    ensures source.flags == Played(old(source.flags), ops, answer)
    ensures source.mail == Sorted(old(source.mail), ops, answer)
  {
    hide Compacted, Settle, DueSet, IsDequeue, FromPending, ExecViaSource, Received, Rearranged;
    ghost var flags, mail := source.flags, source.mail;
    CompactQueue(store, account);
    ghost var db := store.Snapshot();
    ops := DequeuePendingForAccount(store, account, 50, now);
    for i := 0 to |ops|
      invariant store.Snapshot() == db.(pending := Settled(db.pending, ops[..i], answer))
      invariant source.flags == Played(flags, ops[..i], answer)
      invariant source.mail == Sorted(mail, ops[..i], answer)
    {
      var op := ops[i];
      assert ops[..i + 1][..i] == ops[..i];
      var decoded := FromPending(op.opType, op.resource, op.params);
      if decoded.Err? { continue; }
      SendOn(source, decoded.value, answer(op).Accepted?);
      SettleRow(store, op.id, answer(op));
    }
    assert ops[..|ops|] == ops;
  }

  // ---- What each kind of row does on the server ----

  /** The row `apply_mutation_inner` writes for one message. */
  ghost predicate RowOf(row: PendingOp, opType: string, op: MutationOp) {
    row.opType == opType && row.params == EncodeParams(op)
  }

  /** What one more accepted row adds to the calls before it. */
  lemma AcceptedRow(
      ops: seq<PendingOp>, row: PendingOp, answer: PendingOp -> Answer, flags: set<Mark>, mail: map<Place, string>)
    requires answer(row).Accepted? && CallOf(row).Ok?
    ensures Played(flags, ops + [row], answer) == Received(Played(flags, ops, answer), CallOf(row).value)
    ensures Sorted(mail, ops + [row], answer) == Rearranged(Sorted(mail, ops, answer), CallOf(row).value)
  {
    hide CallOf, Received, Rearranged;
    assert (ops + [row])[..|ops|] == ops;
  }

  /** An accepted markRead row sets or clears \Seen on its message and changes no other
      flag and no folder. */
  lemma MarkReadOnServer(
      ops: seq<PendingOp>, row: PendingOp, answer: PendingOp -> Answer, flags: set<Mark>, mail: map<Place, string>,
      threadId: string, ids: seq<string>, folder: string, uid: u32, read: bool)
    requires RowOf(row, "markRead", MarkRead(threadId, ids, folder, [uid], read)) && answer(row).Accepted?
    ensures Mark(folder, uid, "\\Seen") in Played(flags, ops + [row], answer) <==> read
    ensures forall m :: m != Mark(folder, uid, "\\Seen") ==>
              (m in Played(flags, ops + [row], answer) <==> m in Played(flags, ops, answer))
    ensures Sorted(mail, ops + [row], answer) == Sorted(mail, ops, answer)
  {
    RecoveredOp(MarkRead(threadId, ids, folder, [uid], read), row.resource);
    AcceptedRow(ops, row, answer, flags, mail);
  }

  /** An accepted setFlag row sets or clears its own flag. */
  lemma SetFlagOnServer(
      ops: seq<PendingOp>, row: PendingOp, answer: PendingOp -> Answer, flags: set<Mark>, mail: map<Place, string>,
      ids: seq<string>, folder: string, uid: u32, flag: string, add: bool)
    requires RowOf(row, "setFlag", SetFlag(ids, folder, [uid], flag, add)) && answer(row).Accepted?
    ensures Mark(folder, uid, flag) in Played(flags, ops + [row], answer) <==> add
    ensures forall m :: m != Mark(folder, uid, flag) ==>
              (m in Played(flags, ops + [row], answer) <==> m in Played(flags, ops, answer))
    ensures Sorted(mail, ops + [row], answer) == Sorted(mail, ops, answer)
  {
    RecoveredOp(SetFlag(ids, folder, [uid], flag, add), row.resource);
    AcceptedRow(ops, row, answer, flags, mail);
  }

  /** An accepted move row takes its message from the source folder to the destination. */
  lemma MoveOnServer(
      ops: seq<PendingOp>, row: PendingOp, answer: PendingOp -> Answer, flags: set<Mark>, mail: map<Place, string>,
      ids: seq<string>, srcLabel: string, dstLabel: string, src: string, dst: string, uid: u32)
    requires RowOf(row, "move", Move(ids, srcLabel, dstLabel, src, dst, [uid])) && answer(row).Accepted?
    ensures var before, after := Sorted(mail, ops, answer), Sorted(mail, ops + [row], answer);
            && after.Keys == before.Keys
            && (forall p :: p in before && p != Place(src, uid) ==> after[p] == before[p])
            && (Place(src, uid) in before ==>
                  after[Place(src, uid)] == if before[Place(src, uid)] == src then dst else before[Place(src, uid)])
    ensures Played(flags, ops + [row], answer) == Played(flags, ops, answer)
  {
    RecoveredOp(Move(ids, srcLabel, dstLabel, src, dst, [uid]), row.resource);
    AcceptedRow(ops, row, answer, flags, mail);
  }

  /** An accepted delete row removes its message and no other. */
  lemma DeleteOnServer(
      ops: seq<PendingOp>, row: PendingOp, answer: PendingOp -> Answer, flags: set<Mark>, mail: map<Place, string>,
      ids: seq<string>, folder: string, uid: u32)
    requires RowOf(row, "delete", Delete(ids, folder, [uid])) && answer(row).Accepted?
    ensures var before, after := Sorted(mail, ops, answer), Sorted(mail, ops + [row], answer);
            && (Place(folder, uid) in after <==> Place(folder, uid) in before && before[Place(folder, uid)] != folder)
            && (forall p :: p != Place(folder, uid) ==> (p in after <==> p in before))
            && (forall p :: p in after ==> p in before && after[p] == before[p])
    ensures Played(flags, ops + [row], answer) == Played(flags, ops, answer)
  {
    RecoveredOp(Delete(ids, folder, [uid]), row.resource);
    AcceptedRow(ops, row, answer, flags, mail);
  }

  /** A refused row changes nothing on the server. */
  lemma RefusedRow(
      ops: seq<PendingOp>, row: PendingOp, answer: PendingOp -> Answer, flags: set<Mark>, mail: map<Place, string>)
    requires answer(row).Refused?
    ensures Played(flags, ops + [row], answer) == Played(flags, ops, answer)
    ensures Sorted(mail, ops + [row], answer) == Sorted(mail, ops, answer)
  {
    assert (ops + [row])[..|ops|] == ops;
  }

  // ---- What a round does to the meaning of the queue ----

  /** The server's flag after the calls is what the rows played decide. */
  lemma {:induction false} PlayedFlag(
      flags: set<Mark>, ops: seq<PendingOp>, answer: PendingOp -> Answer, account: string, m: Mark)
    requires forall op :: op in ops ==> op.account == account && op.status == Pending
    requires forall op :: op in ops && Toggles(op, account, m) ==> answer(op).Accepted?
    ensures m in Played(flags, ops, answer) <==> FlagAfter(ops, account, m, m in flags)
  {
    hide FromPending, ExecViaSource;
    if ops != [] {
      assert ops[|ops| - 1] in ops;
      PlayedFlag(flags, ops[..|ops| - 1], answer, account, m);
    }
  }

  /** The same call. */
  predicate SameCall(a: PendingOp, b: PendingOp) {
    a.id == b.id && a.account == b.account && a.opType == b.opType && a.resource == b.resource && a.params == b.params
  }

  lemma SameCallSets(a: PendingOp, b: PendingOp, m: Mark)
    requires SameCall(a, b)
    ensures Sets(a, m) == Sets(b, m)
  {}

  ghost predicate ComesFrom(q: seq<PendingOp>, r: PendingOp) {
    exists x :: x in q && SameCall(x, r)
  }

  lemma SettleComesFrom(q: seq<PendingOp>, before: seq<PendingOp>, v: Verdict)
    requires forall r :: r in before ==> ComesFrom(q, r)
    ensures forall r :: r in Settle(before, v) ==> ComesFrom(q, r)
  {
    match v
    case Completed(id) => FilterIn(before, (op: PendingOp) => op.id != id);
    case FailedAt(id, now, error) =>
      var after := WithFailure(before, id, now, error);
      forall r | r in after ensures ComesFrom(q, r) {
        var i :| 0 <= i < |after| && after[i] == r;
        assert before[i] in before;
        var x :| x in q && SameCall(x, before[i]);
        assert SameCall(x, r);
      }
  }

  lemma {:induction false} SettledComesFrom(q: seq<PendingOp>, ops: seq<PendingOp>, answer: PendingOp -> Answer)
    ensures forall r :: r in Settled(q, ops, answer) ==> ComesFrom(q, r)
  {
    if ops == [] {
      forall r | r in q ensures ComesFrom(q, r) { assert SameCall(r, r); }
    } else {
      var before, last := Settled(q, ops[..|ops| - 1], answer), ops[|ops| - 1];
      SettledComesFrom(q, ops[..|ops| - 1], answer);
      if Decodes(last) { SettleComesFrom(q, before, VerdictOn(last, answer)); }
    }
  }

  lemma NamersAppend(q: seq<PendingOp>, op: PendingOp, account: string, m: Mark)
    ensures Namers(q + [op], account, m) == Namers(q, account, m) + if Toggles(op, account, m) then [op] else []
  {
    assert (q + [op])[..|q|] == q;
  }

  lemma FailureKeepsCall(op: PendingOp, v: Verdict, m: Mark)
    requires v.FailedAt?
    ensures Sets(FailedOnce(op, v.now, v.error), m) == Sets(op, m)
  {}

  /** Failing rows that do not name the flag changes nothing for it. */
  lemma {:induction false} NamersAfterFailure(q: seq<PendingOp>, v: Verdict, account: string, m: Mark)
    requires v.FailedAt? && forall r :: r in q && r.id == v.id ==> Sets(r, m).None?
    ensures Namers(Settle(q, v), account, m) == Namers(q, account, m)
  {
    hide Sets, Settle;
    if q == [] {
      SettleAbsent(q, v);
    } else {
      var init, last := q[..|q| - 1], q[|q| - 1];
      assert q == init + [last] && last in q;
      NamersAfterFailure(init, v, account, m);
      SettleLast(q, v);
      NamersAppend(init, last, account, m);
      if last.id == v.id {
        FailureKeepsCall(last, v, m);
        NamersAppend(Settle(init, v), FailedOnce(last, v.now, v.error), account, m);
      } else {
        NamersAppend(Settle(init, v), last, account, m);
      }
    }
  }

  /** One verdict on a row of the queue. */
  lemma NamersSettle(
      q: seq<PendingOp>, before: seq<PendingOp>, done: seq<PendingOp>, op: PendingOp, answer: PendingOp -> Answer,
      account: string, m: Mark)
    requires UniqueIds(q) && op in q && op.account == account && op.status == Pending
    requires forall r :: r in before ==> ComesFrom(q, r)
    requires Namers(before, account, m) == Filter(Namers(q, account, m), (o: PendingOp) => o !in done)
    requires Toggles(op, account, m) ==> answer(op).Accepted?
    ensures Namers(Settle(before, VerdictOn(op, answer)), account, m)
         == Filter(Namers(q, account, m), (o: PendingOp) => o !in done + [op])
  {
    hide Sets, Filter, FromPending;
    var named := Namers(q, account, m);
    var rest, other := (o: PendingOp) => o !in done, (o: PendingOp) => o.id != op.id;
    var left := (o: PendingOp) => o !in done + [op];
    NamersIn(q, account, m);
    if answer(op).Accepted? {
      FilterCommutes(before, other, (o: PendingOp) => Toggles(o, account, m));
      FilterBoth(named, rest, other);
      forall o | o in named ensures left(o) == (rest(o) && other(o)) {
        if o.id == op.id { SameIdSameOp(q, o, op); }
      }
      FilterExt(named, left, (o: PendingOp) => rest(o) && other(o));
    } else {
      forall r | r in before && r.id == op.id ensures Sets(r, m).None? {
        var x :| x in q && SameCall(x, r);
        SameIdSameOp(q, x, op);
        SameCallSets(x, r, m);
      }
      NamersAfterFailure(before, VerdictOn(op, answer), account, m);
      FilterExt(named, left, rest);
    }
  }

  /** A round takes the accepted rows that name the flag out of the queue, and no other. */
  lemma {:induction false} NamersSettled(
      q: seq<PendingOp>, ops: seq<PendingOp>, answer: PendingOp -> Answer, account: string, m: Mark)
    requires UniqueIds(q) && forall op :: op in ops ==> op in q && op.account == account && op.status == Pending
    requires forall op :: op in ops && Toggles(op, account, m) ==> answer(op).Accepted?
    ensures Namers(Settled(q, ops, answer), account, m) == Filter(Namers(q, account, m), (op: PendingOp) => op !in ops)
  {
    hide Filter, FromPending, Settle;
    var named := Namers(q, account, m);
    if ops == [] {
      FilterAll(named, (op: PendingOp) => op !in ops);
    } else {
      var init, last := ops[..|ops| - 1], ops[|ops| - 1];
      assert ops == init + [last] && last in ops;
      NamersSettled(q, init, answer, account, m);
      SettledComesFrom(q, init, answer);
      if Decodes(last) {
        NamersSettle(q, Settled(q, init, answer), init, last, answer, account, m);
      } else {
        NamersIn(q, account, m);
        assert Sets(last, m).None?;
        FilterExt(named, (op: PendingOp) => op !in ops, (op: PendingOp) => op !in init);
      }
    }
  }

  /** Whatever disagrees with the last row naming the flag was created in an earlier
      second and is not held back by backoff while the last one is due. */
  ghost predicate InTime(q: seq<PendingOp>, account: string, now: int, m: Mark) {
    var named := Namers(q, account, m);
    named != [] ==>
      forall x :: x in named && Sets(x, m) != Sets(named[|named| - 1], m) ==>
        var last := named[|named| - 1];
        x.createdAt < last.createdAt && (Due(last, account, now) ==> Due(x, account, now))
  }

  lemma HasElement(s: seq<PendingOp>)
    ensures s != [] ==> exists op :: op in s
  {
    if s != [] { assert s[0] in s; }
  }

  lemma LastStays(named: seq<PendingOp>, ops: seq<PendingOp>)
    requires named != [] && named[|named| - 1] !in ops
    ensures var left := Filter(named, (op: PendingOp) => op !in ops);
            left != [] && left[|left| - 1] == named[|named| - 1]
  {}

  /** The rows naming the flag were called oldest first. */
  lemma CalledInOrder(due: set<PendingOp>, ops: seq<PendingOp>, account: string, m: Mark, x: PendingOp)
    requires IsDequeue(due, 50, ops) && x in ops && Toggles(x, account, m)
    ensures var told := Namers(ops, account, m);
            told != [] && x.createdAt <= told[|told| - 1].createdAt
  {
    hide Filter, Sets;
    var older := (a: PendingOp, b: PendingOp) => a.createdAt <= b.createdAt;
    var told := Namers(ops, account, m);
    NamersIn(ops, account, m);
    FilterPairwise(ops, (op: PendingOp) => Toggles(op, account, m), older);
    assert x in told;
    var i :| 0 <= i < |told| && told[i] == x;
    assert i < |told| - 1 ==> older(told[i], told[|told| - 1]);
  }

  /** Conservation: a round in which no row naming the flag is refused leaves server and
      queue together meaning what they meant, however much of the queue it reaches. */
  lemma RoundConserves(
      q: seq<PendingOp>, flags: set<Mark>, account: string, now: int,
      answer: PendingOp -> Answer, ops: seq<PendingOp>, m: Mark)
    requires UniqueIds(q) && IsDequeue(DueSet(q, account, now), 50, ops)
    requires forall op :: op in ops && Toggles(op, account, m) ==> answer(op).Accepted?
    requires InTime(q, account, now, m)
    ensures FlagAfter(Settled(q, ops, answer), account, m, m in Played(flags, ops, answer))
        == FlagAfter(q, account, m, m in flags)
  {
    hide Filter, FromPending, ExecViaSource, Sets, Settled, Played, FlagAfter;
    var due := DueSet(q, account, now);
    forall op | op in ops ensures op in q && op.account == account && op.status == Pending { assert op in due; }
    PlayedFlag(flags, ops, answer, account, m);
    NamersSettled(q, ops, answer, account, m);
    var named, told := Namers(q, account, m), Namers(ops, account, m);
    var left := Filter(named, (op: PendingOp) => op !in ops);
    LastNamerDecides(q, account, m, m in flags);
    LastNamerDecides(ops, account, m, m in flags);
    LastNamerDecides(Settled(q, ops, answer), account, m, m in Played(flags, ops, answer));
    NamersIn(q, account, m);
    NamersIn(ops, account, m);
    FilterIn(named, (op: PendingOp) => op !in ops);
    if named == [] {
      HasElement(left);
      HasElement(told);
    } else {
      var last := named[|named| - 1];
      assert last in named;
      if last !in ops {
        LastStays(named, ops);
      } else {
        assert last in due;
        CalledInOrder(due, ops, account, m, last);
        assert told[|told| - 1] in told;
        if left != [] {
          var x := left[|left| - 1];
          assert x in left && x in named && x in q;
          assert Due(x, account, now) ==> x in due;
        }
      }
    }
  }

  lemma CompactedUnique(q: seq<PendingOp>, account: string)
    requires UniqueIds(q)
    ensures UniqueIds(Compacted(q, account))
  {
    FilterKeepsOrder(q, (op: PendingOp) => !Cancelled(q, account, op));
  }

  /** From the queue a round starts with: server and queue together still mean what they
      meant if and only if compaction kept that meaning. */
  lemma RoundReplaysQueue(
      q: seq<PendingOp>, flags: set<Mark>, account: string, now: int,
      answer: PendingOp -> Answer, ops: seq<PendingOp>, m: Mark)
    requires UniqueIds(q) && IsDequeue(DueSet(Compacted(q, account), account, now), 50, ops)
    requires forall op :: op in ops && Toggles(op, account, m) ==> answer(op).Accepted?
    requires InTime(Compacted(q, account), account, now, m)
    ensures var named, spared := Namers(q, account, m), Spared(q, account, m);
            (FlagAfter(Settled(Compacted(q, account), ops, answer), account, m, m in Played(flags, ops, answer))
             == FlagAfter(q, account, m, m in flags)
             <==> named == [] || Decided(spared, m, m in flags) == Decided(named, m, m in flags))
  {
    CompactedUnique(q, account);
    RoundConserves(Compacted(q, account), flags, account, now, answer, ops, m);
    CompactionMeaning(q, account, m, m in flags);
  }

  /** Every disagreeing row is older than some row that agrees with the last one. */
  ghost predicate Outdated(q: seq<PendingOp>, account: string, m: Mark) {
    var named := Namers(q, account, m);
    named != [] ==>
      forall x :: x in named && Sets(x, m) != Sets(named[|named| - 1], m) ==>
        exists y :: y in named && Sets(y, m) == Sets(named[|named| - 1], m) && x.createdAt < y.createdAt
  }

  /** The flag comes out right in whatever order rows of one second are returned. */
  ghost predicate AlwaysRight(
      q: seq<PendingOp>, flags: set<Mark>, account: string, now: int, answer: PendingOp -> Answer, m: Mark) {
    forall ops :: IsDequeue(DueSet(q, account, now), 50, ops) ==>
      (m in Played(flags, ops, answer) <==> FlagAfter(q, account, m, m in flags))
  }

  /** What the calls of a round that reaches every row naming the flag decide. */
  lemma FullRoundFlag(
      q: seq<PendingOp>, flags: set<Mark>, account: string, now: int,
      answer: PendingOp -> Answer, ops: seq<PendingOp>, m: Mark)
    requires IsDequeue(DueSet(q, account, now), 50, ops) && |DueSet(q, account, now)| <= 50
    requires forall op :: op in q && Toggles(op, account, m) ==> Due(op, account, now) && answer(op).Accepted?
    ensures forall op :: op in Namers(ops, account, m) <==> op in Namers(q, account, m)
    ensures m in Played(flags, ops, answer) <==> Decided(Namers(ops, account, m), m, m in flags)
    ensures FlagAfter(q, account, m, m in flags) == Decided(Namers(q, account, m), m, m in flags)
  {
    hide Filter, FromPending, ExecViaSource, Sets, Played, FlagAfter;
    var due := DueSet(q, account, now);
    CountListed(due, ops);
    forall op | op in ops ensures op in q && op.account == account && op.status == Pending { assert op in due; }
    PlayedFlag(flags, ops, answer, account, m);
    LastNamerDecides(q, account, m, m in flags);
    LastNamerDecides(ops, account, m, m in flags);
    NamersIn(q, account, m);
    NamersIn(ops, account, m);
    forall op | op in q && Toggles(op, account, m) ensures op in ops { assert op in due; }
  }

  lemma OutdatedIsRight(
      q: seq<PendingOp>, flags: set<Mark>, account: string, now: int,
      answer: PendingOp -> Answer, ops: seq<PendingOp>, m: Mark)
    requires IsDequeue(DueSet(q, account, now), 50, ops) && |DueSet(q, account, now)| <= 50
    requires forall op :: op in q && Toggles(op, account, m) ==> Due(op, account, now) && answer(op).Accepted?
    requires Outdated(q, account, m)
    ensures m in Played(flags, ops, answer) <==> FlagAfter(q, account, m, m in flags)
  {
    hide Filter, Sets, Played, FlagAfter, Due;
    FullRoundFlag(q, flags, account, now, answer, ops, m);
    var named, told := Namers(q, account, m), Namers(ops, account, m);
    NamersIn(ops, account, m);
    if named == [] {
      HasElement(told);
    } else {
      var last := named[|named| - 1];
      assert last in named && last in told;
      var z := told[|told| - 1];
      assert z in told && z in named;
      if Sets(z, m) != Sets(last, m) {
        var y :| y in named && Sets(y, m) == Sets(last, m) && z.createdAt < y.createdAt;
        CalledInOrder(DueSet(q, account, now), ops, account, m, y);
      }
    }
  }

  lemma LastHeard(ops: seq<PendingOp>, account: string, m: Mark, x: PendingOp)
    requires ComesLast(ops, x) && Toggles(x, account, m)
    ensures var told := Namers(ops, account, m);
            told != [] && (told[|told| - 1] == x || x.createdAt < told[|told| - 1].createdAt)
  {
    hide Sets, Filter;
    var i: nat :| LastAt(ops, x, i);
    var p := (op: PendingOp) => Toggles(op, account, m);
    assert ops == ops[..i] + [x] + ops[i + 1..];
    FilterAppend(ops[..i] + [x], ops[i + 1..], p);
    NamersAppend(ops[..i], x, account, m);
    var later := Filter(ops[i + 1..], p);
    FilterIn(ops[i + 1..], p);
    if later != [] {
      var z := later[|later| - 1];
      assert z in later;
      var j :| 0 <= j < |ops| - i - 1 && ops[i + 1..][j] == z;
      assert ops[i + 1 + j] == z;
    }
  }

  lemma NamersToggle(q: seq<PendingOp>, account: string, m: Mark, op: PendingOp)
    requires op in Namers(q, account, m)
    ensures Sets(op, m).Some?
  {
    NamersIn(q, account, m);
  }

  /** A row no agreeing row is newer than can be called last. */
  lemma DissentIsHeard(
      q: seq<PendingOp>, flags: set<Mark>, account: string, now: int,
      answer: PendingOp -> Answer, m: Mark, x: PendingOp)
    requires |DueSet(q, account, now)| <= 50
    requires forall op :: op in q && Toggles(op, account, m) ==> Due(op, account, now) && answer(op).Accepted?
    requires var named := Namers(q, account, m);
             && x in named && Sets(x, m) != Sets(named[|named| - 1], m)
             && forall y :: y in named && Sets(y, m) == Sets(named[|named| - 1], m) ==> y.createdAt <= x.createdAt
    ensures !AlwaysRight(q, flags, account, now, answer, m)
  {
    hide Filter, Sets, Played, FlagAfter, Due;
    var due, named := DueSet(q, account, now), Namers(q, account, m);
    NamersIn(q, account, m);
    MayComeLast(due, x);
    var ops: seq<PendingOp> :| IsDequeue(due, -1, ops) && ComesLast(ops, x);
    FullRoundFlag(q, flags, account, now, answer, ops, m);
    NamersIn(ops, account, m);
    var told := Namers(ops, account, m);
    var last, z := named[|named| - 1], told[|told| - 1];
    assert z in told && z in named && last in named;
    LastHeard(ops, account, m, x);
    NamersToggle(q, account, m, last);
    NamersToggle(q, account, m, z);
    NamersToggle(q, account, m, x);
    assert Sets(z, m) != Sets(last, m);
    assert IsDequeue(due, 50, ops);
  }

  /** In a round that reaches every row naming the flag and meets no refusal, the flag is
      sure to come out as the queue's order asks if and only if every row that disagrees
      with the last one was created in an earlier second than some row that agrees. */
  lemma RoundFlagExact(
      q: seq<PendingOp>, flags: set<Mark>, account: string, now: int, answer: PendingOp -> Answer, m: Mark)
    requires |DueSet(q, account, now)| <= 50
    requires forall op :: op in q && Toggles(op, account, m) ==> Due(op, account, now) && answer(op).Accepted?
    ensures AlwaysRight(q, flags, account, now, answer, m) <==> Outdated(q, account, m)
  {
    hide Filter, Sets, Played, FlagAfter, Due, IsDequeue;
    var named := Namers(q, account, m);
    if Outdated(q, account, m) {
      forall ops | IsDequeue(DueSet(q, account, now), 50, ops)
        ensures m in Played(flags, ops, answer) <==> FlagAfter(q, account, m, m in flags)
      {
        OutdatedIsRight(q, flags, account, now, answer, ops, m);
      }
    } else {
      var x :| x in named && Sets(x, m) != Sets(named[|named| - 1], m)
        && !exists y :: y in named && Sets(y, m) == Sets(named[|named| - 1], m) && x.createdAt < y.createdAt;
      DissentIsHeard(q, flags, account, now, answer, m, x);
    }
  }

  lemma {:induction false} SettledRest(
      q: seq<PendingOp>, ops: seq<PendingOp>, answer: PendingOp -> Answer, op: PendingOp)
    requires forall o :: o in ops ==> answer(o).Accepted?
    ensures op in Settled(q, ops, answer) <==> op in q && forall o :: o in ops && Decodes(o) ==> o.id != op.id
  {
    hide Decodes;
    if ops != [] {
      var init, last := ops[..|ops| - 1], ops[|ops| - 1];
      assert ops == init + [last] && last in ops;
      SettledRest(q, init, answer, op);
      if Decodes(last) {
        FilterIn(Settled(q, init, answer), (o: PendingOp) => o.id != last.id);
      }
    }
  }

  /** A round without a refusal leaves exactly the rows it did not reach or could not read. */
  lemma RoundLeaves(
      q: seq<PendingOp>, account: string, now: int, answer: PendingOp -> Answer, ops: seq<PendingOp>, op: PendingOp)
    requires UniqueIds(q) && IsDequeue(DueSet(q, account, now), 50, ops)
    requires forall o :: o in ops ==> answer(o).Accepted?
    ensures op in Settled(q, ops, answer) <==> op in q && (op !in ops || !Decodes(op))
    ensures |DueSet(q, account, now)| <= 50 ==> (op in ops <==> op in q && Due(op, account, now))
  {
    hide Settled, Decodes, Due;
    var due := DueSet(q, account, now);
    SettledRest(q, ops, answer, op);
    forall o | op in q && o in ops && o.id == op.id ensures o == op {
      assert o in due;
      SameIdSameOp(q, o, op);
    }
    if |due| <= 50 { CountListed(due, ops); }
  }

  // ---- Many rounds, with new rows in between ----

  datatype SyncStep =
    | Queue(rows: seq<PendingOp>)
    | Round(now: int, answer: PendingOp -> Answer, ops: seq<PendingOp>)

  /** The pending queue and the server's flags. */
  datatype Link = Link(queue: seq<PendingOp>, flags: set<Mark>)

  function Advance(l: Link, account: string, s: SyncStep): Link {
    match s
    case Queue(rows) => Link(l.queue + rows, l.flags)
    case Round(_, answer, ops) =>
      Link(Settled(Compacted(l.queue, account), ops, answer), Played(l.flags, ops, answer))
  }

  /** A round that does what `RoundReplaysQueue` asks: rows naming the flag are accepted
      and in time, and compaction keeps its meaning. */
  ghost predicate Sound(l: Link, account: string, m: Mark, s: SyncStep) {
    match s
    case Queue(rows) => true
    case Round(now, answer, ops) =>
      var q, named, spared := Compacted(l.queue, account), Namers(l.queue, account, m), Spared(l.queue, account, m);
      && UniqueIds(l.queue) && IsDequeue(DueSet(q, account, now), 50, ops)
      && (forall op :: op in ops && Toggles(op, account, m) ==> answer(op).Accepted?)
      && InTime(q, account, now, m)
      && (named == [] || Decided(spared, m, m in l.flags) == Decided(named, m, m in l.flags))
  }

  ghost predicate SoundRun(l: Link, account: string, m: Mark, steps: seq<SyncStep>)
    decreases |steps|
  {
    steps == [] || (Sound(l, account, m, steps[0]) && SoundRun(Advance(l, account, steps[0]), account, m, steps[1..]))
  }

  function AdvanceAll(l: Link, account: string, steps: seq<SyncStep>): Link
    decreases |steps|
  {
    if steps == [] then l else AdvanceAll(Advance(l, account, steps[0]), account, steps[1..])
  }

  /** All rows queued, in order. */
  function RowsQueued(steps: seq<SyncStep>): seq<PendingOp>
    decreases |steps|
  {
    if steps == [] then [] else (if steps[0].Queue? then steps[0].rows else []) + RowsQueued(steps[1..])
  }

  lemma {:induction false} RunConserves(l: Link, account: string, m: Mark, steps: seq<SyncStep>)
    requires SoundRun(l, account, m, steps)
    ensures var end := AdvanceAll(l, account, steps);
            FlagAfter(end.queue, account, m, m in end.flags)
            == FlagAfter(l.queue + RowsQueued(steps), account, m, m in l.flags)
    decreases |steps|
  {
    hide FlagAfter, Settled, Played, InTime, IsDequeue, Namers, Spared, Decided, Sets;
    if steps == [] {
      assert l.queue + [] == l.queue;
    } else {
      var s, next, rest := steps[0], Advance(l, account, steps[0]), RowsQueued(steps[1..]);
      RunConserves(next, account, m, steps[1..]);
      match s
      case Queue(rows) => assert l.queue + (rows + rest) == l.queue + rows + rest;
      case Round(now, answer, ops) =>
        RoundReplaysQueue(l.queue, l.flags, account, now, answer, ops, m);
        FlagAfterAppend(next.queue, rest, account, m, m in next.flags);
        FlagAfterAppend(l.queue, rest, account, m, m in l.flags);
        assert [] + rest == rest;
    }
  }

  /** Once no row naming the flag is left, however many rounds it took and whatever was
      queued in between, the server's flag is what the newest intention ever queued says,
      or what it was if none was. */
  lemma DrainedFlag(l: Link, account: string, m: Mark, steps: seq<SyncStep>)
    requires SoundRun(l, account, m, steps)
    requires Namers(AdvanceAll(l, account, steps).queue, account, m) == []
    ensures m in AdvanceAll(l, account, steps).flags
       <==> Decided(Namers(l.queue + RowsQueued(steps), account, m), m, m in l.flags)
  {
    hide SoundRun, AdvanceAll, RowsQueued, Namers, FlagAfter, Sets;
    var end := AdvanceAll(l, account, steps);
    RunConserves(l, account, m, steps);
    LastNamerDecides(end.queue, account, m, m in end.flags);
    LastNamerDecides(l.queue + RowsQueued(steps), account, m, m in l.flags);
  }

  // ---- Where it fails ----

  function Toggle(id: string, account: string, resource: string, flag: string, add: bool): PendingOp {
    NewOp(id, account, "setFlag", resource, EncodeParams(SetFlag([resource], "INBOX", [7], flag, add)), 0)
  }

  lemma ToggleSets(id: string, account: string, resource: string, flag: string, add: bool)
    ensures forall m :: Sets(Toggle(id, account, resource, flag, add), m)
              == if m == Mark("INBOX", 7, flag) then Some(add) else None
    ensures ReadOf(Toggle(id, account, resource, flag, add)) == Some(if add then 1 else 0)
  {
    RecoveredOp(SetFlag([resource], "INBOX", [7], flag, add), resource);
  }

  lemma TwoRows(a: PendingOp, b: PendingOp, account: string, m: Mark, before: bool)
    ensures FlagAfter([a, b], account, m, before)
         == if Toggles(b, account, m) then Sets(b, m).value
            else if Toggles(a, account, m) then Sets(a, m).value else before
  {
    assert [a, b][..1] == [a] && [a][..0] == [];
    assert FlagAfter([a], account, m, before) == if Toggles(a, account, m) then Sets(a, m).value else before;
  }

  /** The join ignores the flag: setting \Flagged and then clearing \Answered on one
      message are taken for a toggle pair, and \Flagged is never set on the server. */
  lemma DifferentFlagsCancel(account: string, resource: string)
    ensures var q := [Toggle("a", account, resource, "\\Flagged", true),
                      Toggle("b", account, resource, "\\Answered", false)];
            var m := Mark("INBOX", 7, "\\Flagged");
            IdsIncrease(q) && Compacted(q, account) == []
            && FlagAfter(q, account, m, false) && !FlagAfter(Compacted(q, account), account, m, false)
  {
    var a, b := Toggle("a", account, resource, "\\Flagged", true), Toggle("b", account, resource, "\\Answered", false);
    ToggleSets("a", account, resource, "\\Flagged", true);
    ToggleSets("b", account, resource, "\\Answered", false);
    hide Sets, EncodeParams, FromPending, ExecViaSource;
    assert "\\Flagged"[1] == 'F' && "\\Answered"[1] == 'A';
    assert Cancels(a, b, account);
    TwoRows(a, b, account, Mark("INBOX", 7, "\\Flagged"), false);
    FilterNone([a, b], (op: PendingOp) => !Cancelled([a, b], account, op));
  }

  /** Were a later operation to carry the smaller id, as random UUIDs allow, the pair
      would cancel in the wrong order and the last intention be lost. */
  lemma UnorderedIdsLoseIntent(account: string, resource: string)
    ensures var q := [Toggle("b", account, resource, "\\Flagged", false),
                      Toggle("a", account, resource, "\\Flagged", true)];
            var m := Mark("INBOX", 7, "\\Flagged");
            !IdsIncrease(q) && Compacted(q, account) == []
            && FlagAfter(q, account, m, false) && !FlagAfter(Compacted(q, account), account, m, false)
  {
    var b, a := Toggle("b", account, resource, "\\Flagged", false), Toggle("a", account, resource, "\\Flagged", true);
    ToggleSets("a", account, resource, "\\Flagged", true);
    ToggleSets("b", account, resource, "\\Flagged", false);
    hide Sets, EncodeParams, FromPending, ExecViaSource;
    assert Cancels(a, b, account);
    assert !Less([b, a][0].id, [b, a][1].id);
    TwoRows(b, a, account, Mark("INBOX", 7, "\\Flagged"), false);
    FilterNone([b, a], (op: PendingOp) => !Cancelled([b, a], account, op));
  }
}
