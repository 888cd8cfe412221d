/** Local mutations: the optimistic write, the queue row that replays it, and the
    server call the row is decoded into. */
module Mutations {
  import opened Prelude
  import opened Text
  import opened Json
  import opened Schema
  import Delta
  import Messages
  import Queue

  /** One mail mutation. A draft to send stays an opaque JSON value. */
  datatype MutationOp =
    | MarkRead(threadId: string, messageIds: seq<string>, folderPath: string, uids: seq<u32>, read: bool)
    | SetFlag(messageIds: seq<string>, folderPath: string, uids: seq<u32>, flag: string, add: bool)
    | Move(messageIds: seq<string>, srcLabel: string, dstLabel: string,
           srcFolderPath: string, dstFolderPath: string, uids: seq<u32>)
    | Delete(messageIds: seq<string>, folderPath: string, uids: seq<u32>)
    | Send(draft: Json)

  // ---- Encoding and decoding of queue rows ----

  function OpType(op: MutationOp): string {
    match op
    case MarkRead(_, _, _, _, _) => "markRead"
    case SetFlag(_, _, _, _, _) => "setFlag"
    case Move(_, _, _, _, _, _) => "move"
    case Delete(_, _, _) => "delete"
    case Send(_) => "send"
  }

  function UidArray(uids: seq<u32>): Json {
    JArr(seq(|uids|, i requires 0 <= i < |uids| => JInt(uids[i])))
  }

  function Bit(b: bool): Json {
    JInt(if b then 1 else 0)
  }

  function EncodeParams(op: MutationOp): Json {
    match op
    case MarkRead(_, _, folder, uids, read) =>
      JObj(map["folderPath" := JStr(folder), "read" := Bit(read), "uids" := UidArray(uids)])
    case SetFlag(_, folder, uids, flag, add) =>
      JObj(map["folderPath" := JStr(folder), "flag" := JStr(flag), "read" := Bit(add), "add" := JBool(add),
          "uids" := UidArray(uids)])
    case Move(_, _, dstLabel, src, dst, uids) =>
      JObj(map["srcFolderPath" := JStr(src), "dstFolderPath" := JStr(dst), "dstLabel" := JStr(dstLabel),
          "uids" := UidArray(uids)])
    case Delete(_, folder, uids) =>
      JObj(map["folderPath" := JStr(folder), "uids" := UidArray(uids)])
    case Send(draft) => JObj(map["draft" := draft])
  }

  /** The first element of `uids` read as u64 and truncated to u32, 0 if there is none. */
  function FirstUid(v: Json): u32 {
    match Get(v, "uids")
    case Some(JArr(items)) =>
      if items != [] && items[0].JInt? && 0 <= items[0].n < 0x1_0000_0000_0000_0000
      then items[0].n % 0x1_0000_0000
      else 0
    case _ => 0
  }

  /** The row was written by `encode_params`. */
  ghost predicate Encoded(op: PendingOp) {
    exists m: MutationOp :: op.opType == OpType(m) && op.params == EncodeParams(m)
  }

  function FromPending(opType: string, resource: string, v: Json): Result<MutationOp> {
    var uids, folder := [FirstUid(v)], GetStr(v, "folderPath", "");
    if opType == "markRead" then
      Ok(MarkRead(resource, [resource], folder, uids, GetInt(v, "read", 0) == 1))
    else if opType == "setFlag" then
      Ok(SetFlag([resource], folder, uids, GetStr(v, "flag", "\\Flagged"), GetBool(v, "add", true)))
    else if opType == "move" then
      Ok(Move([resource], "", GetStr(v, "dstLabel", ""),
              GetStr(v, "srcFolderPath", ""), GetStr(v, "dstFolderPath", ""), uids))
    else if opType == "delete" then
      Ok(Delete([resource], folder, uids))
    else if opType == "send" then
      match Get(v, "draft")
      case Some(draft) => Ok(Send(draft))
      case None => Err("send op missing 'draft' field")
    else Err("unknown op type " + opType)
  }

  /** The one call on the mail source an operation turns into. */
  datatype SourceCall =
    | SetFlags(folder: string, uids: seq<u32>, flag: string, add: bool)
    | MoveMessages(src: string, uids: seq<u32>, dst: string)
    | DeleteMessages(folder: string, uids: seq<u32>)

  function ExecViaSource(op: MutationOp): Result<SourceCall> {
    match op
    case MarkRead(_, _, folder, uids, read) => Ok(SetFlags(folder, uids, "\\Seen", read))
    case SetFlag(_, folder, uids, flag, add) => Ok(SetFlags(folder, uids, flag, add))
    case Move(_, _, _, src, dst, uids) => Ok(MoveMessages(src, uids, dst))
    case Delete(_, folder, uids) => Ok(DeleteMessages(folder, uids))
    case Send(_) => Err("Send is handled by run_replay_round, not exec_via_source")
  }

  lemma OpTypesDiffer()
    ensures "markRead" != "setFlag" && "markRead" != "move" && "markRead" != "delete" && "markRead" != "send"
    ensures "setFlag" != "move" && "setFlag" != "delete" && "setFlag" != "send"
    ensures "move" != "delete" && "move" != "send" && "delete" != "send"
  {
    assert "markRead"[0] == 'm' && |"markRead"| == 8 && "setFlag"[0] == 's' && |"setFlag"| == 7;
    assert |"move"| == 4 && "move"[0] == 'm' && |"delete"| == 6 && "send"[0] == 's' && |"send"| == 4;
  }

  /** What the row of resource `rid` gives back: the single-message form, without
      thread id and source label. */
  lemma RecoveredOp(op: MutationOp, rid: string)
    ensures var r := FromPending(OpType(op), rid, EncodeParams(op));
            match op
            case MarkRead(_, _, folder, uids, read) =>
              r == Ok(MarkRead(rid, [rid], folder, [if uids == [] then 0 else uids[0]], read))
            case SetFlag(_, folder, uids, flag, add) =>
              r == Ok(SetFlag([rid], folder, [if uids == [] then 0 else uids[0]], flag, add))
            case Move(_, _, dstLabel, src, dst, uids) =>
              r == Ok(Move([rid], "", dstLabel, src, dst, [if uids == [] then 0 else uids[0]]))
            case Delete(_, folder, uids) =>
              r == Ok(Delete([rid], folder, [if uids == [] then 0 else uids[0]]))
            case Send(draft) => r == Ok(Send(draft))
  {
    OpTypesDiffer();
    if !op.Send? {
      var v := EncodeParams(op);
      assert Get(v, "uids") == Some(UidArray(op.uids));
    }
  }

  /** Legacy rows with empty params decode to defaults: unread, \Flagged set, no folder,
      UID 0; unknown types and sends without a draft do not decode. */
  lemma LegacyDefaults(rid: string, opType: string)
    ensures FromPending("markRead", rid, JObj(map[])) == Ok(MarkRead(rid, [rid], "", [0], false))
    ensures FromPending("setFlag", rid, JObj(map[])) == Ok(SetFlag([rid], "", [0], "\\Flagged", true))
    ensures FromPending("move", rid, JObj(map[])) == Ok(Move([rid], "", "", "", "", [0]))
    ensures FromPending("delete", rid, JObj(map[])) == Ok(Delete([rid], "", [0]))
    ensures FromPending("send", rid, JObj(map[])).Err?
    ensures opType !in {"markRead", "setFlag", "move", "delete", "send"} ==> FromPending(opType, rid, JObj(map[])).Err?
  {
    OpTypesDiffer();
  }

  /** Values of another type count as missing. */
  lemma WrongTypes(rid: string)
    ensures FromPending("setFlag", rid, JObj(map["folderPath" := JInt(1), "flag" := JNull, "add" := JInt(0),
                                                 "uids" := JStr("7")]))
         == Ok(SetFlag([rid], "", [0], "\\Flagged", true))
    ensures FromPending("delete", rid, JObj(map["uids" := JArr([JStr("7")])])) == Ok(Delete([rid], "", [0]))
  {
    OpTypesDiffer();
  }

  /** A row whose `read` is a JSON boolean is compacted as a 1 or 0, yet always replayed as
      unread: the two readers of the column disagree. */
  lemma BooleanRead(rid: string, read: bool, op: PendingOp)
    requires op.params == JObj(map["read" := JBool(read)])
    ensures Queue.ReadOf(op) == Some(if read then 1 else 0)
    ensures FromPending("markRead", rid, op.params) == Ok(MarkRead(rid, [rid], "", [0], false))
  {
    OpTypesDiffer();
  }

  /** Toggle rows written by `encode_params` carry `read` as a bit. */
  lemma EncodedBit(op: PendingOp)
    requires Encoded(op) && Queue.IsToggleType(op.opType)
    ensures Queue.ReadOf(op) == Some(0) || Queue.ReadOf(op) == Some(1)
  {
    var m: MutationOp :| op.opType == OpType(m) && op.params == EncodeParams(m);
    OpTypesDiffer();
  }

  /** Replay makes the very call the operation stands for, exactly when the
      operation names one UID. */
  lemma ReplayRoundTrip(op: MutationOp, rid: string)
    requires !op.Send?
    ensures var r := FromPending(OpType(op), rid, EncodeParams(op));
            r.Ok? && (ExecViaSource(r.value) == ExecViaSource(op) <==> |op.uids| == 1)
  {
    RecoveredOp(op, rid);
    var first := if op.uids == [] then 0 else op.uids[0];
    assert [first] == op.uids <==> |op.uids| == 1;
  }

  // ---- Optimistic local writes ----

  function MarkReadLocally(db: Db, account: string, threadId: string, read: bool): Db {
    var t := Key(account, threadId);
    db.(threads := if t in db.threads then db.threads[t := db.threads[t].(isRead := read)] else db.threads,
        messages := map k | k in db.messages ::
          if k.account == account && db.messages[k].threadId == threadId then db.messages[k].(isRead := read)
          else db.messages[k])
  }

  /** Only \Flagged has a local column. */
  function StarValue(flag: string, add: bool): bool {
    flag == "\\Flagged" && add
  }

  function StarOne(db: Db, k: Key, star: bool): Db {
    if k in db.messages then db.(messages := db.messages[k := db.messages[k].(isStarred := star)]) else db
  }

  function StarAll(db: Db, account: string, mids: seq<string>, star: bool): Db {
    if mids == [] then db
    else StarOne(StarAll(db, account, mids[..|mids| - 1], star), Key(account, mids[|mids| - 1]), star)
  }

  function MoveOne(db: Db, k: Key, src: string, dst: string): Db {
    if k !in db.messages then db
    else
      var t := Key(k.account, db.messages[k].threadId);
      db.(threadLabels := db.threadLabels - {ThreadLabel(t, src)} + {ThreadLabel(t, dst)})
  }

  function MoveAll(db: Db, account: string, mids: seq<string>, src: string, dst: string): Db {
    if mids == [] then db
    else MoveOne(MoveAll(db, account, mids[..|mids| - 1], src, dst), Key(account, mids[|mids| - 1]), src, dst)
  }

  function KeysOf(account: string, mids: seq<string>): (r: set<Key>)
    ensures forall k :: k in r <==> k.account == account && k.id in mids
  {
    set id | id in mids :: Key(account, id)
  }

  function DeleteLocally(db: Db, account: string, mids: seq<string>): Db {
    Delta.SweepOrphans(Delta.DeleteMessages(db, KeysOf(account, mids)), account)
  }

  function WriteLocally(db: Db, account: string, op: MutationOp): Db {
    match op
    case MarkRead(threadId, _, _, _, read) => MarkReadLocally(db, account, threadId, read)
    case SetFlag(mids, _, _, flag, add) => StarAll(db, account, mids, StarValue(flag, add))
    case Move(mids, src, dst, _, _, _) => MoveAll(db, account, mids, src, dst)
    case Delete(mids, _, _) => DeleteLocally(db, account, mids)
    case Send(_) => db
  }

  function Affected(op: MutationOp): seq<string> {
    if op.Send? then [] else op.messageIds
  }

  method DeleteRows(store: Store, account: string, mids: seq<string>)
    modifies store
    ensures store.Snapshot() == DeleteLocally(old(store.Snapshot()), account, mids)
    ensures store.commits == old(store.commits)
  {
    ghost var db := store.Snapshot();
    ghost var messages, bodies := store.messages, store.bodies;
    for i := 0 to |mids|
      invariant store.messages == messages - KeysOf(account, mids[..i])
      invariant store.bodies == bodies - KeysOf(account, mids[..i])
      invariant store.Snapshot() == db.(messages := store.messages, bodies := store.bodies)
      invariant store.commits == old(store.commits)
    {
      var k := Key(account, mids[i]);
      store.messages := store.messages - {k};
      store.bodies := store.bodies - {k};
      assert KeysOf(account, mids[..i + 1]) == KeysOf(account, mids[..i]) + {k};
    }
    assert mids[..|mids|] == mids;
    assert store.Snapshot() == Delta.DeleteMessages(db, KeysOf(account, mids));
    Messages.SweepThreads(store, account);
  }

  method WriteRows(store: Store, account: string, op: MutationOp) returns (affected: seq<string>)
    modifies store
    ensures store.Snapshot() == WriteLocally(old(store.Snapshot()), account, op)
    ensures store.commits == old(store.commits)
    ensures affected == if op.Send? then [] else op.messageIds
  {
    ghost var db := store.Snapshot();
    match op
    case MarkRead(threadId, mids, _, _, read) =>
      var t := Key(account, threadId);
      if t in store.threads {
        store.threads := store.threads[t := store.threads[t].(isRead := read)];
      }
      store.messages := map k | k in store.messages ::
        if k.account == account && store.messages[k].threadId == threadId then store.messages[k].(isRead := read)
        else store.messages[k];
      affected := mids;
    case SetFlag(mids, _, _, flag, add) =>
      var star := flag == "\\Flagged" && add;
      for i := 0 to |mids|
        invariant store.Snapshot() == StarAll(db, account, mids[..i], star)
        invariant store.commits == old(store.commits)
      {
        var k := Key(account, mids[i]);
        assert mids[..i + 1][..i] == mids[..i];
        if k in store.messages {
          store.messages := store.messages[k := store.messages[k].(isStarred := star)];
        }
      }
      assert mids[..|mids|] == mids;
      affected := mids;
    case Move(mids, src, dst, _, _, _) =>
      for i := 0 to |mids|
        invariant store.Snapshot() == MoveAll(db, account, mids[..i], src, dst)
        invariant store.commits == old(store.commits)
      {
        var k := Key(account, mids[i]);
        assert mids[..i + 1][..i] == mids[..i];
        if k in store.messages {
          var t := Key(account, store.messages[k].threadId);
          store.threadLabels := store.threadLabels - {ThreadLabel(t, src)};
          store.threadLabels := store.threadLabels + {ThreadLabel(t, dst)};
        }
      }
      assert mids[..|mids|] == mids;
      affected := mids;
    case Delete(mids, _, _) =>
      DeleteRows(store, account, mids);
      affected := mids;
    case Send(_) =>
      affected := [];
  }

  /** The optimistic write in one transaction; returns the affected message ids. */
  method LocalWrites(store: Store, account: string, op: MutationOp) returns (affected: seq<string>)
    modifies store
    ensures store.Snapshot() == WriteLocally(old(store.Snapshot()), account, op)
    ensures store.commits == old(store.commits) + [store.Snapshot()]
    ensures affected == if op.Send? then [] else op.messageIds
  {
    affected := WriteRows(store, account, op);
    store.Commit();
  }

  // ---- The whole mutation: write locally, then queue one row per message ----

  /** A generated id and the time of the insert. */
  datatype Stamp = Stamp(id: string, at: int)

  /** The resources that get a row; an empty list falls back to one generated key. */
  function Targets(op: MutationOp, sendKey: string): (r: seq<string>)
    ensures r != []
  {
    if Affected(op) == [] then [sendKey] else Affected(op)
  }

  /** One row per stamp, for the first targets. */
  function Rows(account: string, op: MutationOp, targets: seq<string>, stamps: seq<Stamp>): (r: seq<PendingOp>)
    requires |stamps| <= |targets|
    ensures |r| == |stamps|
  {
    seq(|stamps|, i requires 0 <= i < |stamps| =>
      Queue.NewOp(stamps[i].id, account, OpType(op), targets[i], EncodeParams(op), stamps[i].at))
  }

  /** The store after the local write and as many rows as there are stamps; with fewer
      stamps than targets the client stopped in between. */
  function Mutated(db: Db, account: string, op: MutationOp, sendKey: string, stamps: seq<Stamp>): Db
    requires |stamps| <= |Targets(op, sendKey)|
  {
    var written := WriteLocally(db, account, op);
    written.(pending := written.pending + Rows(account, op, Targets(op, sendKey), stamps))
  }

  /** The generated ids are new. */
  ghost predicate FreshIds(q: seq<PendingOp>, stamps: seq<Stamp>) {
    && (forall i, j :: 0 <= i < |q| && 0 <= j < |stamps| ==> q[i].id != stamps[j].id)
    && (forall i, j :: 0 <= i < j < |stamps| ==> stamps[i].id != stamps[j].id)
  }

  lemma {:induction false} StarKeepsQueue(db: Db, account: string, mids: seq<string>, star: bool)
    ensures StarAll(db, account, mids, star).pending == db.pending
  {
    if mids != [] { StarKeepsQueue(db, account, mids[..|mids| - 1], star); }
  }

  lemma {:induction false} MoveKeepsQueue(db: Db, account: string, mids: seq<string>, src: string, dst: string)
    ensures MoveAll(db, account, mids, src, dst).pending == db.pending
  {
    if mids != [] { MoveKeepsQueue(db, account, mids[..|mids| - 1], src, dst); }
  }

  lemma {:induction false} WritesKeepQueue(db: Db, account: string, op: MutationOp)
    ensures WriteLocally(db, account, op).pending == db.pending
  {
    match op
    case SetFlag(mids, _, _, flag, add) => StarKeepsQueue(db, account, mids, StarValue(flag, add));
    case Move(mids, src, dst, _, _, _) => MoveKeepsQueue(db, account, mids, src, dst);
    case _ =>
  }

  lemma StampIsFresh(q: seq<PendingOp>, rows: seq<PendingOp>, stamps: seq<Stamp>, i: nat)
    requires FreshIds(q, stamps) && i < |stamps| && i <= |rows|
    requires forall j :: 0 <= j < i ==> rows[j].id == stamps[j].id
    ensures forall row :: row in q + rows[..i] ==> row.id != stamps[i].id
  {
    forall row | row in q + rows[..i] ensures row.id != stamps[i].id {
      var j :| 0 <= j < |q| + i && (q + rows[..i])[j] == row;
      assert row == if j < |q| then q[j] else rows[j - |q|];
    }
  }

  lemma RowsPrefix(account: string, op: MutationOp, targets: seq<string>, stamps: seq<Stamp>, n: nat)
    requires |stamps| <= |targets| && n <= |stamps|
    ensures Rows(account, op, targets, stamps[..n]) == Rows(account, op, targets, stamps)[..n]
  {}

  lemma RowAt(account: string, op: MutationOp, targets: seq<string>, stamps: seq<Stamp>, i: nat)
    requires i < |stamps| <= |targets|
    ensures forall j :: 0 <= j < |stamps| ==> Rows(account, op, targets, stamps)[j].id == stamps[j].id
    ensures Rows(account, op, targets, stamps)[i]
         == Queue.NewOp(stamps[i].id, account, OpType(op), targets[i], EncodeParams(op), stamps[i].at)
  {}

  /** Each row is a transaction of its own. */
  method EnqueueRows(store: Store, account: string, op: MutationOp, targets: seq<string>, stamps: seq<Stamp>)
    requires |stamps| == |targets|
    requires FreshIds(store.pending, stamps)
    modifies store
    ensures store.Snapshot()
        == old(store.Snapshot()).(pending := old(store.pending) + Rows(account, op, targets, stamps))
    ensures |store.commits| == |old(store.commits)| + |stamps| && old(store.commits) <= store.commits
    ensures forall n :: 0 < n <= |stamps| ==>
              store.commits[|old(store.commits)| + n - 1]
              == old(store.Snapshot()).(pending := old(store.pending) + Rows(account, op, targets, stamps)[..n])
  {
    hide EncodeParams, OpType, FreshIds, Rows, Queue.NewOp, Queue.UniqueIds;
    ghost var db, from := store.Snapshot(), store.commits;
    var params := EncodeParams(op);
    ghost var rows := Rows(account, op, targets, stamps);
    for i := 0 to |targets|
      invariant store.Snapshot() == db.(pending := db.pending + rows[..i])
      invariant |store.commits| == |from| + i && from <= store.commits
      invariant forall n :: 0 < n <= i ==> store.commits[|from| + n - 1] == db.(pending := db.pending + rows[..n])
    {
      RowAt(account, op, targets, stamps, i);
      StampIsFresh(db.pending, rows, stamps, i);
      Queue.Enqueue(store, stamps[i].id, account, OpType(op), targets[i], params, stamps[i].at);
      assert db.pending + rows[..i + 1] == db.pending + rows[..i] + [rows[i]];
    }
    assert rows[..|targets|] == rows;
  }

  /** The local write commits before the first row does: what a crash can leave behind
      is the write with any number of the rows. */
  method ApplyMutation(store: Store, account: string, op: MutationOp, sendKey: string, stamps: seq<Stamp>)
    requires |stamps| == |Targets(op, sendKey)|
    requires FreshIds(store.pending, stamps)
    modifies store
    ensures store.Snapshot() == Mutated(old(store.Snapshot()), account, op, sendKey, stamps)
    ensures |store.commits| == |old(store.commits)| + 1 + |stamps| && old(store.commits) <= store.commits
    ensures forall n :: 0 <= n <= |stamps| ==>
              store.commits[|old(store.commits)| + n]
                  == Mutated(old(store.Snapshot()), account, op, sendKey, stamps[..n])
  {
    hide WriteLocally, Rows;
    ghost var db, from := store.Snapshot(), store.commits;
    WritesKeepQueue(db, account, op);
    var affected := LocalWrites(store, account, op);
    ghost var written := store.Snapshot();
    assert store.commits[|from|] == written;
    EnqueueRows(store, account, op, if affected == [] then [sendKey] else affected, stamps);
    forall n | 0 <= n <= |stamps|
      ensures store.commits[|from| + n] == Mutated(db, account, op, sendKey, stamps[..n])
    {
      RowsPrefix(account, op, Targets(op, sendKey), stamps, n);
      if n == 0 {
        assert written.pending + [] == written.pending;
      }
    }
  }

  // ---- Batches: what per-message rows can reach ----

  /** Every row of a batch decodes to the batch's first UID: the server calls repeat
      it once per message and name no other. */
  lemma BatchReachesFirstUid(op: MutationOp, rid: string)
    requires !op.Send? && op.uids != []
    ensures var r := FromPending(OpType(op), rid, EncodeParams(op));
            r.Ok? && ExecViaSource(r.value).Ok? && ExecViaSource(r.value).value.uids == [op.uids[0]]
  {
    RecoveredOp(op, rid);
  }
}
