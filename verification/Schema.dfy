/** The tables of the local store, as one immutable value `Db` (what a committed
    transaction leaves behind) and as the mutable `Store` the methods update. */
module Schema {
  import opened Prelude
  import opened Text
  import opened Json

  /** Account ids are hyphenated version 4 UUIDs. */
  const ACCOUNT_ID_LEN: nat := 36

  /** Primary key `(account_id, id)` of `messages`, `threads`, `labels` and,
      with the folder path as id, of `folder_sync_state`. */
  datatype Key = Key(account: string, id: string)

  /** The columns every re-sync overwrites. */
  datatype Envelope = Envelope(
    fromAddress: Option<string>, fromName: Option<string>, toAddresses: Option<string>,
    ccAddresses: Option<string>, bccAddresses: Option<string>, replyTo: Option<string>,
    subject: Option<string>, snippet: Option<string>, date: int, bodyText: Option<string>,
    rawSize: u32, messageIdHeader: string, remoteEmailId: Option<string>,
    remoteThreadId: Option<string>)

  /** The columns written by the first insert and left alone afterwards. */
  datatype InsertOnly = InsertOnly(
    inReplyTo: Option<string>, references: Option<string>, listUnsubscribe: Option<string>,
    listUnsubscribePost: Option<string>, authResults: Option<string>)

  datatype Message = Message(
    threadId: string, envelope: Envelope, insertOnly: InsertOnly,
    isRead: bool, isStarred: bool, bodyCached: bool,
    imapUid: u32, imapFolder: string, isEncrypted: bool, isSigned: bool)

  datatype Thread = Thread(
    subject: Option<string>, snippet: Option<string>, lastMessageAt: int, messageCount: int,
    isRead: bool, isStarred: bool, isImportant: bool, hasAttachments: bool, isSnoozed: bool,
    fromName: Option<string>, fromAddress: Option<string>,
    classificationId: Option<string>, isEncrypted: bool, isSigned: bool)

  datatype ThreadLabel = ThreadLabel(thread: Key, labelId: string)

  datatype Body = Body(html: string, fetchedAt: int)

  datatype Status = Pending | Failed

  /** A row of `pending_operations`. The table is kept in insertion order. */
  datatype PendingOp = PendingOp(
    id: string, account: string, opType: string, resource: string, params: Json,
    status: Status, retryCount: nat, maxRetries: int, nextRetryAt: Option<int>,
    createdAt: int, error: Option<string>)

  datatype Label = Label(
    name: string, kind: string, visible: bool, sortOrder: int, source: string,
    role: Option<string>, parentId: Option<string>, remoteId: Option<string>,
    delimiter: Option<string>, mailClass: string, hierarchicalName: Option<string>,
    unreadCount: int, totalCount: int)

  /** A row of `folder_sync_state`, with the two numeric columns as SQLite's signed integers. */
  datatype SyncRow = SyncRow(uidValidity: u32, lastUid: u32, modseq: int)

  datatype Db = Db(
    messages: map<Key, Message>,
    threads: map<Key, Thread>,
    threadLabels: set<ThreadLabel>,
    bodies: map<Key, Body>,
    pending: seq<PendingOp>,
    labels: map<Key, Label>,
    syncState: map<Key, SyncRow>)

  /** The SQLite database. `commits` records, for the proofs only, the states
      other connections (and a restart after a crash) could observe. */
  class Store {
    var messages: map<Key, Message>
    var threads: map<Key, Thread>
    var threadLabels: set<ThreadLabel>
    var bodies: map<Key, Body>
    var pending: seq<PendingOp>
    var labels: map<Key, Label>
    var syncState: map<Key, SyncRow>
    ghost var commits: seq<Db>

    ghost function Snapshot(): Db
      reads this`messages, this`threads, this`threadLabels, this`bodies, this`pending, this`labels, this`syncState
    {
      Db(messages, threads, threadLabels, bodies, pending, labels, syncState)
    }

    /** COMMIT: what was written becomes visible. */
    ghost method Commit()
      modifies this`commits
      ensures commits == old(commits) + [Snapshot()] && Snapshot() == old(Snapshot())
    {
      commits := commits + [Snapshot()];
    }
  }

  predicate PendingFor(op: PendingOp, k: Key) {
    op.account == k.account && op.resource == k.id && op.status == Pending
  }

  /** The write-lock: some pending operation targets this row. */
  predicate Locked(db: Db, k: Key) {
    exists op :: op in db.pending && PendingFor(op, k)
  }

  function MessageKey(account: string, folder: string, uid: u32): Key {
    Key(account, MessageId(account, folder, uid))
  }

  // ---- Cells: everything the store says about one message ----

  /** One message with its thread, labels and body. */
  datatype Cell = Cell(msg: Option<Message>, thread: Option<Thread>, labels: set<string>, body: Option<Body>)

  const EMPTY: Cell := Cell(None, None, {}, None)

  ghost function LabelsOf(db: Db, k: Key): (r: set<string>)
    ensures forall l :: l in r <==> ThreadLabel(k, l) in db.threadLabels
  {
    var r := set tl | tl in db.threadLabels && tl.thread == k :: tl.labelId;
    assert forall l :: ThreadLabel(k, l) in db.threadLabels ==> l in r by {
      forall l | ThreadLabel(k, l) in db.threadLabels ensures l in r {
        var tl := ThreadLabel(k, l);
        assert tl.thread == k && tl.labelId == l;
      }
    }
    r
  }

  ghost function CellAt(db: Db, k: Key): Cell {
    Cell(if k in db.messages then Some(db.messages[k]) else None,
         if k in db.threads then Some(db.threads[k]) else None,
         LabelsOf(db, k),
         if k in db.bodies then Some(db.bodies[k]) else None)
  }

  /** The tables a folder delta never writes. */
  predicate SameRest(d: Db, e: Db) {
    d.pending == e.pending && d.labels == e.labels && d.syncState == e.syncState
  }

  /** The cells determine the message tables. */
  lemma SameCells(d: Db, e: Db)
    requires forall k :: CellAt(d, k) == CellAt(e, k)
    requires SameRest(d, e)
    ensures d == e
  {
    forall k ensures k in d.messages <==> k in e.messages
             ensures k in d.threads <==> k in e.threads
             ensures k in d.bodies <==> k in e.bodies
             ensures k in d.messages ==> d.messages[k] == e.messages[k]
             ensures k in d.threads ==> d.threads[k] == e.threads[k]
             ensures k in d.bodies ==> d.bodies[k] == e.bodies[k]
    {
      assert CellAt(d, k) == CellAt(e, k);
    }
    assert d.messages == e.messages;
    assert d.threads == e.threads;
    assert d.bodies == e.bodies;
    forall tl ensures tl in d.threadLabels <==> tl in e.threadLabels {
      assert CellAt(d, tl.thread) == CellAt(e, tl.thread);
      assert tl == ThreadLabel(tl.thread, tl.labelId);
      assert tl.labelId in LabelsOf(d, tl.thread) <==> tl in d.threadLabels;
      assert tl.labelId in LabelsOf(e, tl.thread) <==> tl in e.threadLabels;
    }
    assert d.threadLabels == e.threadLabels;
  }

  // ---- Well-keyed stores: what holds after every single statement ----

  /** The id names the row's own account, whose id has the usual length. */
  predicate OwnId(k: Key) {
    |k.account| == ACCOUNT_ID_LEN && "imap-" + k.account + "-" <= k.id
  }

  lemma SameIdSameKey(k: Key, l: Key)
    requires OwnId(k) && OwnId(l) && k.id == l.id
    ensures k == l
  {
    assert k.account == k.id[5..5 + ACCOUNT_ID_LEN] == l.account;
  }

  lemma MessageKeyOwnId(account: string, folder: string, uid: u32)
    requires |account| == ACCOUNT_ID_LEN
    ensures OwnId(MessageKey(account, folder, uid))
  {
    var p := "imap-" + account + "-";
    assert MessageId(account, folder, uid) == p + (folder + "-" + Decimal(uid));
  }

  /** A message row sits under the id its account, folder and uid spell, in the
      thread of the same id; bodies, labels and messages have their parent row. */
  predicate WellKeyedCell(k: Key, c: Cell) {
    && (c.msg.Some? ==> k.id == MessageId(k.account, c.msg.value.imapFolder, c.msg.value.imapUid))
    && (c.msg.Some? ==> c.msg.value.threadId == k.id && c.thread.Some?)
    && (c.body.Some? ==> c.msg.Some?)
    && (c.labels != {} ==> c.thread.Some?)
    && (c.thread.Some? ==> OwnId(k))
  }

  ghost predicate WellKeyed(db: Db) {
    forall k :: WellKeyedCell(k, CellAt(db, k))
  }

  // ---- The invariant between complete operations ----

  /** Thread and message exist together and agree; the flag `body_cached` mirrors
      the body table. */
  predicate CoherentCell(c: Cell) {
    && (c.thread.Some? <==> c.msg.Some?)
    && (c.msg.Some? ==>
          && c.msg.value.isRead == c.thread.value.isRead
          && c.msg.value.isEncrypted == c.thread.value.isEncrypted
          && c.msg.value.isSigned == c.thread.value.isSigned
          && c.msg.value.envelope.date == c.thread.value.lastMessageAt
          && (c.msg.value.bodyCached <==> c.body.Some?))
  }

  ghost predicate Inv(db: Db) {
    forall k :: WellKeyedCell(k, CellAt(db, k)) && CoherentCell(CellAt(db, k))
  }

  /** The same invariant read off the tables. */
  ghost predicate TablesAgree(db: Db) {
    && db.messages.Keys == db.threads.Keys
    && (forall k :: k in db.messages ==>
          var m, t := db.messages[k], db.threads[k];
          && |k.account| == ACCOUNT_ID_LEN
          && k.id == MessageId(k.account, m.imapFolder, m.imapUid) && m.threadId == k.id
          && m.isRead == t.isRead && m.isEncrypted == t.isEncrypted && m.isSigned == t.isSigned
          && m.envelope.date == t.lastMessageAt
          && (m.bodyCached <==> k in db.bodies))
    && (forall tl :: tl in db.threadLabels ==> tl.thread in db.threads)
    && db.bodies.Keys <= db.messages.Keys
  }

  lemma InvGivesTables(db: Db)
    requires Inv(db)
    ensures TablesAgree(db)
  {
    forall k
      ensures k in db.messages <==> k in db.threads
      ensures k in db.bodies ==> k in db.messages
      ensures k in db.messages ==> WellKeyedCell(k, CellAt(db, k)) && CoherentCell(CellAt(db, k))
    {
      assert WellKeyedCell(k, CellAt(db, k)) && CoherentCell(CellAt(db, k));
    }
    forall tl | tl in db.threadLabels ensures tl.thread in db.threads {
      assert tl == ThreadLabel(tl.thread, tl.labelId) && tl.labelId in LabelsOf(db, tl.thread);
      assert WellKeyedCell(tl.thread, CellAt(db, tl.thread));
    }
  }

  lemma InvMeaning(db: Db)
    ensures Inv(db) <==> TablesAgree(db)
  {
    if Inv(db) { InvGivesTables(db); }
    if TablesAgree(db) {
      forall k ensures WellKeyedCell(k, CellAt(db, k)) && CoherentCell(CellAt(db, k)) {
        if k in db.messages {
          MessageKeyOwnId(k.account, db.messages[k].imapFolder, db.messages[k].imapUid);
        }
      }
    }
  }
}
