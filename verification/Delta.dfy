/** Folder deltas: what each SQL statement of `apply_folder_delta` does to the
    store, and the program of statements a whole delta amounts to. */
module Delta {
  import opened Prelude
  import opened Text
  import opened Schema

  datatype CryptoKind = Encrypted | Signed | EncryptedSigned {
    predicate IsEncrypted() { Encrypted? || EncryptedSigned? }
    predicate IsSigned() { Signed? || EncryptedSigned? }
  }

  /** A message in the source's terms, without the fields the header sync ignores. */
  datatype RemoteMessage = RemoteMessage(
    uid: u32, folder: string, messageId: Option<string>, inReplyTo: Option<string>,
    references: Option<string>, fromAddress: Option<string>, fromName: Option<string>,
    toAddresses: Option<string>, ccAddresses: Option<string>, bccAddresses: Option<string>,
    replyTo: Option<string>, subject: Option<string>, snippet: Option<string>, date: int,
    isRead: bool, isStarred: bool, bodyText: Option<string>, rawSize: u32,
    listUnsubscribe: Option<string>, listUnsubscribePost: Option<string>,
    authResults: Option<string>, hasAttachments: bool, cryptoKind: Option<CryptoKind>,
    remoteEmailId: Option<string>, remoteThreadId: Option<string>)

  datatype FlagUpdate = FlagUpdate(uid: u32, isRead: bool, isStarred: bool)

  datatype FolderDelta = FolderDelta(
    added: seq<RemoteMessage>, updated: seq<RemoteMessage>, flagUpdates: seq<FlagUpdate>,
    vanishedUids: seq<u32>, uidValidityChanged: bool)

  /** What a delta is applied to: an account, a `labels` row and an IMAP path. */
  datatype Folder = Folder(account: string, labelId: string, path: string)

  // ---- Rows written by an upsert ----

  function EnvelopeOf(account: string, m: RemoteMessage): Envelope {
    Envelope(m.fromAddress, m.fromName, m.toAddresses, m.ccAddresses, m.bccAddresses, m.replyTo,
             m.subject, m.snippet, m.date, m.bodyText, m.rawSize,
             match m.messageId
             case Some(h) => h
             case None => "synthetic-" + account + "-" + m.folder + "-" + Decimal(m.uid) + "@kylins.local",
             m.remoteEmailId, m.remoteThreadId)
  }

  function IsEncrypted(m: RemoteMessage): bool {
    m.cryptoKind.Some? && m.cryptoKind.value.IsEncrypted()
  }

  function IsSigned(m: RemoteMessage): bool {
    m.cryptoKind.Some? && m.cryptoKind.value.IsSigned()
  }

  /** INSERT INTO messages ... ON CONFLICT DO UPDATE. */
  function UpsertedMessage(row: Option<Message>, account: string, m: RemoteMessage): Message {
    match row
    case None =>
      Message(MessageId(account, m.folder, m.uid), EnvelopeOf(account, m),
              InsertOnly(m.inReplyTo, m.references, m.listUnsubscribe, m.listUnsubscribePost, m.authResults),
              m.isRead, m.isStarred, false, m.uid, m.folder, IsEncrypted(m), IsSigned(m))
    case Some(r) =>
      r.(envelope := EnvelopeOf(account, m), isRead := m.isRead, isStarred := m.isStarred,
         imapUid := m.uid, imapFolder := m.folder,
         isEncrypted := IsEncrypted(m), isSigned := IsSigned(m))
  }

  /** INSERT INTO threads ... ON CONFLICT DO UPDATE. */
  function UpsertedThread(row: Option<Thread>, m: RemoteMessage): Thread {
    match row
    case None =>
      Thread(m.subject, m.snippet, m.date, 1, m.isRead, m.isStarred, false, m.hasAttachments, false,
             m.fromName, m.fromAddress, None, IsEncrypted(m), IsSigned(m))
    case Some(t) =>
      t.(subject := m.subject, snippet := m.snippet, lastMessageAt := m.date, messageCount := 1,
         isRead := m.isRead, isStarred := m.isStarred, isImportant := false,
         hasAttachments := m.hasAttachments, fromName := m.fromName, fromAddress := m.fromAddress,
         isEncrypted := IsEncrypted(m), isSigned := IsSigned(m))
  }

  /** Over an existing row the upsert writes what an insert would, except for the
      columns that belong to the first insert and the body flag. */
  lemma ResyncColumns(r: Message, t: Thread, account: string, m: RemoteMessage)
    requires r.threadId == MessageId(account, m.folder, m.uid)
    ensures UpsertedMessage(Some(r), account, m)
         == UpsertedMessage(None, account, m).(insertOnly := r.insertOnly, bodyCached := r.bodyCached)
    ensures UpsertedThread(Some(t), m)
         == UpsertedThread(None, m).(isSnoozed := t.isSnoozed, classificationId := t.classificationId)
  {}

  // ---- Statements ----

  /** DELETE FROM messages for these rows; the foreign key takes the bodies along. */
  function DeleteMessages(db: Db, gone: set<Key>): Db {
    db.(messages := db.messages - gone, bodies := db.bodies - gone)
  }

  predicate HasMessages(db: Db, account: string, threadId: string) {
    exists k :: k in db.messages && k.account == account && db.messages[k].threadId == threadId
  }

  function Orphans(db: Db, account: string): set<Key> {
    set k | k in db.threads && k.account == account && !HasMessages(db, account, k.id)
  }

  /** DELETE FROM threads without messages; the foreign key takes the labels along. */
  function SweepOrphans(db: Db, account: string): Db {
    var gone := Orphans(db, account);
    db.(threads := db.threads - gone,
        threadLabels := set tl | tl in db.threadLabels && tl.thread !in gone)
  }

  function InFolder(db: Db, account: string, path: string): set<Key> {
    set k | k in db.messages && k.account == account && db.messages[k].imapFolder == path
  }

  function WipeFolder(db: Db, account: string, path: string): Db {
    SweepOrphans(DeleteMessages(db, InFolder(db, account, path)), account)
  }

  function UpsertMessage(db: Db, account: string, labelId: string, m: RemoteMessage): Db {
    var k := MessageKey(account, m.folder, m.uid);
    if Locked(db, k) then db
    else
      db.(threads := db.threads[k := UpsertedThread(if k in db.threads then Some(db.threads[k]) else None, m)],
          messages := db.messages[k :=
            UpsertedMessage(if k in db.messages then Some(db.messages[k]) else None, account, m)],
          threadLabels := db.threadLabels + {ThreadLabel(k, labelId)})
  }

  function WithId<T>(table: map<Key, T>, id: string): set<Key> {
    set k | k in table && k.id == id
  }

  /** DELETE FROM messages WHERE id = ?, then DELETE FROM message_bodies WHERE
      message_id = ?: by id alone, whatever the account. */
  function DeleteVanished(db: Db, id: string): Db {
    var d := DeleteMessages(db, WithId(db.messages, id));
    d.(bodies := d.bodies - WithId(d.bodies, id))
  }

  /** The rows `account_id = ? AND imap_folder = ? AND imap_uid = ?` selects. */
  function AtUid(db: Db, f: Folder, uid: u32): set<Key> {
    set k | k in db.messages && k.account == f.account
         && db.messages[k].imapFolder == f.path && db.messages[k].imapUid == uid
  }

  function FlagMessage(db: Db, f: Folder, u: FlagUpdate): Db {
    if Locked(db, MessageKey(f.account, f.path, u.uid)) then db
    else
      db.(messages := db.messages + map k | k in AtUid(db, f, u.uid) ::
            db.messages[k].(isRead := u.isRead, isStarred := u.isStarred))
  }

  /** The mirror runs when the message statement touched a row, and by id alone. */
  function FlagThread(db: Db, f: Folder, u: FlagUpdate): Db {
    if Locked(db, MessageKey(f.account, f.path, u.uid)) || AtUid(db, f, u.uid) == {} then db
    else
      db.(threads := db.threads + map k | k in WithId(db.threads, MessageId(f.account, f.path, u.uid)) ::
            db.threads[k].(isRead := u.isRead, isStarred := u.isStarred))
  }

  // ---- The program of a delta ----

  datatype Op =
    | Wipe
    | Upsert(m: RemoteMessage)
    | Vanish(uid: u32)
    | Sweep
    | SetMessageFlags(u: FlagUpdate)
    | SetThreadFlags(u: FlagUpdate)

  function Exec(db: Db, f: Folder, op: Op): Db {
    match op
    case Wipe => WipeFolder(db, f.account, f.path)
    case Upsert(m) => UpsertMessage(db, f.account, f.labelId, m)
    case Vanish(uid) => DeleteVanished(db, MessageId(f.account, f.path, uid))
    case Sweep => SweepOrphans(db, f.account)
    case SetMessageFlags(u) => FlagMessage(db, f, u)
    case SetThreadFlags(u) => FlagThread(db, f, u)
  }

  /** Statement after statement, with no transaction or batch boundary in sight. */
  function Run(db: Db, f: Folder, ops: seq<Op>): Db {
    if ops == [] then db else Exec(Run(db, f, ops[..|ops| - 1]), f, ops[|ops| - 1])
  }

  function Upserts(ms: seq<RemoteMessage>): (ops: seq<Op>)
    ensures |ops| == |ms|
  {
    seq(|ms|, i requires 0 <= i < |ms| => Upsert(ms[i]))
  }

  function Vanishes(uids: seq<u32>): (ops: seq<Op>)
    ensures |ops| == |uids|
  {
    seq(|uids|, i requires 0 <= i < |uids| => Vanish(uids[i]))
  }

  function FlagOps(us: seq<FlagUpdate>): (ops: seq<Op>)
    ensures |ops| == 2 * |us|
  {
    if us == [] then []
    else FlagOps(us[..|us| - 1]) + [SetMessageFlags(us[|us| - 1]), SetThreadFlags(us[|us| - 1])]
  }

  function WipePhase(d: FolderDelta): (ops: seq<Op>)
    ensures |ops| == if d.uidValidityChanged then 1 else 0
  {
    if d.uidValidityChanged then [Wipe] else []
  }

  function UpsertPhase(d: FolderDelta): (ops: seq<Op>)
    ensures |ops| == |d.added| + |d.updated|
  {
    Upserts(d.added + d.updated)
  }

  function VanishPhase(d: FolderDelta): (ops: seq<Op>)
    ensures |ops| == |d.vanishedUids|
  {
    Vanishes(d.vanishedUids)
  }

  function SweepPhase(d: FolderDelta): (ops: seq<Op>)
    ensures |ops| == if d.vanishedUids == [] then 0 else 1
  {
    if d.vanishedUids == [] then [] else [Sweep]
  }

  function Program(d: FolderDelta): (ops: seq<Op>)
    ensures |ops| == |WipePhase(d)| + |UpsertPhase(d)| + |VanishPhase(d)| + |SweepPhase(d)| + |FlagOps(d.flagUpdates)|
  {
    WipePhase(d) + UpsertPhase(d) + VanishPhase(d) + SweepPhase(d) + FlagOps(d.flagUpdates)
  }

  /** The specification of `apply_folder_delta`: one message at a time. */
  function ApplyDelta(db: Db, f: Folder, d: FolderDelta): Db {
    Run(db, f, Program(d))
  }

  lemma {:induction false} RunAppend(db: Db, f: Folder, p: seq<Op>, q: seq<Op>)
    ensures Run(db, f, p + q) == Run(Run(db, f, p), f, q)
  {
    if q == [] {
      assert p + q == p;
    } else {
      assert (p + q)[..|p + q| - 1] == p + q[..|q| - 1];
      RunAppend(db, f, p, q[..|q| - 1]);
    }
  }

  // ---- What a statement does to one cell ----

  predicate ValidFolder(f: Folder) {
    |f.account| == ACCOUNT_ID_LEN
  }

  /** Every message of a delta lies in the folder the delta is for. */
  predicate ValidOp(f: Folder, op: Op) {
    op.Upsert? ==> op.m.folder == f.path
  }

  predicate ValidDelta(f: Folder, d: FolderDelta) {
    && ValidFolder(f)
    && (forall m :: m in d.added ==> m.folder == f.path)
    && (forall m :: m in d.updated ==> m.folder == f.path)
  }

  function SweptCell(c: Cell): Cell {
    if c.msg.None? then Cell(None, None, {}, c.body) else c
  }

  function UpsertedCell(account: string, labelId: string, m: RemoteMessage, c: Cell): Cell {
    Cell(Some(UpsertedMessage(c.msg, account, m)), Some(UpsertedThread(c.thread, m)),
         c.labels + {labelId}, c.body)
  }

  function FlaggedMsg(c: Cell, u: FlagUpdate): Cell {
    if c.msg.None? then c else c.(msg := Some(c.msg.value.(isRead := u.isRead, isStarred := u.isStarred)))
  }

  function FlaggedThread(c: Cell, u: FlagUpdate): Cell {
    if c.msg.None? || c.thread.None? then c
    else c.(thread := Some(c.thread.value.(isRead := u.isRead, isStarred := u.isStarred)))
  }

  /** The effect of `op` on the cell at `k`; `locked` says whether `k` has a pending operation. */
  function Act(f: Folder, k: Key, locked: bool, op: Op, c: Cell): Cell {
    match op
    case Wipe =>
      if k.account != f.account then c
      else if c.msg.Some? && c.msg.value.imapFolder == f.path then EMPTY
      else SweptCell(c)
    case Upsert(m) =>
      if k == MessageKey(f.account, m.folder, m.uid) && !locked then UpsertedCell(f.account, f.labelId, m, c) else c
    case Vanish(uid) =>
      if k == MessageKey(f.account, f.path, uid) then c.(msg := None, body := None) else c
    case Sweep =>
      if k.account == f.account then SweptCell(c) else c
    case SetMessageFlags(u) =>
      if k == MessageKey(f.account, f.path, u.uid) && !locked then FlaggedMsg(c, u) else c
    case SetThreadFlags(u) =>
      if k == MessageKey(f.account, f.path, u.uid) && !locked then FlaggedThread(c, u) else c
  }

  lemma ActKeepsWellKeyed(f: Folder, k: Key, locked: bool, op: Op, c: Cell)
    requires WellKeyedCell(k, c) && ValidFolder(f)
    ensures WellKeyedCell(k, Act(f, k, locked, op, c))
  {
    if op.Upsert? {
      MessageKeyOwnId(f.account, op.m.folder, op.m.uid);
    }
  }

  lemma SweepAt(db: Db, account: string, k: Key)
    requires WellKeyed(db)
    ensures CellAt(SweepOrphans(db, account), k)
        == if k.account == account then SweptCell(CellAt(db, k)) else CellAt(db, k)
  {
    assert WellKeyedCell(k, CellAt(db, k));
    if k.account == account {
      assert HasMessages(db, account, k.id) <==> k in db.messages by {
        forall j | j in db.messages && j.account == account && db.messages[j].threadId == k.id ensures j == k {
          assert WellKeyedCell(j, CellAt(db, j));
        }
      }
    }
    var gone := Orphans(db, account);
    var after := SweepOrphans(db, account);
    assert k in gone <==> k in db.threads && k.account == account && k !in db.messages;
    assert forall l :: ThreadLabel(k, l) in after.threadLabels <==> ThreadLabel(k, l) in db.threadLabels && k !in gone;
    if k in gone {
      assert LabelsOf(after, k) == {};
    } else {
      assert LabelsOf(after, k) == LabelsOf(db, k);
    }
  }

  lemma WipeAt(db: Db, f: Folder, k: Key)
    requires WellKeyed(db)
    ensures CellAt(WipeFolder(db, f.account, f.path), k) == Act(f, k, Locked(db, k), Wipe, CellAt(db, k))
  {
    var gone := InFolder(db, f.account, f.path);
    var mid := DeleteMessages(db, gone);
    forall j ensures WellKeyedCell(j, CellAt(mid, j))
    {
      assert WellKeyedCell(j, CellAt(db, j));
      assert LabelsOf(mid, j) == LabelsOf(db, j);
    }
    SweepAt(mid, f.account, k);
    assert WellKeyedCell(k, CellAt(db, k)) && WellKeyedCell(k, CellAt(mid, k));
    assert LabelsOf(mid, k) == LabelsOf(db, k);
  }

  lemma VanishAt(db: Db, f: Folder, uid: u32, k: Key)
    requires WellKeyed(db) && ValidFolder(f)
    ensures CellAt(DeleteVanished(db, MessageId(f.account, f.path, uid)), k)
        == Act(f, k, Locked(db, k), Vanish(uid), CellAt(db, k))
  {
    var id := MessageId(f.account, f.path, uid);
    var after := DeleteVanished(db, id);
    assert WellKeyedCell(k, CellAt(db, k));
    assert LabelsOf(after, k) == LabelsOf(db, k);
    MessageKeyOwnId(f.account, f.path, uid);
    if k.id == id && k in db.messages {
      SameIdSameKey(k, MessageKey(f.account, f.path, uid));
    }
  }

  lemma UpsertAt(db: Db, f: Folder, m: RemoteMessage, k: Key)
    ensures CellAt(UpsertMessage(db, f.account, f.labelId, m), k) == Act(f, k, Locked(db, k), Upsert(m), CellAt(db, k))
  {
    hide MessageId;
    var after := UpsertMessage(db, f.account, f.labelId, m);
    if k == MessageKey(f.account, m.folder, m.uid) && !Locked(db, k) {
      assert LabelsOf(after, k) == LabelsOf(db, k) + {f.labelId};
    } else {
      assert LabelsOf(after, k) == LabelsOf(db, k);
    }
  }

  /** The row at (account, folder, uid) is the row with the composed id. */
  lemma AtUidIsKey(db: Db, f: Folder, uid: u32)
    requires WellKeyed(db) && ValidFolder(f)
    ensures AtUid(db, f, uid)
        == if MessageKey(f.account, f.path, uid) in db.messages then {MessageKey(f.account, f.path, uid)} else {}
  {
    var key := MessageKey(f.account, f.path, uid);
    forall k ensures k in AtUid(db, f, uid) <==> k == key && k in db.messages {
      assert WellKeyedCell(k, CellAt(db, k));
      if k == key && k in db.messages {
        MessageIdInjective(f.account, f.path, uid, k.account, db.messages[k].imapFolder, db.messages[k].imapUid);
      }
    }
  }

  lemma FlagMessageAt(db: Db, f: Folder, u: FlagUpdate, k: Key)
    requires WellKeyed(db) && ValidFolder(f)
    ensures CellAt(FlagMessage(db, f, u), k) == Act(f, k, Locked(db, k), SetMessageFlags(u), CellAt(db, k))
  {
    hide MessageId;
    AtUidIsKey(db, f, u.uid);
    var after := FlagMessage(db, f, u);
    assert after.threads == db.threads && after.bodies == db.bodies && after.threadLabels == db.threadLabels;
    assert LabelsOf(after, k) == LabelsOf(db, k);
  }

  lemma FlagThreadAt(db: Db, f: Folder, u: FlagUpdate, k: Key)
    requires WellKeyed(db) && ValidFolder(f)
    ensures CellAt(FlagThread(db, f, u), k) == Act(f, k, Locked(db, k), SetThreadFlags(u), CellAt(db, k))
  {
    hide MessageId;
    var key := MessageKey(f.account, f.path, u.uid);
    AtUidIsKey(db, f, u.uid);
    MessageKeyOwnId(f.account, f.path, u.uid);
    var after := FlagThread(db, f, u);
    assert after.messages == db.messages && after.bodies == db.bodies && after.threadLabels == db.threadLabels;
    assert LabelsOf(after, k) == LabelsOf(db, k);
    assert WellKeyedCell(k, CellAt(db, k));
    if k in db.threads && k.id == key.id {
      SameIdSameKey(k, key);
    }
  }

  lemma ExecAt(db: Db, f: Folder, op: Op, k: Key)
    requires WellKeyed(db) && ValidFolder(f)
    ensures CellAt(Exec(db, f, op), k) == Act(f, k, Locked(db, k), op, CellAt(db, k))
  {
    match op
    case Wipe => WipeAt(db, f, k);
    case Upsert(m) => UpsertAt(db, f, m, k);
    case Vanish(uid) => VanishAt(db, f, uid, k);
    case Sweep => SweepAt(db, f.account, k);
    case SetMessageFlags(u) => FlagMessageAt(db, f, u, k);
    case SetThreadFlags(u) => FlagThreadAt(db, f, u, k);
  }

  /** Every statement keeps every row under its key. */
  lemma ExecKeepsWellKeyed(db: Db, f: Folder, op: Op)
    requires WellKeyed(db) && ValidFolder(f)
    ensures WellKeyed(Exec(db, f, op)) && SameRest(db, Exec(db, f, op))
  {
    forall k ensures WellKeyedCell(k, CellAt(Exec(db, f, op), k)) {
      assert WellKeyedCell(k, CellAt(db, k));
      ExecAt(db, f, op, k);
      ActKeepsWellKeyed(f, k, Locked(db, k), op, CellAt(db, k));
    }
  }

  /** `Run` on one cell. */
  function ActAll(f: Folder, k: Key, locked: bool, ops: seq<Op>, c: Cell): Cell {
    if ops == [] then c else Act(f, k, locked, ops[|ops| - 1], ActAll(f, k, locked, ops[..|ops| - 1], c))
  }

  /** A run acts on each message on its own. */
  lemma {:induction false} RunAt(db: Db, f: Folder, ops: seq<Op>, k: Key)
    requires WellKeyed(db) && ValidFolder(f)
    ensures WellKeyed(Run(db, f, ops)) && SameRest(db, Run(db, f, ops))
    ensures CellAt(Run(db, f, ops), k) == ActAll(f, k, Locked(db, k), ops, CellAt(db, k))
  {
    if ops != [] {
      var mid := Run(db, f, ops[..|ops| - 1]);
      RunAt(db, f, ops[..|ops| - 1], k);
      ExecKeepsWellKeyed(mid, f, ops[|ops| - 1]);
      ExecAt(mid, f, ops[|ops| - 1], k);
      assert Locked(mid, k) == Locked(db, k);
    }
  }
}
