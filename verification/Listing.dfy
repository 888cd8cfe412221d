/** What the thread list shows of the other operations: deliveries, local moves and
    deletes, and deleted folders. */
module Listing {
  import opened Prelude
  import opened Text
  import opened Schema
  import opened Delta
  import opened DeltaTheorems
  import opened Mutations
  import opened Runs
  import opened Threads
  import Labels

  /** The list of the account, or of one of its labels, has a row for the thread. */
  ghost predicate ShownUnder(db: Db, account: string, labelId: Option<string>, k: Key) {
    exists r :: r in JoinRows(db, account, labelId) && r.thread == k
  }

  lemma LatestExists(db: Db, k: Key, j: Key)
    requires j in db.messages && j.account == k.account && db.messages[j].threadId == k.id
    ensures exists m :: m in db.messages && IsLatest(db, k, m)
  {
    var ks := set m | m in db.messages && m.account == k.account && db.messages[m].threadId == k.id;
    var f := (m: Key) => if m in db.messages then -db.messages[m].envelope.date else 0;
    assert j in ks;
    LeastExists(ks, f);
    var m :| m in ks && forall o :: o in ks ==> f(m) <= f(o);
    forall o | o in ks ensures db.messages[o].envelope.date <= db.messages[m].envelope.date {
      assert f(m) <= f(o);
    }
    assert IsLatest(db, k, m);
  }

  /** The whole list shows the threads of the account, the list of a label those that are
      linked to it, with messages or without, whatever the state of the store. */
  lemma EveryThreadHasRow(db: Db, account: string, labelId: Option<string>, k: Key)
    ensures ShownUnder(db, account, labelId, k) <==>
              && k in db.threads && k.account == account
              && (labelId.Some? ==> ThreadLabel(k, labelId.value) in db.threadLabels)
  {
    if k in db.threads && Listed(db, k, account, labelId) {
      if j :| j in db.messages && j.account == k.account && db.messages[j].threadId == k.id {
        LatestExists(db, k, j);
        var m :| m in db.messages && IsLatest(db, k, m);
        assert Row(k, db.threads[k], Some(m)) in JoinRows(db, account, labelId);
      } else {
        assert Row(k, db.threads[k], None) in JoinRows(db, account, labelId);
      }
    }
  }

  lemma KeyAccount(account: string, folder: string, uid: u32)
    ensures MessageKey(account, folder, uid).account == account
  {}

  /** A message a delta writes is listed under the folder's label, and in the whole list. */
  lemma DeliveryIsListed(db: Db, f: Folder, d: FolderDelta, uid: u32)
    requires Inv(db) && Written(db, f, d, uid)
    ensures ShownUnder(ApplyDelta(db, f, d), f.account, Some(f.labelId), MessageKey(f.account, f.path, uid))
    ensures ShownUnder(ApplyDelta(db, f, d), f.account, None, MessageKey(f.account, f.path, uid))
  {
    hide Inv, ShownUnder;
    var after, k := ApplyDelta(db, f, d), MessageKey(f.account, f.path, uid);
    DeltaKeepsInv(db, f, d);
    WrittenRows(db, f, d, uid);
    EveryThreadHasRow(after, f.account, Some(f.labelId), k);
    EveryThreadHasRow(after, f.account, None, k);
    assert k.account == f.account by { KeyAccount(f.account, f.path, uid); }
  }

  /** A vanished message is listed nowhere. */
  lemma VanishedIsUnlisted(db: Db, f: Folder, d: FolderDelta, uid: u32, labelId: Option<string>)
    requires Inv(db) && ValidDelta(f, d) && uid in d.vanishedUids
    ensures !ShownUnder(ApplyDelta(db, f, d), f.account, labelId, MessageKey(f.account, f.path, uid))
  {
    hide ShownUnder;
    var after, k := ApplyDelta(db, f, d), MessageKey(f.account, f.path, uid);
    DeltaKeepsInv(db, f, d);
    InvWellKeyed(db);
    DeltaInside(db, f, d, uid);
    CellRows(after, k);
    EveryThreadHasRow(after, f.account, labelId, k);
  }

  /** After a local move a message is listed under the target label, no longer under
      another source label, and under any third label as before. */
  lemma MoveIsListed(db: Db, account: string, op: MutationOp, id: string, labelId: string)
    requires Inv(db) && op.Move? && id in op.messageIds && Key(account, id) in db.messages
    ensures var after, k := WriteLocally(db, account, op), Key(account, id);
            && ShownUnder(after, account, Some(op.dstLabel), k)
            && (op.srcLabel != op.dstLabel ==> !ShownUnder(after, account, Some(op.srcLabel), k))
            && (labelId != op.srcLabel && labelId != op.dstLabel ==>
                  (ShownUnder(after, account, Some(labelId), k) <==> ShownUnder(db, account, Some(labelId), k)))
  {
    hide ShownUnder, Inv;
    var after, k := WriteLocally(db, account, op), Key(account, id);
    WriteKeepsInv(db, account, op);
    MoveAllAt(db, account, op.messageIds, op.srcLabel, op.dstLabel, k);
    CellRows(after, k);
    CellRows(db, k);
    EveryThreadHasRow(after, account, Some(op.dstLabel), k);
    EveryThreadHasRow(after, account, Some(op.srcLabel), k);
    EveryThreadHasRow(after, account, Some(labelId), k);
    EveryThreadHasRow(db, account, Some(labelId), k);
    assert k in db.threads by { InvGivesTables(db); }
  }

  /** A message deleted locally is listed nowhere; the others are listed as before. */
  lemma DeleteIsUnlisted(db: Db, account: string, op: MutationOp, labelId: Option<string>, k: Key)
    requires Inv(db) && op.Delete? && k.account == account
    ensures ShownUnder(WriteLocally(db, account, op), account, labelId, k) <==>
              ShownUnder(db, account, labelId, k) && k.id !in op.messageIds
  {
    hide ShownUnder, Inv;
    var after := WriteLocally(db, account, op);
    WriteKeepsInv(db, account, op);
    DeleteAt(db, account, op.messageIds, k);
    CellRows(after, k);
    CellRows(db, k);
    EveryThreadHasRow(after, account, labelId, k);
    EveryThreadHasRow(db, account, labelId, k);
  }

  /** The list of a deleted folder is empty; the other lists are as before. */
  lemma DeletedFolderIsEmpty(db: Db, account: string, labelId: string, other: Option<string>, k: Key)
    requires Inv(db)
    ensures !ShownUnder(Labels.WithoutLabels(db, {Key(account, labelId)}), account, Some(labelId), k)
    ensures other != Some(labelId) ==>
              (ShownUnder(Labels.WithoutLabels(db, {Key(account, labelId)}), account, other, k)
               <==> ShownUnder(db, account, other, k))
  {
    hide ShownUnder, Inv;
    var after := Labels.WithoutLabels(db, {Key(account, labelId)});
    Labels.WithoutLabelsKeepsInv(db, {Key(account, labelId)});
    EveryThreadHasRow(after, account, Some(labelId), k);
    EveryThreadHasRow(after, account, other, k);
    EveryThreadHasRow(db, account, other, k);
  }
}
