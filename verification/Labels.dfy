/** Folders in the `labels` table: upsert of a listing and prune of what the
    server no longer lists. */
module Labels {
  import opened Prelude
  import opened Schema

  /** A listed folder; the remaining columns of a row are left to others. */
  datatype MailFolder = MailFolder(
    id: string, account: string, source: string, role: Option<string>, name: string,
    parentId: Option<string>, remoteId: string, delimiter: Option<string>, sortOrder: int,
    visible: bool, hierarchicalName: Option<string>, mailClass: string)

  function FolderKey(f: MailFolder): Key { Key(f.account, f.id) }

  /** INSERT ... ON CONFLICT DO UPDATE; the two counts survive a conflict. */
  function UpsertedLabel(row: Option<Label>, f: MailFolder): Label {
    Label(f.name, if f.role.Some? then "system" else "user", f.visible, f.sortOrder, f.source, f.role,
          f.parentId, Some(f.remoteId), f.delimiter, f.mailClass, f.hierarchicalName,
          if row.Some? then row.value.unreadCount else 0,
          if row.Some? then row.value.totalCount else 0)
  }

  function UpsertOne(labels: map<Key, Label>, f: MailFolder): map<Key, Label> {
    var k := FolderKey(f);
    labels[k := UpsertedLabel(if k in labels then Some(labels[k]) else None, f)]
  }

  function UpsertAll(labels: map<Key, Label>, fs: seq<MailFolder>): map<Key, Label> {
    if fs == [] then labels else UpsertOne(UpsertAll(labels, fs[..|fs| - 1]), fs[|fs| - 1])
  }

  method UpsertFolders(store: Store, fs: seq<MailFolder>)
    modifies store
    ensures store.Snapshot() == old(store.Snapshot()).(labels := UpsertAll(old(store.labels), fs))
    ensures store.commits == old(store.commits) + if fs == [] then [] else [store.Snapshot()]
  {
    if fs == [] { return; }
    ghost var labels := store.labels;
    for i := 0 to |fs|
      invariant store.Snapshot() == old(store.Snapshot()).(labels := UpsertAll(labels, fs[..i]))
      invariant store.commits == old(store.commits)
    {
      var f := fs[i];
      var k := FolderKey(f);
      assert fs[..i + 1][..i] == fs[..i];
      store.labels := store.labels[k := UpsertedLabel(if k in store.labels then Some(store.labels[k]) else None, f)];
    }
    assert fs[..|fs|] == fs;
    store.Commit();
  }

  // ---- Deletion ----

  function LinksOf(threadLabels: set<ThreadLabel>, doomed: set<Key>): set<ThreadLabel> {
    set tl | tl in threadLabels && Key(tl.thread.account, tl.labelId) in doomed
  }

  /** The labels `doomed` and every link of a thread to one of them are gone. */
  function WithoutLabels(db: Db, doomed: set<Key>): Db {
    db.(threadLabels := db.threadLabels - LinksOf(db.threadLabels, doomed), labels := db.labels - doomed)
  }

  method DeleteFolder(store: Store, account: string, labelId: string)
    modifies store
    ensures store.Snapshot() == WithoutLabels(old(store.Snapshot()), {Key(account, labelId)})
  {
    store.threadLabels := set tl | tl in store.threadLabels && !(tl.thread.account == account && tl.labelId == labelId);
    store.labels := store.labels - {Key(account, labelId)};
    store.Commit();
  }

  predicate Stale(row: Label, source: string, keep: set<string>) {
    row.source == source && row.remoteId.Some? && row.remoteId.value !in keep
  }

  /** What a prune with a non-empty keep set deletes. */
  function StaleLabels(db: Db, account: string, source: string, keep: set<string>): set<Key> {
    set k | k in db.labels && k.account == account && Stale(db.labels[k], source, keep)
  }

  function Pruned(db: Db, account: string, source: string, keep: set<string>): Db {
    if keep == {} then db else WithoutLabels(db, StaleLabels(db, account, source, keep))
  }

  lemma WithoutBoth(db: Db, a: set<Key>, b: set<Key>)
    ensures WithoutLabels(WithoutLabels(db, a), b) == WithoutLabels(db, a + b)
  {
    assert WithoutLabels(WithoutLabels(db, a), b).labels == WithoutLabels(db, a + b).labels;
  }

  lemma WithoutNone(db: Db)
    ensures WithoutLabels(db, {}) == db
  {
    assert db.labels - {} == db.labels && LinksOf(db.threadLabels, {}) == {};
  }

  method DeleteStale(store: Store, ghost db: Db, rows: map<Key, string>, keep: set<string>, ghost stale: set<Key>)
    returns (deleted: nat)
    requires store.Snapshot() == db
    requires forall k :: k in stale <==> k in rows && rows[k] !in keep
    modifies store
    ensures store.Snapshot() == WithoutLabels(db, stale)
    ensures deleted == |stale|
  {
    hide WithoutLabels;
    var todo := rows.Keys;
    ghost var doomed: set<Key> := {};
    deleted := 0;
    WithoutNone(db);
    while todo != {}
      invariant todo <= rows.Keys
      invariant forall k :: k in doomed <==> k in stale && k !in todo
      invariant store.Snapshot() == WithoutLabels(db, doomed)
      invariant deleted == |doomed|
      decreases |todo|
    {
      var k :| k in todo;
      todo := todo - {k};
      if rows[k] !in keep {
        DeleteFolder(store, k.account, k.id);
        WithoutBoth(db, doomed, {k});
        assert Key(k.account, k.id) == k;
        doomed := doomed + {k};
        deleted := deleted + 1;
      }
    }
    assert doomed == stale;
  }

  /** One pass over the rows listed up front, deleting as it goes. */
  method PruneStaleLabels(store: Store, account: string, source: string, keep: set<string>) returns (deleted: nat)
    modifies store
    ensures store.Snapshot() == Pruned(old(store.Snapshot()), account, source, keep)
    ensures deleted == |old(store.Snapshot()).labels| - |store.Snapshot().labels|
  {
    if keep == {} { return 0; }
    ghost var db := store.Snapshot();
    ghost var stale := StaleLabels(db, account, source, keep);
    var rows := map k | k in store.labels && k.account == account && store.labels[k].source == source
      && store.labels[k].remoteId.Some? :: store.labels[k].remoteId.value;
    assert forall k :: k in stale <==> k in rows && rows[k] !in keep;
    deleted := DeleteStale(store, db, rows, keep, stale);
    assert (db.labels - stale).Keys == db.labels.Keys - stale;
  }

  // ---- Exactness ----

  predicate HasSource(labels: map<Key, Label>, k: Key, account: string, source: string)
    requires k in labels
  {
    k.account == account && labels[k].source == source
  }

  /** The remote ids an account and source still have a label for. */
  ghost function RemoteIds(labels: map<Key, Label>, account: string, source: string): (r: set<string>)
    ensures forall s :: s in r <==>
              exists k :: k in labels && HasSource(labels, k, account, source) && labels[k].remoteId == Some(s)
  {
    var r := set k | k in labels && HasSource(labels, k, account, source) && labels[k].remoteId.Some? ::
      labels[k].remoteId.value;
    assert forall k :: k in labels && HasSource(labels, k, account, source) && labels[k].remoteId.Some? ==>
      labels[k].remoteId.value in r;
    r
  }

  /** Deterministic ids: the listing has one folder per id. */
  ghost predicate DistinctIds(fs: seq<MailFolder>) {
    forall i, j :: 0 <= i < j < |fs| ==> FolderKey(fs[i]) != FolderKey(fs[j])
  }

  /** The last listed folder with this key. */
  function ListedAt(fs: seq<MailFolder>, k: Key): Option<MailFolder> {
    if fs == [] then None
    else if FolderKey(fs[|fs| - 1]) == k then Some(fs[|fs| - 1])
    else ListedAt(fs[..|fs| - 1], k)
  }

  function RowOf(labels: map<Key, Label>, k: Key): Option<Label> {
    if k in labels then Some(labels[k]) else None
  }

  /** The label after an upsert: rewritten with its counts kept if listed, else as it was. */
  lemma {:induction false} UpsertAt(labels: map<Key, Label>, fs: seq<MailFolder>, k: Key)
    ensures RowOf(UpsertAll(labels, fs), k)
         == match ListedAt(fs, k)
            case None => RowOf(labels, k)
            case Some(f) => Some(UpsertedLabel(RowOf(labels, k), f))
  {
    if fs != [] {
      UpsertAt(labels, fs[..|fs| - 1], k);
    }
  }

  lemma {:induction false} ListedOnce(fs: seq<MailFolder>, i: nat)
    requires DistinctIds(fs) && i < |fs|
    ensures ListedAt(fs, FolderKey(fs[i])) == Some(fs[i])
  {
    if i < |fs| - 1 {
      assert fs[..|fs| - 1][i] == fs[i];
      ListedOnce(fs[..|fs| - 1], i);
    }
  }

  /** A listed folder's row, column by column: as its last listing has it, with the counts
      the row had. */
  lemma UpsertColumns(labels: map<Key, Label>, fs: seq<MailFolder>, k: Key)
    requires ListedAt(fs, k).Some?
    ensures var f := ListedAt(fs, k).value;
            k in UpsertAll(labels, fs) &&
            var row := UpsertAll(labels, fs)[k];
            && row.name == f.name && row.visible == f.visible && row.sortOrder == f.sortOrder
            && row.source == f.source && row.role == f.role && row.parentId == f.parentId
            && row.remoteId == Some(f.remoteId) && row.delimiter == f.delimiter
            && row.mailClass == f.mailClass && row.hierarchicalName == f.hierarchicalName
            && row.kind == (if f.role == None then "user" else "system")
            && row.unreadCount == (if k in labels then labels[k].unreadCount else 0)
            && row.totalCount == (if k in labels then labels[k].totalCount else 0)
  {
    UpsertAt(labels, fs, k);
  }

  /** A prune with a non-empty keep set deletes exactly the labels of that account and
      source with another remote id, and exactly the links to them. */
  lemma PruneExact(db: Db, account: string, source: string, keep: set<string>)
    requires keep != {}
    ensures var after := Pruned(db, account, source, keep);
            && (forall s :: s in RemoteIds(after.labels, account, source) <==>
                  s in RemoteIds(db.labels, account, source) && s in keep)
            && (forall k :: RowOf(after.labels, k)
                  == if && k in db.labels && HasSource(db.labels, k, account, source)
                        && db.labels[k].remoteId.Some? && db.labels[k].remoteId.value !in keep then None
                     else RowOf(db.labels, k))
            && (forall tl :: tl in db.threadLabels ==>
                  var l := Key(tl.thread.account, tl.labelId);
                  (tl in after.threadLabels <==> l in after.labels || l !in db.labels))
            && after.threadLabels <= db.threadLabels
  {
    var after := Pruned(db, account, source, keep);
    forall s
      ensures s in RemoteIds(after.labels, account, source) <==> s in RemoteIds(db.labels, account, source) && s in keep
    {
      if s in RemoteIds(db.labels, account, source) && s in keep {
        var k :| k in db.labels && HasSource(db.labels, k, account, source) && db.labels[k].remoteId == Some(s);
        assert k in after.labels;
      }
    }
  }

  /** Listing, then pruning with the listing's remote ids. */
  function Refreshed(db: Db, fs: seq<MailFolder>, account: string, source: string, keep: set<string>): Db {
    Pruned(db.(labels := UpsertAll(db.labels, fs)), account, source, keep)
  }

  lemma ListingHasKept(labels: map<Key, Label>, fs: seq<MailFolder>, account: string, source: string, s: string)
    requires DistinctIds(fs) && forall f :: f in fs ==> f.account == account && f.source == source
    requires exists f :: f in fs && f.remoteId == s
    ensures s in RemoteIds(UpsertAll(labels, fs), account, source)
  {
    var f :| f in fs && f.remoteId == s;
    var i :| 0 <= i < |fs| && fs[i] == f;
    ListedOnce(fs, i);
    UpsertColumns(labels, fs, FolderKey(f));
  }

  lemma SurvivorsKeep(db: Db, fs: seq<MailFolder>, account: string, source: string, keep: set<string>, k: Key)
    requires keep != {} && k in db.labels
    ensures var after := Refreshed(db, fs, account, source, keep).labels;
            && (k in after ==> after[k].unreadCount == db.labels[k].unreadCount)
            && (k in after ==> after[k].totalCount == db.labels[k].totalCount)
            && (ListedAt(fs, k).None? && !HasSource(db.labels, k, account, source) ==>
                  RowOf(after, k) == RowOf(db.labels, k))
  {
    hide WithoutLabels, StaleLabels, Pruned;
    var listed := db.(labels := UpsertAll(db.labels, fs));
    PruneExact(listed, account, source, keep);
    UpsertAt(db.labels, fs, k);
  }

  /** A refresh leaves exactly the kept remote ids, the counts of the survivors, and
      every label of another account or source that was not listed. */
  lemma RefreshExact(db: Db, fs: seq<MailFolder>, account: string, source: string, keep: set<string>)
    requires keep != {} && DistinctIds(fs)
    requires forall f :: f in fs ==> f.account == account && f.source == source
    requires forall s :: s in keep <==> exists f :: f in fs && f.remoteId == s
    ensures RemoteIds(Refreshed(db, fs, account, source, keep).labels, account, source) == keep
    ensures forall k :: k in db.labels && k in Refreshed(db, fs, account, source, keep).labels ==>
              var row := Refreshed(db, fs, account, source, keep).labels[k];
              row.unreadCount == db.labels[k].unreadCount && row.totalCount == db.labels[k].totalCount
    ensures forall k :: k in db.labels && ListedAt(fs, k).None? && !HasSource(db.labels, k, account, source) ==>
              RowOf(Refreshed(db, fs, account, source, keep).labels, k) == RowOf(db.labels, k)
  {
    hide RemoteIds, UpsertAll, ListedAt, RowOf, WithoutLabels, StaleLabels, Pruned;
    PruneExact(db.(labels := UpsertAll(db.labels, fs)), account, source, keep);
    forall s | s in keep ensures s in RemoteIds(UpsertAll(db.labels, fs), account, source) {
      ListingHasKept(db.labels, fs, account, source, s);
    }
    forall k | k in db.labels
      ensures var after := Refreshed(db, fs, account, source, keep).labels;
              && (k in after ==> after[k].unreadCount == db.labels[k].unreadCount)
              && (k in after ==> after[k].totalCount == db.labels[k].totalCount)
      ensures ListedAt(fs, k).None? && !HasSource(db.labels, k, account, source) ==>
                RowOf(Refreshed(db, fs, account, source, keep).labels, k) == RowOf(db.labels, k)
    {
      SurvivorsKeep(db, fs, account, source, keep, k);
    }
  }

  /** A listing that came back empty prunes nothing. */
  lemma EmptyListingKeepsAll(db: Db, account: string, source: string)
    ensures Refreshed(db, [], account, source, {}) == db
  {}

  lemma WithoutLabelsKeepsInv(db: Db, doomed: set<Key>)
    requires Inv(db)
    ensures Inv(WithoutLabels(db, doomed))
  {
    var after := WithoutLabels(db, doomed);
    forall k ensures WellKeyedCell(k, CellAt(after, k)) && CoherentCell(CellAt(after, k)) {
      assert WellKeyedCell(k, CellAt(db, k)) && CoherentCell(CellAt(db, k));
      assert LabelsOf(after, k) <= LabelsOf(db, k);
    }
  }
}
