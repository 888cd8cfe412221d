/** The steps of a run are what the operations do: a client that performs each step with the
    operation behind it. */
module Client {
  import opened Prelude
  import opened Schema
  import opened Mutations
  import opened Runs
  import Delta
  import Messages
  import Queue
  import Bodies
  import Labels
  import SyncState
  import Threads

  method PerformVerdict(store: Store, v: Queue.Verdict)
    modifies store
    ensures store.Snapshot() == old(store.Snapshot()).(pending := Queue.Settle(old(store.pending), v))
  {
    match v
    case Completed(id) => Queue.MarkCompleted(store, id);
    case FailedAt(id, now, error) => Queue.MarkFailed(store, id, now, error);
  }

  /** Every step but an eviction, whose choice among bodies of one age is left to the database. */
  method Perform(store: Store, s: Step)
    requires Valid(store.Snapshot(), s) && !s.EvictOldest? && Queue.UniqueIds(store.pending)
    requires s.Mutate? ==> |s.stamps| == |Targets(s.op, s.sendKey)|
    modifies store
    ensures store.Snapshot() == Apply(old(store.Snapshot()), s)
  {
    hide Delta.ApplyDelta, Mutated, Queue.Compacted, Queue.Settle, Labels.Pruned, Messages.CryptoFlags, FreshIds;
    match s
    case SyncDelta(f, d) =>
      var _ := Messages.ApplyFolderDelta(store, f, d);
    case Mutate(account, op, sendKey, stamps) => ApplyMutation(store, account, op, sendKey, stamps);
    case MarkThreadRead(t) => Threads.MarkThreadRead(store, t);
    case StoreBody(k, html, now) =>
      var _ := Bodies.SetMessageBody(store, k, html, now);
    case EvictBody(k) => Bodies.EvictBody(store, k);
    case EvictOldest(_) =>
    case RaiseCrypto(k, c, p) => Messages.SetMessageCryptoFlags(store, k, c, p);
    case ListFolders(fs) => Labels.UpsertFolders(store, fs);
    case DeleteFolder(k) => Labels.DeleteFolder(store, k.account, k.id);
    case PruneFolders(account, source, keep) =>
      var _ := Labels.PruneStaleLabels(store, account, source, keep);
    case Compact(account) => Queue.CompactQueue(store, account);
    case Verdict(v) => PerformVerdict(store, v);
    case AdvanceCursor(k, c) => SyncState.AdvanceImapCursor(store, k, c);
  }

  /** An eviction is such a step for some choice of the oldest bodies. */
  method PerformEviction(store: Store, cap: int) returns (ghost victims: set<Key>)
    modifies store
    ensures Valid(old(store.Snapshot()), EvictOldest(victims))
    ensures store.Snapshot() == Apply(old(store.Snapshot()), EvictOldest(victims))
  {
    var _, chosen := Bodies.MaybeEvict(store, cap);
    victims := chosen;
  }
}
