# Verification of the offline-first mail replica

The desktop mail client keeps a local SQLite replica of every account and works on it while
offline. This project models the Rust back end's replication logic in Dafny and proves what it
promises:

- **Folder deltas.** Server changes arrive as deltas (added, updated, flags, vanished UIDs, a
  UIDVALIDITY reset) and are applied in many short transactions. `Delta` gives each SQL statement a
  meaning over whole tables, `DeltaTheorems` gives a whole delta a meaning message by message, and
  `Messages` proves the chunked loops of `apply_folder_delta` against it. A *cell* is all the store
  says about one message: its row, its thread, its labels and its body.
- **Optimistic edits and the queue.** A local edit is written at once, and one row per message in
  `pending_operations` both replays it later and locks the message against deltas. `Queue` has the
  queue with its compaction and retry machine, `Mutations` the edits and their encoding, `Replay`
  what the queue does to the server's flags, `Runs` whole runs of the replica, `Interleaving` runs in
  which other steps fall between the statements of a delta, `Intent` when a message shows the newest
  pending intention, `Listing` what the thread list shows after deliveries, edits and
  folder deletions; `Client` ties the steps of a run to the operations.
- **Caches, cursors and lists that must agree with something simpler.** `Bodies` (body cache and its
  flag), `SyncState` (folder cursors), `Labels` (folder listing and prune), `Threads` (keyset pages),
  `AttachmentCache` (files on disk), `OAuth` (redirect decoding).

`Schema` holds the tables, as the value `Db` and as the mutable class `Store`, and the store
invariant; `Prelude`, `Text` and `Json` hold small shared definitions. Methods on `Store` follow the
source's statements and loops and are proved against specification functions on `Db`; the theorems
are about those functions. `Store.commits` is a ghost record of the states a crash could expose.

Assumptions, each visible as a `requires` clause or in a type:

- account ids are 36 characters long (kylins.client.backend/src/db/accounts.rs:473); without that
  message ids are ambiguous (`MessageIdAmbiguous`);
- every message of a delta lies in the folder the delta is for;
- row ids of the queue are unique, as its primary key demands; no order of ids is assumed unless a
  special case says so;
- each SQL transaction is atomic, and each method runs without interference.

## Where the code and its documentation differ

The model follows the code. Differences found, each with a lemma:

- Compaction is documented as cancelling toggle pairs that undo each other
  (kylins.client.backend/src/db/queue.rs:142-145). It pairs rows without comparing their flags
  (`DifferentFlagsCancel`), relies on an order of ids that version 4 UUIDs do not have
  (`UnorderedIdsLoseIntent`), and loses a clear when the flag was already set
  (`CompactionPreservesMeaning`). `CompactionMeaning` says exactly when it is right.
- Replay is documented as oldest first. Rows of one second may come in any order
  (`DequeueDetermined`), and a refused row is overtaken by later ones (`OvertakingLosesIntent`);
  `RoundFlagExact` and `StepShowsIntent` say exactly when that matters.
- The write-lock is documented as keeping a delta from reverting a pending edit
  (kylins.client.backend/src/db/messages.rs:459-464). A UIDVALIDITY reset or a vanished UID removes
  the message all the same (`WriteLockFrame`), and between the local write and its queue row there is
  no lock yet (`WriteThenDelta`).
- A batch queues one row per message, and each row replays the batch's first UID
  (`BatchReachesFirstUid`).
- Flags other than \Flagged are documented as having no local column
  (kylins.client.backend/src/db/mutations.rs:52-54); setting or clearing one clears the local star
  (`StarMatchesServer`).
- Reconciliation takes directory names for raw message ids
  (kylins.client.backend/src/attachment_cache.rs:217-220); names are sanitized on writing, so messages
  of nested folders lose their cache (`NestedFolderLosesCache`). The sanitizer's comment also promises
  to replace boundary dots; the code does not (`DotsStay`). Its shards are documented as some 256
  buckets (kylins.client.backend/src/attachment_cache.rs:56-58); all messages share one
  (`OneShardForAll`).
- A queue row whose `read` is a JSON boolean counts as a toggle in compaction and replays as unread
  (`BooleanRead`).
- Modification sequences of 2^63 and more compare as negative (`CursorIsSuffixMaximum`), and percent
  decoding can panic on non-ASCII input (`PanicsExactly`).

## Model

| member | source | states |
|---|---|---|
| `DeltaTheorems.CrashRetry` | kylins.client.backend/src/db/messages.rs:37-152 | Stopping a delta after any number of statements, hence after any commit or crash, and running the whole delta again gives exactly the store of one uninterrupted run: UIDVALIDITY wipe, duplicate UIDs, UIDs both added and vanished, insert-only columns and body flags included |
| `DeltaTheorems.RepeatedCrashes` | kylins.client.backend/src/db/messages.rs:37-43 | The same for any series of attempts that each died at their own point: the first complete attempt converges |
| `Messages.RetryAfterCommit` | kylins.client.backend/src/db/messages.rs:37-43 | Every state `ApplyFolderDelta` made visible by a commit is one from which the retry converges |
| `DeltaTheorems.ProgramOutcome` | kylins.client.backend/src/db/messages.rs:54-151 | The statements of a delta have, on every message of the folder, the closed-form effect `Outcome`: vanished wins, then first delivery fixes insert-only columns and last delivery the rest, then the last flag change; a pending operation suppresses deliveries and flags but neither wipe nor vanish |
| `DeltaTheorems.DeltaInside` | kylins.client.backend/src/db/messages.rs:44-152 | On a well-keyed store the cell (message, thread, labels, body) of each message of the folder after a delta is `Outcome` of the cell before |
| `DeltaTheorems.WrittenEnvelope` | kylins.client.backend/src/db/messages.rs:544-594 | For an unlocked, non-vanished delivered UID every overwritten column of the message row after the delta is that field of the last delivery, with the synthetic header where there is none |
| `DeltaTheorems.WrittenThread` | kylins.client.backend/src/db/messages.rs:514-542 | The thread row mirrors the last delivery: subject, snippet, date, sender, attachments, a count of one |
| `DeltaTheorems.WrittenFlags` | kylins.client.backend/src/db/messages.rs:160-201 | Read and star are the last flag change's, else the last delivery's, on message and thread; encrypted and signed follow the last delivery's kind |
| `DeltaTheorems.WrittenOnce` | kylins.client.backend/src/db/messages.rs:544-594 | Insert-only columns, body flag, snooze and classification: the first delivery's or the defaults if there was no row or it was wiped, else what the row held |
| `DeltaTheorems.WrittenRows` | kylins.client.backend/src/db/messages.rs:596-607 | The rows sit under the folder and UID, the thread is the message's own, and it carries the folder's label |
| `DeltaTheorems.FlagsOnly` | kylins.client.backend/src/db/messages.rs:154-203 | A flag change without a delivery changes read and star on message and thread and nothing else |
| `DeltaTheorems.LastFlagsMeaning` | kylins.client.backend/src/db/messages.rs:164 | The last flag change is the last entry for the UID |
| `DeltaTheorems.OtherFoldersUntouched` | kylins.client.backend/src/db/messages.rs:59-71 | No row of another folder or account changes, although orphan sweeps range over the account and some deletes go by id alone |
| `DeltaTheorems.WriteLockFrame` | kylins.client.backend/src/db/messages.rs:459-476 | A message with a pending operation keeps message, thread, labels and body, and is not created if absent, if and only if the delta neither wipes the folder nor names its UID as vanished (or there is no row to lose) |
| `DeltaTheorems.NoResurrection` | kylins.client.backend/src/db/messages.rs:459-476 | No delta, wiping or not, brings back a message that is gone locally while an operation on it is pending |
| `DeltaTheorems.LocalUidsAfter` | kylins.client.backend/src/db/messages.rs:388-409 | Exactly which UIDs a folder holds after any delta |
| `DeltaTheorems.FolderConverges` | kylins.client.backend/src/sync_engine/imap_source.rs:713-724 | A delta that adds server minus local and vanishes local minus server leaves the server's UIDs less those that were absent locally with an operation pending; with an empty queue local equals server |
| `DeltaTheorems.DeltaKeepsInv` | kylins.client.backend/src/db/messages.rs:44-152 | A complete delta re-establishes the store invariant |
| `Delta.ExecAt` | kylins.client.backend/src/db/messages.rs:59-138 | Each SQL statement, written over whole tables, acts on each message independently as `Act` says; deletes by id alone and sweeps over the account touch no other row |
| `Delta.RunAt` | kylins.client.backend/src/db/messages.rs:44-152 | So does every sequence of statements, and every intermediate store is well keyed |
| `Delta.AtUidIsKey` | kylins.client.backend/src/db/messages.rs:180-198 | The rows found by account, folder and UID are the row with the composed id, so the flag change and its mirror by thread id hit the same message |
| `Delta.VanishAt` | kylins.client.backend/src/db/messages.rs:109-122 | Deleting by message id alone deletes one account's row and its body |
| `Delta.SweepAt` | kylins.client.backend/src/db/messages.rs:127-139 | The orphan sweep empties exactly the cells whose message is gone |
| `Delta.ResyncColumns` | kylins.client.backend/src/db/messages.rs:513-594 | A re-sync writes what an insert would, except that insert-only columns, the body flag, the snooze flag and the classification survive |
| `Messages.ApplyFolderDelta` | kylins.client.backend/src/db/messages.rs:44-152 | For every batch size of at least 1 the chunked loops compute the one-message-at-a-time program; every commit on the way is a state of that program; `deleted` is the drop in message count during the vanish phase even with repeated UIDs |
| `Messages.WipeFolderRows` | kylins.client.backend/src/db/messages.rs:54-75 | The wipe is one transaction: the folder's messages and then the orphaned threads |
| `Messages.UpsertAll` | kylins.client.backend/src/db/messages.rs:82-99 | The chunk loop performs each delivery of added then updated once, in order |
| `Messages.UpsertChunk` | kylins.client.backend/src/db/messages.rs:85-98 | One chunk is one commit |
| `Messages.DeleteVanishedUids` | kylins.client.backend/src/db/messages.rs:103-125 | The vanish loop deletes each listed UID and counts the rows really removed |
| `Messages.UpsertRow` | kylins.client.backend/src/db/messages.rs:449-607 | The upsert of thread, message and label behind the write-lock |
| `Messages.IsLocked` | kylins.client.backend/src/db/messages.rs:465-476 | The COUNT(*) test is true exactly when some pending row targets the account and message |
| `Messages.ApplyFlagUpdates` | kylins.client.backend/src/db/messages.rs:157-205 | The autocommitted flag loop equals the flag part of the program; the count is the number of updates that found an unlocked row at the start of the loop |
| `Messages.ApplyFlagUpdate` | kylins.client.backend/src/db/messages.rs:164-203 | Message first, thread mirror only if a row was hit, each its own commit |
| `Messages.FlagRows` | kylins.client.backend/src/db/messages.rs:180-192 | The message statement, with whether it hit a row |
| `Messages.MirrorFlags` | kylins.client.backend/src/db/messages.rs:195-201 | The thread statement, by id alone |
| `Messages.ListLocalUids` | kylins.client.backend/src/db/messages.rs:392-409 | Returns the folder's UIDs, one entry a row |
| `Messages.SetMessageCryptoFlags` | kylins.client.backend/src/db/messages.rs:295-366 | The conditional updates raise the message and the thread it belongs to |
| `Messages.CryptoFlagsAt` | kylins.client.backend/src/db/messages.rs:302-363 | Row by row: exactly one message and its thread are raised, never lowered, and nothing else changes |
| `Messages.CryptoColumns` | kylins.client.backend/src/db/messages.rs:302-363 | A ciphertext alone raises encrypted, a signed part raises signed, on the message and on its thread, and both keep what they had |
| `Messages.CryptoFlagsCommute` | kylins.client.backend/src/db/messages.rs:308-309 | Reports of body fetches may arrive in any order |
| `Messages.CryptoFlagsOnce` | kylins.client.backend/src/db/messages.rs:308-309 | A repeated report changes nothing |
| `Messages.GetUncachedBodyMessageIds` | kylins.client.backend/src/db/messages.rs:420-446 | For every chunk size the ids returned are, as a set, the requested existing messages without the flag |
| `Text.MessageIdInjective` | kylins.client.backend/src/db/messages.rs:455-457 | The key determines account, folder and UID for account ids of equal length and any folder text, dashes and digits included |
| `Text.MessageIdAmbiguous` | kylins.client.backend/src/db/messages.rs:455-457 | Without equal length it does not: a concrete collision |
| `Text.DecimalReads` | kylins.client.backend/src/db/messages.rs:455-457 | The UID in a key reads back as the UID, without leading zeros |
| `Text.LessMeaning` | kylins.client.backend/src/db/threads.rs:260 | The order of ids: the first differing character decides, a proper prefix comes first |
| `Schema.InvMeaning` | kylins.client.backend/src/db/messages.rs:449-607 | The per-message invariant used in the proofs is equivalent to the statement over the tables: equal key sets, ids that spell account, folder and UID, agreeing read, crypto and date columns, `body_cached` exactly where a body row is, labels of live threads only |
| `Queue.CompactQueue` | kylins.client.backend/src/db/queue.rs:164-194 | The snapshot and the two DELETEs remove exactly the rows that some join partner cancels |
| `Queue.SurvivesExactly` | kylins.client.backend/src/db/queue.rs:171-180 | Whatever the order of the ids, a toggle that sets 1 survives if and only if no pending 0 of its group has a greater id, and one that sets 0 if and only if no pending 1 has a smaller id |
| `Queue.GroupAfterCompaction` | kylins.client.backend/src/db/queue.rs:164-194 | A whole group after compaction is its survivors by that rule, in order |
| `Queue.Survivors` | kylins.client.backend/src/db/queue.rs:164-194 | The special case of increasing ids: a group keeps exactly its leading 0s followed by its trailing 1s |
| `Queue.DeletedArePaired` | kylins.client.backend/src/db/queue.rs:183-192 | Deleting one side after the other by collected ids equals removing the cancelled rows at once |
| `Queue.CompactionIdempotent` | kylins.client.backend/src/db/queue.rs:142-149 | A second compaction removes nothing |
| `Queue.CompactionSpares` | kylins.client.backend/src/db/queue.rs:156-158 | Other accounts, failed rows, other types and rows without `read` are never removed |
| `Queue.DeleteIds` | kylins.client.backend/src/db/queue.rs:199-214 | Removes the rows with these ids and keeps the order of the others |
| `Queue.Enqueue` | kylins.client.backend/src/db/queue.rs:47-69 | Appends one fresh pending row and keeps ids unique |
| `Queue.DequeueDetermined` | kylins.client.backend/src/db/queue.rs:100-101 | For every limit: the query has one answer if and only if any two due rows of one second have at least `limit` older due rows before them |
| `Queue.MayComeFirst` | kylins.client.backend/src/db/queue.rs:100-101 | Any due row may be returned first among those of its second |
| `Queue.MayComeLast` | kylins.client.backend/src/db/queue.rs:100-101 | Any due row may be returned last among those of its second |
| `Queue.DequeueInQueueOrder` | kylins.client.backend/src/db/queue.rs:100-101 | While the clock does not run backwards and the answer is determined, replay takes due rows in queue order |
| `Queue.DueRowsOldestFirst` | kylins.client.backend/src/db/queue.rs:100-101 | With ties among the due rows, queue order is a correct answer |
| `Queue.DequeuePendingForAccount` | kylins.client.backend/src/db/queue.rs:91-108 | Due rows of the account only, each once, oldest first, up to the limit, with no older due row left behind |
| `Queue.MarkCompleted` | kylins.client.backend/src/db/queue.rs:217-224 | Removes the row and nothing else |
| `Queue.MarkFailed` | kylins.client.backend/src/db/queue.rs:226-252 | Every right-hand side reads the row before the update |
| `Queue.FailsOnLastAttempt` | kylins.client.backend/src/db/queue.rs:226-252 | An operation with limit M turns failed on exactly its M-th failure |
| `Queue.BackoffBound` | kylins.client.backend/src/db/queue.rs:226-252 | Whatever the limit, on any clock `unixepoch()` can show the n-th attempt comes at least 60*(2^(n-1)-1) seconds after the first, and there are at most 57 failures, so the shift never wraps |
| `Queue.DueExactly` | kylins.client.backend/src/db/queue.rs:237-252 | For n up to 57: after its n-th failure a row with attempts left is due exactly from 60*2^(n-1) seconds after that failure on |
| `Queue.ShiftIs64Bit` | kylins.client.backend/src/db/queue.rs:241 | The shift is the power of two in signed 64-bit arithmetic |
| `Queue.BoundIsReached` | kylins.client.backend/src/db/queue.rs:237-252 | A client that retries as soon as a row is due reaches the bound on the n-th attempt exactly |
| `Queue.FailureKeepsRow` | kylins.client.backend/src/db/queue.rs:237-252 | A failure records its error and leaves id, account, type, resource, params, limit and creation time |
| `Queue.SettleDecreases` | kylins.client.backend/src/db/queue.rs:217-252 | Every completion or failure of a pending operation uses up one of the attempts left |
| `Queue.DrainBound` | kylins.client.backend/src/db/queue.rs:217-252 | No run of completions and failures is longer than the attempts the queue had left |
| `Queue.SettleKeeps` | kylins.client.backend/src/db/queue.rs:217-252 | Completion and failure keep ids unique and pending rows below their limit |
| `Mutations.ReplayRoundTrip` | kylins.client.backend/src/db/mutations.rs:110-183 | Encoding an operation, storing it and decoding the row leads to the identical call on the mail source if and only if the operation names exactly one UID |
| `Mutations.RecoveredOp` | kylins.client.backend/src/db/mutations.rs:203-254 | What the row gives back for each kind of operation: everything but thread id, source label and the UIDs after the first |
| `Mutations.BatchReachesFirstUid` | kylins.client.backend/src/db/mutations.rs:112-117 | Every row of a batch replays the batch's first UID and no other |
| `Mutations.EncodedBit` | kylins.client.backend/src/db/mutations.rs:203-254 | Toggle rows carry `read` as 0 or 1 |
| `Mutations.LegacyDefaults` | kylins.client.backend/src/db/mutations.rs:110-183 | What rows with empty params decode to, and which rows do not decode |
| `Mutations.WrongTypes` | kylins.client.backend/src/db/mutations.rs:110-165 | Params of another type count as missing |
| `Mutations.BooleanRead` | kylins.client.backend/src/db/queue.rs:174-175 | A row whose `read` is a JSON boolean is compacted as a 1 or 0 and always replayed as unread |
| `Mutations.LocalWrites` | kylins.client.backend/src/db/mutations.rs:281-413 | The optimistic write of each kind of operation in one commit, and the affected ids |
| `Mutations.WriteRows` | kylins.client.backend/src/db/mutations.rs:286-409 | The statements of that transaction, message by message |
| `Mutations.DeleteRows` | kylins.client.backend/src/db/mutations.rs:383-407 | Deleting message by message and sweeping orphans removes the set of messages and their threads |
| `Mutations.ApplyMutation` | kylins.client.backend/src/sync_engine/commands.rs:1006-1065 | Local write, then one queue row per affected message with the same parameters, or under one generated key if there is none; the commits are the write with 0, 1, 2, ... of its rows |
| `Runs.MutationRows` | kylins.client.backend/src/sync_engine/commands.rs:1046-1061 | A complete mutation appends one fresh row for each of its messages, in order: its type, its params, pending, no attempt used of 10, due at once, created at its insert |
| `Runs.SendRow` | kylins.client.backend/src/sync_engine/commands.rs:1046-1061 | A draft, or an operation on no message, queues one such row under the generated key |
| `Runs.MutationLocksAll` | kylins.client.backend/src/sync_engine/commands.rs:1046-1061 | A complete mutation locks every message it names |
| `Runs.DeletedStaysAway` | kylins.client.backend/src/db/mutations.rs:383-409 | After a complete local delete no delta of any folder brings any of its messages back |
| `Runs.LockEnds` | kylins.client.backend/src/db/queue.rs:126-140 | After a verdict a message is locked if and only if another pending row is on it or the verdict was a refusal with attempts left |
| `Mutations.EnqueueRows` | kylins.client.backend/src/sync_engine/commands.rs:1049-1061 | The rows are appended in order, each its own commit; ids need only be new |
| `Replay.DifferentFlagsCancel` | kylins.client.backend/src/db/queue.rs:171-180 | The join does not compare flags: setting one flag and clearing another are dropped as a pair and the first is never set |
| `Replay.CompactionMeaning` | kylins.client.backend/src/db/queue.rs:142-194 | For any queue at all and any flag of any message: replaying the compacted queue gives the same server flag if and only if no row names the flag, or the last row naming it agrees with the last spared one, or with the flag itself when none is spared |
| `Replay.CompactionPreservesMeaning` | kylins.client.backend/src/db/queue.rs:142-194 | The special case of one group with increasing ids: meaning is kept if and only if not (the group begins by switching on, ends by switching off, and the flag was already set) |
| `Replay.UnorderedIdsLoseIntent` | kylins.client.backend/src/db/queue.rs:147-149 | An instance with ids that do not increase, as random UUIDs allow: the last intention is dropped |
| `Replay.ReplayRound` | kylins.client.backend/src/sync_engine/engine.rs:774-883 | Compact, dequeue at most 50, decode, call, settle: the server's flags and the queue afterwards; rows that do not decode stay |
| `Replay.MarkReadOnServer` | kylins.client.backend/src/db/mutations.rs:434-442 | An accepted markRead row sets or clears \Seen on its message, and changes no other flag and no folder, whatever was called before |
| `Replay.SetFlagOnServer` | kylins.client.backend/src/db/mutations.rs:443-452 | An accepted setFlag row sets or clears its own flag on its message and nothing else |
| `Replay.MoveOnServer` | kylins.client.backend/src/db/mutations.rs:453-465 | An accepted move row takes its message from the source folder to the destination and touches no other message and no flag |
| `Replay.DeleteOnServer` | kylins.client.backend/src/db/mutations.rs:466-468 | An accepted delete row removes its message and no other |
| `Replay.RefusedRow` | kylins.client.backend/src/sync_engine/engine.rs:856-872 | A refused row changes nothing on the server |
| `Replay.RoundReplaysQueue` | kylins.client.backend/src/sync_engine/engine.rs:774-883 | From the queue a round starts with: server and remaining queue together still mean what they meant if and only if compaction kept that meaning; the round may reach part of the queue only, may be refused elsewhere, and rows that agree may share a second |
| `Replay.RoundConserves` | kylins.client.backend/src/sync_engine/engine.rs:774-883 | The part after compaction: a round conserves the meaning of server and queue for a flag, whatever it reaches, when no row naming the flag is refused and every row that disagrees with the last one is of an earlier second and not held back by backoff alone |
| `Replay.RoundFlagExact` | kylins.client.backend/src/sync_engine/engine.rs:779 | In a round that reaches all rows naming a flag without refusal, the flag is sure to come out in queue order if and only if every disagreeing row is older by a second than some row that agrees with the last |
| `Replay.RoundLeaves` | kylins.client.backend/src/sync_engine/engine.rs:804-883 | Without refusals a round leaves exactly the rows it did not reach or could not read, and it reaches all due ones if they are at most 50 |
| `Replay.DrainedFlag` | kylins.client.backend/src/sync_engine/engine.rs:774-883 | Over any number of rounds with new rows queued in between: once no row naming a flag is left, the server's flag is what the newest intention ever queued says, provided rows naming it were accepted and in time and compaction kept its meaning |
| `Replay.RunConserves` | kylins.client.backend/src/sync_engine/engine.rs:774-883 | All along, server and queue together mean what the first queue followed by all rows queued since means |
| `Replay.NamersSettled` | kylins.client.backend/src/sync_engine/engine.rs:848-872 | A round takes the accepted rows naming a flag out of the queue and keeps the order of the others |
| `Replay.EncodedSets` | kylins.client.backend/src/db/mutations.rs:203-254 | A row written by `encode_params` has `read` 0 or 1 and its server call sets the flag exactly when it is 1 |
| `Runs.RunKeepsInv` | kylins.client.backend/src/db/messages.rs:44-205 | The store and queue invariants hold after every run of deltas, mutations (complete or cut off before their last row), replay verdicts, compactions, body stores and evictions, crypto reports, folder listings, deletions, prunes and cursor advances; new ids need only be new |
| `Runs.ReachableStores` | kylins.client.backend/src/db/messages.rs:449-607 | Every store a new installation can reach has agreeing tables |
| `Client.Perform` | kylins.client.backend/src/sync_engine/engine.rs:774-883 | Every step of a run is what the operation behind it does to the store: the link between the run theorems and the methods |
| `Client.PerformEviction` | kylins.client.backend/src/db/message_bodies.rs:124-166 | An eviction is an eviction step of a run, for some choice among bodies of one age |
| `Runs.StepKeepsInv` | kylins.client.backend/src/db/mutations.rs:281-413 | Each single step keeps the store invariant, and steps other than deltas and read marks neither add a message nor change a read state |
| `Intent.NewestIntentionWins` | kylins.client.backend/src/db/mutations.rs:256-312 | In a run of any steps each message still present with pending markRead rows shows the newest one's value all along, if and only if every step is harmless |
| `Intent.StepShowsIntent` | kylins.client.backend/src/db/mutations.rs:256-312 | The exact condition step by step: deltas, wipes, body, crypto and folder steps never harm; a verdict harms exactly when it takes the newest row of a present message out of pending while the next newest disagrees; a compaction exactly when the newest survivor disagrees; a read mark exactly when it contradicts a row that stays newest |
| `Intent.NewestCompacted` | kylins.client.backend/src/db/queue.rs:164-194 | The newest markRead after compaction is the last survivor of its group, whatever the ids |
| `Intent.NewestSettled` | kylins.client.backend/src/sync_engine/engine.rs:848-872 | The newest markRead after a verdict: the next newest if the verdict took it out, else one that says the same |
| `Intent.MarkShows` | kylins.client.backend/src/sync_engine/commands.rs:1006-1065 | When a markRead, complete or cut off before its last row, keeps every intention shown |
| `Intent.DeliberateIsHarmless` | kylins.client.backend/src/sync_engine/engine.rs:824-872 | One queued row per marked thread, in-order replay of a message's markReads and increasing ids among them are enough |
| `Intent.DeliberateRunsShowIntent` | kylins.client.backend/src/sync_engine/engine.rs:774-883 | So the newest intention wins in every run of such a client |
| `Intent.OvertakingLosesIntent` | kylins.client.backend/src/sync_engine/engine.rs:774-883 | A round in which the server refuses the older of two markReads and accepts the newer: compaction leaves the pair alone, the dequeue returns both, and afterwards the message shows the opposite of what the row left in the queue says |
| `Runs.LockedKept` | kylins.client.backend/src/db/messages.rs:459-476 | A message under the write-lock is deleted by a delta or left exactly as it is |
| `Runs.StaysDeleted` | kylins.client.backend/src/db/messages.rs:459-464 | A message deleted locally stays away for as long as an operation on it is queued, whatever steps happen |
| `Runs.MutateLocks` | kylins.client.backend/src/sync_engine/commands.rs:1046-1061 | A mutation, wherever it stopped, locks exactly the messages whose row is queued |
| `Runs.WriteThenDelta` | kylins.client.backend/src/sync_engine/commands.rs:1023-1061 | What the next delta makes of a local write when the client stopped anywhere between the write and its last row: messages whose row is not queued have no lock |
| `Runs.OptimisticWriteSurvives` | kylins.client.backend/src/sync_engine/commands.rs:1006-1065 | Once its row is queued, a local write is still there after the folder's next delta if and only if the delta neither wipes nor vanishes the message (or the write removed it) |
| `Runs.UnqueuedWriteSurvives` | kylins.client.backend/src/sync_engine/commands.rs:1023-1061 | Before its row is queued, presence, read, star and labels of a local write outlive the folder's next delta if and only if the delta says of the message what was written, or nothing (an exact condition on vanished UIDs, wipe, deliveries and the last flag change) |
| `Interleaving.EventsKeepWellKeyed` | kylins.client.backend/src/db/messages.rs:44-152 | Whatever is interleaved with single statements of any deltas (local edits, replay, body, crypto and folder steps), every row stays under its key and with its parents |
| `Interleaving.StaysGone` | kylins.client.backend/src/db/messages.rs:459-476 | A message deleted locally stays away while an operation on it is queued, even when the delete falls between two statements of a delta that delivers it |
| `Interleaving.LockedStatement` | kylins.client.backend/src/db/messages.rs:459-476 | A single statement changes a locked message if and only if it wipes its folder or names its UID as vanished |
| `Interleaving.RetryAfterEvents` | kylins.client.backend/src/db/messages.rs:37-43 | After any such interleaving a delta that is cut off converges when applied again |
| `Runs.StarMatchesServer` | kylins.client.backend/src/db/mutations.rs:313-335 | After a flag change the local star is what the server's will be if and only if the flag is \Flagged or the message was not starred |
| `Runs.MarkReadAt` | kylins.client.backend/src/db/mutations.rs:288-312 | Marking a thread changes exactly its one message and itself |
| `Runs.StarAllAt` | kylins.client.backend/src/db/mutations.rs:313-335 | A flag change stars exactly the named messages |
| `Runs.MoveAllAt` | kylins.client.backend/src/db/mutations.rs:336-382 | A move relinks exactly the named messages, repeated ids included |
| `Runs.DeleteAt` | kylins.client.backend/src/db/mutations.rs:383-408 | A delete empties exactly the cells of its messages |
| `Bodies.EvictionExact` | kylins.client.backend/src/db/message_bodies.rs:124-166 | Eviction leaves min(count, cap) bodies, none older than an evicted one, and flag and table still agree |
| `Bodies.UncachedExact` | kylins.client.backend/src/db/messages.rs:411-446 | While flag and table agree, as every run keeps them, the prefetch query finds exactly the requested messages without a body row |
| `Bodies.MaybeEvict` | kylins.client.backend/src/db/message_bodies.rs:124-166 | Deletes the oldest rows beyond the cap and clears the flags of the ids deleted; a negative cap empties the cache |
| `Bodies.SelectOldest` | kylins.client.backend/src/db/message_bodies.rs:138-149 | Some choice of that many oldest rows, ties broken any way |
| `Bodies.ClearFlags` | kylins.client.backend/src/db/message_bodies.rs:152-162 | Clearing one id after the other clears them all |
| `Bodies.EvictedCell` | kylins.client.backend/src/db/message_bodies.rs:152-162 | Clearing flags by message id alone touches only the evicted account's row |
| `Bodies.MaybeEvictKeepsInv` | kylins.client.backend/src/db/message_bodies.rs:124-166 | Flag and table still agree afterwards |
| `Bodies.SetMessageBody` | kylins.client.backend/src/db/message_bodies.rs:68-93 | Stores the body and raises the flag, or fails on the foreign key and changes nothing |
| `Bodies.EvictBody` | kylins.client.backend/src/db/message_bodies.rs:98-118 | Removes the body and clears the flag |
| `Bodies.EvictUndoesStore` | kylins.client.backend/src/db/message_bodies.rs:68-118 | Evicting a body just stored restores the store |
| `Bodies.FreshBodySurvives` | kylins.client.backend/src/db/message_bodies.rs:68-166 | A body stored later than all others outlives an eviction that keeps at least one row, with its content and time, and other bodies keep theirs |
| `Threads.PagingRefinesSorting` | kylins.client.backend/src/db/threads.rs:225-313 | Following the cursor to its end lists exactly the threads that matched at the first page, each once, in (date, id) descending order, for any limit of at least 1 and any label, even when threads arrive above the cursor between pages |
| `Threads.ScanLists` | kylins.client.backend/src/db/threads.rs:257-264 | The same for any rows with distinct places in the order |
| `Threads.PagingTerminates` | kylins.client.backend/src/db/threads.rs:299-307 | A client that was always given another cursor has read no more full pages than the threads matching at the start fill, although threads may keep arriving above the cursor |
| `Threads.StayingThreadShownOnce` | kylins.client.backend/src/db/threads.rs:257-264 | A thread that stays listed at the same date is shown exactly once in a scan, whatever happens to other threads and to its own flags between two pages |
| `Threads.LooseScanShows` | kylins.client.backend/src/db/threads.rs:257-264 | From any cursor: once if its place lies below the cursor, else never |
| `Threads.ScanEnds` | kylins.client.backend/src/db/threads.rs:299-307 | The same for any rows with distinct places in the order |
| `Threads.FullPageUsesRows` | kylins.client.backend/src/db/threads.rs:257-264 | A full page uses up exactly `limit` of the rows that are left, whatever arrives above its cursor |
| `Threads.ScanLength` | kylins.client.backend/src/db/threads.rs:299-307 | A finished scan of n rows took p pages with (p - 1) * limit <= n < p * limit |
| `Threads.ListsUnique` | kylins.client.backend/src/db/threads.rs:278 | There is only one such listing |
| `Threads.OneRowPerThread` | kylins.client.backend/src/db/threads.rs:273-276 | Under the store invariant the join with the latest message gives one row per listed thread |
| `Threads.JoinPicksNewest` | kylins.client.backend/src/db/threads.rs:273-276 | With several messages in a thread its row shows one that none of them is newer than |
| `Listing.EveryThreadHasRow` | kylins.client.backend/src/db/threads.rs:244-280 | In any store, coherent or not, the list of a label shows exactly the account's threads linked to it, the whole list all of them, with messages or without |
| `Listing.DeliveryIsListed` | kylins.client.backend/src/db/messages.rs:596-607 | A message a delta writes is listed under the folder's label |
| `Listing.VanishedIsUnlisted` | kylins.client.backend/src/db/messages.rs:103-139 | A vanished message is listed nowhere |
| `Listing.MoveIsListed` | kylins.client.backend/src/db/mutations.rs:336-382 | After a local move a message is listed under the target label, no longer under another source label, and under third labels as before |
| `Listing.DeleteIsUnlisted` | kylins.client.backend/src/db/mutations.rs:383-408 | A local delete takes exactly its messages out of every list |
| `Listing.DeletedFolderIsEmpty` | kylins.client.backend/src/db/labels.rs:409-437 | The list of a deleted folder is empty and the other lists are as before |
| `Threads.GetThreads` | kylins.client.backend/src/db/threads.rs:225-313 | One page is the top of the remaining rows, with a cursor exactly when it is full and not empty |
| `Threads.PickPage` | kylins.client.backend/src/db/threads.rs:278-279 | Selection of the page, in order, without repeats, with nothing higher left behind |
| `Threads.MarkThreadRead` | kylins.client.backend/src/db/threads.rs:336-356 | Marks the thread and its messages, without a queue row |
| `AttachmentCache.ReconcileCache` | kylins.client.backend/src/attachment_cache.rs:171-191 | Both passes together; the three counters are the directories, immediate files and rows really cleared |
| `AttachmentCache.ReconcileFixedPoint` | kylins.client.backend/src/attachment_cache.rs:171-191 | A second run changes nothing and returns zeros |
| `AttachmentCache.ReconciledIsClean` | kylins.client.backend/src/attachment_cache.rs:155-170 | Every message directory left names a live message and every path left in the table exists |
| `AttachmentCache.ReconciledRows` | kylins.client.backend/src/attachment_cache.rs:328-345 | A row whose file is missing loses all three cache columns, and every other row stays |
| `AttachmentCache.WalkAndRemoveOrphans` | kylins.client.backend/src/attachment_cache.rs:197-297 | The nested walk, deleting while it lists, removes exactly the message directories whose raw names are no row, and counts them and their immediate files |
| `AttachmentCache.CheckMessage` | kylins.client.backend/src/attachment_cache.rs:261-291 | One directory: kept if alive, else counted and removed |
| `AttachmentCache.RemoveDirAll` | kylins.client.backend/src/attachment_cache.rs:279 | Removes the directory with everything under it |
| `AttachmentCache.CountFiles` | kylins.client.backend/src/attachment_cache.rs:354-365 | Immediate regular files only |
| `AttachmentCache.ClearStaleLocalPaths` | kylins.client.backend/src/attachment_cache.rs:303-348 | Clears exactly the rows whose file is missing and counts each once, even when rows share a path |
| `AttachmentCache.LiveDirUntouched` | kylins.client.backend/src/attachment_cache.rs:261-275 | A directory whose raw names spell a live message keeps its whole content |
| `AttachmentCache.CacheDirKept` | kylins.client.backend/src/attachment_cache.rs:217-276 | The cache directory of a message survives if and only if its sanitized names are a row |
| `AttachmentCache.CleanIdsKeepCache` | kylins.client.backend/src/attachment_cache.rs:59-73 | Live messages whose ids need no sanitizing keep their cache |
| `AttachmentCache.NestedFolderLosesCache` | kylins.client.backend/src/attachment_cache.rs:373-383 | For every account and every folder path with a slash: the cache of a live message is removed by the next reconciliation |
| `AttachmentCache.SanitizedIsSafe` | kylins.client.backend/src/attachment_cache.rs:373-383 | A directory name never holds a reserved character |
| `AttachmentCache.SanitizedIs` | kylins.client.backend/src/attachment_cache.rs:373-383 | A directory name is the segment without outer white space, with each reserved character replaced by an underscore |
| `AttachmentCache.SpacesAre` | kylins.client.backend/src/attachment_cache.rs:381 | Outer white space is the 25 characters of the Unicode property White_Space |
| `AttachmentCache.Utf8LenIs` | kylins.client.backend/src/attachment_cache.rs:68 | Bytes of a character: 7, 11 and 16 bits fit into one, two and three |
| `AttachmentCache.ShardIsTwoBytes` | kylins.client.backend/src/attachment_cache.rs:68 | The shard is the prefix of two UTF-8 bytes, or the whole name if no prefix has two |
| `AttachmentCache.OneShardForAll` | kylins.client.backend/src/attachment_cache.rs:56-68 | Every message id gets the same shard |
| `AttachmentCache.DotsStay` | kylins.client.backend/src/attachment_cache.rs:367-383 | For every segment: the directory name begins or ends with a dot, or is . or .., if and only if the trimmed segment does; so boundary dots are not replaced, against the comment |
| `AttachmentCache.MessageNamesHaveNoDots` | kylins.client.backend/src/attachment_cache.rs:59-73 | No message id the program forms meets that condition |
| `AttachmentCache.CleanIsSanitized` | kylins.client.backend/src/attachment_cache.rs:373-383 | Ids without reserved characters or outer whitespace are their own directory name |
| `SyncState.SignedSuffixMaximum` | kylins.client.backend/src/db/sync_state.rs:41-71 | For all 64-bit modseqs the same with the modseqs compared as signed numbers |
| `SyncState.CursorIsSuffixMaximum` | kylins.client.backend/src/db/sync_state.rs:19-71 | After any advances the cursor read back has the last UIDVALIDITY and the greatest UID of the longest suffix of that UIDVALIDITY, and its greatest modseq if and only if the suffix's modseqs are all below 2^63 or all at least 2^63 |
| `SyncState.WideModseqLost` | kylins.client.backend/src/db/sync_state.rs:41-71 | An instance that fails it: a modseq of 2^63 loses to 1 |
| `SyncState.OrderIrrelevant` | kylins.client.backend/src/db/sync_state.rs:41-71 | Within one UIDVALIDITY neither order nor repetition of advances matters |
| `SyncState.AdvanceImapCursor` | kylins.client.backend/src/db/sync_state.rs:41-71 | The upsert with its conditional maximum |
| `SyncState.GetImapCursor` | kylins.client.backend/src/db/sync_state.rs:19-37 | Reads the row, or the initial cursor |
| `Labels.RefreshExact` | kylins.client.backend/src/db/labels.rs:272-323 | After upserting a listing and pruning with its remote ids, the account and source have exactly those remote ids; survivors keep their counts; unlisted labels of other accounts and sources are as before |
| `Labels.PruneExact` | kylins.client.backend/src/db/labels.rs:442-483 | A prune deletes exactly the stale labels and exactly the links to them |
| `Labels.PruneStaleLabels` | kylins.client.backend/src/db/labels.rs:442-483 | The loop over the listed rows, with the number deleted; an empty keep set is a no-op |
| `Labels.DeleteStale` | kylins.client.backend/src/db/labels.rs:466-481 | Deleting label by label equals deleting the set |
| `Labels.DeleteFolder` | kylins.client.backend/src/db/labels.rs:409-437 | The label and every link of that account to it go together |
| `Labels.UpsertFolders` | kylins.client.backend/src/db/labels.rs:272-323 | The loop folds one upsert per listed folder, in one commit; an empty listing commits nothing |
| `Labels.UpsertAt` | kylins.client.backend/src/db/labels.rs:272-323 | A label after an upsert is its last listing with the counts it had, or as it was |
| `Labels.UpsertColumns` | kylins.client.backend/src/db/labels.rs:279-321 | A listed folder's row, column by column: its last listing's values, type system exactly with a role, and the counts it had |
| `Labels.EmptyListingKeepsAll` | kylins.client.backend/src/db/labels.rs:448-450 | An empty listing changes nothing |
| `OAuth.DecodeUndoesEncode` | kylins.client.backend/src/oauth.rs:125-145 | Decoding any percent encoding of any UTF-8 string, with space as plus sign or %20, gives the string back |
| `OAuth.HexDigitsCount` | kylins.client.backend/src/oauth.rs:131 | The digits 0 to 9 and a to f in either case have their values |
| `OAuth.HexDigitsOnly` | kylins.client.backend/src/oauth.rs:131 | Nothing else is a hex digit |
| `OAuth.FirstCharIsScalar` | kylins.client.backend/src/oauth.rs:144 | What the decoder accepts as a character is the encoding of a Unicode scalar value (section 3 of RFC 3629): no overlong form, no surrogate |
| `OAuth.ScalarIsFirstChar` | kylins.client.backend/src/oauth.rs:144 | Every scalar value is accepted |
| `OAuth.PlainStays` | kylins.client.backend/src/oauth.rs:137-141 | Input without percent and plus signs decodes to itself |
| `OAuth.BrokenEscapeStays` | kylins.client.backend/src/oauth.rs:130-142 | A percent sign that begins no escape stays, and decoding goes on behind it |
| `OAuth.SignedEscape` | kylins.client.backend/src/oauth.rs:131 | A plus sign and one digit are taken for a number, as the parser of the standard library does |
| `OAuth.InvalidStays` | kylins.client.backend/src/oauth.rs:144 | Escapes that decode to no UTF-8 leave the whole input as it was |
| `OAuth.UrlEncodingDecode` | kylins.client.backend/src/oauth.rs:125-145 | The index loop computes `UrlDecode`, including the fallback for bytes that are no UTF-8 and the panic of a slice cut inside a character |
| `OAuth.PanicsExactly` | kylins.client.backend/src/oauth.rs:130-131 | Decoding a string panics if and only if some percent sign stands three bytes before the inside of a character |
| `OAuth.AsciiNeverPanics` | kylins.client.backend/src/oauth.rs:130-131 | Corollary: input of ASCII characters never panics |
| `OAuth.CutCharacterPanics` | kylins.client.backend/src/oauth.rs:130-131 | An instance that does |
| `OAuth.ParseRecoversPairs` | kylins.client.backend/src/oauth.rs:112-123 | Parsing a path recovers the pairs its query string was written from |
| `OAuth.ExpectedIsThePairs` | kylins.client.backend/src/oauth.rs:112-123 | The resulting map has the last pair of each key and nothing else |
| `OAuth.ParseIgnoresTheRest` | kylins.client.backend/src/oauth.rs:112-123 | Text after a second question mark is ignored, and a trailing piece without an equals sign leaves the pairs before it |
| `OAuth.NoQueryNoParams` | kylins.client.backend/src/oauth.rs:114 | Without a question mark there are no parameters |
| `OAuth.JunkIgnored` | kylins.client.backend/src/oauth.rs:117 | A piece without an equals sign changes nothing |
| `OAuth.ParseQueryString` | kylins.client.backend/src/oauth.rs:112-123 | The insertion loop, stopping where decoding panics |
| `OAuth.SplitJoin` | kylins.client.backend/src/oauth.rs:114-115 | Splitting at a separator undoes joining with it |
| `OAuth.SplitPairJoin` | kylins.client.backend/src/oauth.rs:116-117 | Splitting once at the equals sign recovers key and value |

## Left out

- Queue.Survivors: the special case of increasing ids and `read` values of 0 or 1; SurvivesExactly and GroupAfterCompaction assume neither.
- Replay.CompactionPreservesMeaning: the special case of one group with increasing ids; CompactionMeaning has no hypothesis.
- Replay.RoundReplaysQueue: rows naming the flag are not refused in the round and those that disagree are of an earlier second; RoundFlagExact says exactly what ties can do, and refused rows are covered by ReplayRound, SettleDecreases, DrainBound and StepShowsIntent.
- Replay.RoundConserves: the same conditions on one round after its compaction.
- Replay.DrainedFlag: rounds that meet those conditions for the flag in question.
- Replay.ReplayRound: a `Send` row is settled by the answer alone (MIME building and SMTP are not part of this model), the server's messages are named by the folder and UID the client knows them under although a real server numbers a moved one anew, and database errors are left out.
- Intent.DeliberateRunsShowIntent: a sufficient condition on the client; StepShowsIntent and NewestIntentionWins have the exact one.
- Runs.RunKeepsInv: a delta is one step of a run; between its statements only what EventsKeepWellKeyed says is promised, since threads and messages may disagree until it is complete.
- AttachmentCache.ReconcileCache: file operations succeed, counters do not overflow 32 bits, and symbolic links, names that are no UTF-8 and dot segments are not modelled.
- Threads.PagingRefinesSorting: `last_message_at` is never NULL, as the upsert writes it; the full listing holds while only rows above the cursor change; StayingThreadShownOnce has no such condition.
- Mutations.ApplyMutation: the removal of attachment directories after a local delete (kylins.client.backend/src/sync_engine/commands.rs:1032-1044) and the nudge to the worker are not part of it; generated ids and times are parameters.
- Mutations.RecoveredOp: JSON text and the decoding of a draft are left out; parameters are parsed values and a draft is opaque.
- The star of a thread after a local flag change: the code writes only the message, so no mirror is claimed.
- Thread and label columns nobody in the modelled code reads or writes (pinned, muted, snooze time, colours), attachment rows other than their cache columns, and `set_message_snippet`.
- S/MIME and PGP material of message bodies, the vault, the keyring: thin layers over libraries.
- IMAP, SMTP, EAS, AutoDiscover and token requests, EAS cursors: network code; a delta and an answer are parameters.
- SQL errors, busy handling, WAL and connection pools: a transaction is atomic.
- Full-text search, contacts, calendars, tasks, templates, signatures, settings: plain reads and writes that would only add easy members.
- Commands, windows, tray and the TypeScript front end.
