# Synchronous backup replication and in-memory Raft snapshots

This project models two pieces of the Atomix clustering framework in Dafny
and proves properties of them.

**The synchronous replicator of the primary-backup protocol.** The primary
registers one pending future per replicated operation and appends the
operation to a FIFO queue for every backup. A queue sends at most one batch
of up to 100 operations at a time. When a backup answers OK, its queue's
acknowledged index becomes the last index of that batch. The commit index is
then recomputed as the least acknowledged index over all queues, and the
futures above the old commit index, up to and including the new one, are
completed and removed. Whatever the answer, the batch is dropped, the queue
becomes idle and it sends the next batch. `removePreviousOperation` drops
the operations still queued for one backup up to an index. `close` fails
every registered future with "Not the primary".

**The in-memory snapshot of the Raft storage layer.** A snapshot is a heap
buffer whose first 64 bytes are reserved for the snapshot descriptor. Writer
sessions each start at the buffer's mark, and closing a writer moves the mark
past what it wrote. `complete` flips the buffer and locks the descriptor.
`persist` returns the snapshot itself under MEMORY storage. For any other
storage level it copies the buffer into a new snapshot that the store
allocates.

Files:

- `wrappers.dfy`: Option, Result and Outcome.
- `futures.dfy`: the completion semantics of a CompletableFuture.
- `replication_spec.dfy`: the value-level queue states and functions, with
  their lemmas.
- `synchronous_replicator.dfy`: the replicator and its backup queues as
  classes. Each class is proved against `replication_spec.dfy`.
- `replication_scenarios.dfy`: two client runs of the replicator.
- `buffers.dfy`: the heap byte array and java.nio-style buffer cursors.
- `memory_snapshot.dfy`: the snapshot, its writers and readers, and the store.
- `snapshot_scenarios.dfy`: client runs of the snapshot lifecycle.

The network is not modelled. Sending a batch leaves it in flight in its
queue, and the asynchronous response callback is the separate method
`SynchronousReplicator.OnResponse`, which runs as one atomic step. The list
of backups and the commit index, which the source reads from its service
context, are a parameter and a field.

## Model

| member | source | states |
|---|---|---|
| Futures.SettledOnce | protocols/primary-backup/src/main/java/io/atomix/protocols/backup/roles/SynchronousReplicator.java:79-82 | After a future completes, no later complete or completeExceptionally changes it. |
| Futures.Future.Complete | protocols/primary-backup/src/main/java/io/atomix/protocols/backup/roles/SynchronousReplicator.java:81 | A pending future succeeds; a completed one is left alone. |
| Futures.Future.CompleteExceptionally | protocols/primary-backup/src/main/java/io/atomix/protocols/backup/roles/SynchronousReplicator.java:89 | A pending future fails with the reason; a completed one is left alone. |
| ReplicationSpec.BatchShape | protocols/primary-backup/src/main/java/io/atomix/protocols/backup/roles/SynchronousReplicator.java:129-135 | A batch is a FIFO prefix of the queue of at most 100 operations. It is non-empty when the queue is non-empty. It is shorter than 100 only when it took the whole queue. |
| ReplicationSpec.Backup | protocols/primary-backup/src/main/java/io/atomix/protocols/backup/roles/SynchronousReplicator.java:128-137 | The batch followed by what is left is the old queue. The batch holds min(100, queue length) operations. Its last index is recorded. |
| ReplicationSpec.MaybeBackup | protocols/primary-backup/src/main/java/io/atomix/protocols/backup/roles/SynchronousReplicator.java:118-123 | A send starts exactly when the queue is idle and holds operations. The batch it sends is not empty, and nothing is lost from the outstanding operations. Otherwise the state is unchanged. |
| ReplicationSpec.Add | protocols/primary-backup/src/main/java/io/atomix/protocols/backup/roles/SynchronousReplicator.java:110-113 | The operation joins the tail of the outstanding operations, and the queue invariant is kept. A busy queue only buffers the operation. An idle queue sends it at once as a batch of one. |
| ReplicationSpec.Release | protocols/primary-backup/src/main/java/io/atomix/protocols/backup/roles/SynchronousReplicator.java:158-159 | The batch in flight is dropped and never re-queued. The queue is busy again exactly when operations were waiting, and it then sends the next batch. |
| ReplicationSpec.Respond | protocols/primary-backup/src/main/java/io/atomix/protocols/backup/roles/SynchronousReplicator.java:146-160 | The acknowledged index becomes the batch's last index on OK and stays as it was otherwise. The outstanding operations become exactly those that were waiting. |
| ReplicationSpec.AckPrecedesOutstanding | protocols/primary-backup/src/main/java/io/atomix/protocols/backup/roles/SynchronousReplicator.java:146-160 | With operations queued in index order, an OK response leaves the acknowledged index below every operation still outstanding. |
| ReplicationSpec.AddKeepsIndexOrder | protocols/primary-backup/src/main/java/io/atomix/protocols/backup/roles/SynchronousReplicator.java:110-113 | Adding an operation with a larger index keeps the queue in index order. |
| ReplicationSpec.RespondKeepsAckOrder | protocols/primary-backup/src/main/java/io/atomix/protocols/backup/roles/SynchronousReplicator.java:146-160 | On an ordered queue, no response, OK or not, moves the acknowledged index back. The queue stays ordered: its outstanding operations keep increasing indices, all above the acknowledged index. |
| ReplicationSpec.AddKeepsAckOrder | protocols/primary-backup/src/main/java/io/atomix/protocols/backup/roles/SynchronousReplicator.java:110-113 | Adding an operation whose index is above everything queued and above the acknowledgment keeps the queue ordered. |
| ReplicationSpec.ClearUpToShape | protocols/primary-backup/src/main/java/io/atomix/protocols/backup/roles/SynchronousReplicator.java:167-173 | Clearing leaves a suffix of the queue. Everything it dropped has index at most k. What is left is empty or starts above k. |
| ReplicationSpec.ClearIdempotent | protocols/primary-backup/src/main/java/io/atomix/protocols/backup/roles/SynchronousReplicator.java:167-173 | Clearing twice with the same index is the same as clearing once. |
| ReplicationSpec.Clear | protocols/primary-backup/src/main/java/io/atomix/protocols/backup/roles/SynchronousReplicator.java:167-173 | Only the waiting operations change. The batch in flight, the in-progress flag and the acknowledged index do not. |
| ReplicationSpec.ClearKeepsAckOrder | protocols/primary-backup/src/main/java/io/atomix/protocols/backup/roles/SynchronousReplicator.java:167-173 | Clearing waiting operations keeps the queue ordered. |
| ReplicationSpec.Replicate | protocols/primary-backup/src/main/java/io/atomix/protocols/backup/roles/SynchronousReplicator.java:55-57 | Every listed backup has a queue afterwards. Queues of unlisted backups are unchanged. Every queue keeps its invariant. |
| ReplicationSpec.ReplicatePrefixStep | protocols/primary-backup/src/main/java/io/atomix/protocols/backup/roles/SynchronousReplicator.java:55-57 | Each further backup in the list adds the operation to that backup's queue, creating the queue if it is absent. |
| ReplicationSpec.ReplicateAppends | protocols/primary-backup/src/main/java/io/atomix/protocols/backup/roles/SynchronousReplicator.java:55-57 | The operation is appended to the tail of each backup's outstanding operations, once per time that backup is listed. |
| ReplicationSpec.ReplicateKeepsAcked | protocols/primary-backup/src/main/java/io/atomix/protocols/backup/roles/SynchronousReplicator.java:55-57 | Replicating changes no backup's acknowledged index. |
| ReplicationSpec.LeastAckedIsCommitIndex | protocols/primary-backup/src/main/java/io/atomix/protocols/backup/roles/SynchronousReplicator.java:74-77 | The min-fold over the queues' acknowledged indices, in any order, is one of those indices and no larger than any of them. It is 0 when there are no queues. |
| ReplicationSpec.CommitIndexStep | protocols/primary-backup/src/main/java/io/atomix/protocols/backup/roles/SynchronousReplicator.java:76 | Folding one more queue into `Math::min` keeps the running value the least index. |
| ReplicationSpec.CommitIndexUnique | protocols/primary-backup/src/main/java/io/atomix/protocols/backup/roles/SynchronousReplicator.java:74-77 | The commit index is determined by the acknowledged indices. |
| ReplicationSpec.CommitBoundedBySlowestBackup | protocols/primary-backup/src/main/java/io/atomix/protocols/backup/roles/SynchronousReplicator.java:74-77 | The min-fold is at most every backup's acknowledged index, so no operation commits past what the slowest backup acknowledged. |
| SynchronousReplication.BackupQueue.constructor | protocols/primary-backup/src/main/java/io/atomix/protocols/backup/roles/SynchronousReplicator.java:95-103 | A new queue is empty, idle and has acknowledged nothing. |
| SynchronousReplication.BackupQueue.Add | protocols/primary-backup/src/main/java/io/atomix/protocols/backup/roles/SynchronousReplicator.java:110-113 | The new state is `Add` of the old state. |
| SynchronousReplication.BackupQueue.MaybeBackup | protocols/primary-backup/src/main/java/io/atomix/protocols/backup/roles/SynchronousReplicator.java:118-123 | The new state is `MaybeBackup` of the old state. |
| SynchronousReplication.BackupQueue.Backup | protocols/primary-backup/src/main/java/io/atomix/protocols/backup/roles/SynchronousReplicator.java:128-137 | The draining loop yields `Backup` of the old state. |
| SynchronousReplication.BackupQueue.Acknowledge | protocols/primary-backup/src/main/java/io/atomix/protocols/backup/roles/SynchronousReplicator.java:149-150 | The acknowledged index becomes the last index of the batch in flight. |
| SynchronousReplication.BackupQueue.Release | protocols/primary-backup/src/main/java/io/atomix/protocols/backup/roles/SynchronousReplicator.java:158-159 | The new state is `Release` of the old state. |
| SynchronousReplication.BackupQueue.Clear | protocols/primary-backup/src/main/java/io/atomix/protocols/backup/roles/SynchronousReplicator.java:167-173 | The peek-and-remove loop yields `Clear` of the old state. |
| SynchronousReplication.SynchronousReplicator.constructor | protocols/primary-backup/src/main/java/io/atomix/protocols/backup/roles/SynchronousReplicator.java:39-45 | A new replicator has no queues and no futures. |
| SynchronousReplication.SynchronousReplicator.Replicate | protocols/primary-backup/src/main/java/io/atomix/protocols/backup/roles/SynchronousReplicator.java:48-59 | With no backups, the result is an already completed future and nothing changes. Otherwise a fresh pending future is registered under the operation's index. The queue states become `Replicate` of the old ones. Existing queue objects are kept. |
| SynchronousReplication.SynchronousReplicator.AddToEveryQueue | protocols/primary-backup/src/main/java/io/atomix/protocols/backup/roles/SynchronousReplicator.java:55-57 | The loop over the backups yields `Replicate` of the old queue states. |
| SynchronousReplication.SynchronousReplicator.AddToQueue | protocols/primary-backup/src/main/java/io/atomix/protocols/backup/roles/SynchronousReplicator.java:56 | Only the queue of that member changes, and it becomes `Add` of its old state. A new empty queue is used if the member had none. |
| SynchronousReplication.SynchronousReplicator.QueueFor | protocols/primary-backup/src/main/java/io/atomix/protocols/backup/roles/SynchronousReplicator.java:56 | The member's registered queue is returned. If there is none, a fresh empty queue is registered. No other queue changes. |
| SynchronousReplication.SynchronousReplicator.RemovePreviousOperation | protocols/primary-backup/src/main/java/io/atomix/protocols/backup/roles/SynchronousReplicator.java:62-67 | An unknown member changes nothing. Otherwise only that member's queue changes, to `Clear` of its old state. |
| SynchronousReplication.SynchronousReplicator.CurrentCommitIndex | protocols/primary-backup/src/main/java/io/atomix/protocols/backup/roles/SynchronousReplicator.java:74-77 | The loop computes the least acknowledged index over all queues, or 0 when there are none. The result is at most every queue's acknowledged index. |
| SynchronousReplication.SynchronousReplicator.CompleteFutures | protocols/primary-backup/src/main/java/io/atomix/protocols/backup/roles/SynchronousReplicator.java:73-85 | The commit index becomes the least acknowledged index. The futures above the old commit index, up to the new one, are completed and removed. All other futures stay registered and untouched. |
| SynchronousReplication.SynchronousReplicator.CompleteRange | protocols/primary-backup/src/main/java/io/atomix/protocols/backup/roles/SynchronousReplicator.java:78-83 | Every future keyed in (lo, hi] is removed and completed. Keys with no future are skipped. |
| SynchronousReplication.SynchronousReplicator.CompleteOne | protocols/primary-backup/src/main/java/io/atomix/protocols/backup/roles/SynchronousReplicator.java:79-82 | The future at i, if there is one, is removed and completed. All others are untouched. |
| SynchronousReplication.SynchronousReplicator.OnResponse | protocols/primary-backup/src/main/java/io/atomix/protocols/backup/roles/SynchronousReplicator.java:146-160 | The responding queue becomes `Respond` of its old state, and no other queue changes. On OK the commit index and futures are updated as in `CompleteFutures`, with that queue's acknowledgment counted. After an OK answer, the commit index is at most every queue's acknowledged index. On an error status or a transport error, nothing else changes. |
| SynchronousReplication.SynchronousReplicator.OnSuccess | protocols/primary-backup/src/main/java/io/atomix/protocols/backup/roles/SynchronousReplicator.java:149-151 | The queue acknowledges its batch, then futures are completed up to the new least acknowledged index. |
| SynchronousReplication.SynchronousReplicator.AcknowledgeQueue | protocols/primary-backup/src/main/java/io/atomix/protocols/backup/roles/SynchronousReplicator.java:150 | Only that member's acknowledged index changes. |
| SynchronousReplication.SynchronousReplicator.ReleaseQueue | protocols/primary-backup/src/main/java/io/atomix/protocols/backup/roles/SynchronousReplicator.java:158-159 | The named queue becomes `Release` of its old state. |
| SynchronousReplication.SynchronousReplicator.Distinct | protocols/primary-backup/src/main/java/io/atomix/protocols/backup/roles/SynchronousReplicator.java:56 | Queues created per member are distinct objects, so updating one leaves the others alone. |
| SynchronousReplication.SynchronousReplicator.Close | protocols/primary-backup/src/main/java/io/atomix/protocols/backup/roles/SynchronousReplicator.java:88-90 | Every registered future is failed with "Not the primary", unless it was already done. The map itself is kept. |
| SynchronousReplication.WithoutRangeStep | protocols/primary-backup/src/main/java/io/atomix/protocols/backup/roles/SynchronousReplicator.java:78-79 | Removing key i after removing (lo, i-1] removes (lo, i]. |
| ReplicationScenarios.CommitIndexCanFall | protocols/primary-backup/src/main/java/io/atomix/protocols/backup/roles/SynchronousReplicator.java:73-85 | The commit index can go from 1 down to 0. This happens when backup a acknowledges operation 1 and operation 2 is then replicated to a and to a new backup b. When a acknowledges 2, the commit index becomes 0. |
| ReplicationScenarios.FirstRound | protocols/primary-backup/src/main/java/io/atomix/protocols/backup/roles/SynchronousReplicator.java:48-59 | One operation to one backup, then an OK answer: the queue is idle with acknowledged index 1, and the commit index is 1. |
| ReplicationScenarios.CloseThenLateResponse | protocols/primary-backup/src/main/java/io/atomix/protocols/backup/roles/SynchronousReplicator.java:88-90 | After close, both futures are failed. A later OK answer cannot make a failed future succeed, but it still removes that future from the map. |
| ReplicationScenarios.FreshBackup | protocols/primary-backup/src/main/java/io/atomix/protocols/backup/roles/SynchronousReplicator.java:56 | Replicating to a backup with no queue creates one whose single operation is in flight at once. |
| ReplicationScenarios.BusyBackup | protocols/primary-backup/src/main/java/io/atomix/protocols/backup/roles/SynchronousReplicator.java:110-113 | Replicating to a queue with a batch in flight only buffers the operation. |
| ReplicationScenarios.AckSending | protocols/primary-backup/src/main/java/io/atomix/protocols/backup/roles/SynchronousReplicator.java:146-160 | An OK answer to a one-operation batch leaves the queue idle, having acknowledged that operation. |
| ReplicationScenarios.LeastAckedTwo | protocols/primary-backup/src/main/java/io/atomix/protocols/backup/roles/SynchronousReplicator.java:74-77 | With two backups, the commit index is the smaller of their acknowledgments. |
| Buffers.Read | protocols/raft/src/main/java/io/atomix/protocols/raft/storage/snapshot/MemorySnapshot.java:80 | Reading n bytes yields exactly n bytes. When the array holds all of them, they are the array's own bytes at that offset. |
| Buffers.Overwrite | protocols/raft/src/main/java/io/atomix/protocols/raft/storage/snapshot/MemorySnapshot.java:80 | A write grows the array as needed and holds the written bytes at its offset. |
| Buffers.OverwriteKeeps | protocols/raft/src/main/java/io/atomix/protocols/raft/storage/snapshot/MemorySnapshot.java:80 | Outside the written range, a write leaves every byte as it was, with zeros past the old end. |
| Buffers.ReadAfterWrite | protocols/raft/src/main/java/io/atomix/protocols/raft/storage/snapshot/MemorySnapshot.java:80 | Reading back at the write offset gives exactly the bytes written. |
| Buffers.WriteKeepsPrefix | protocols/raft/src/main/java/io/atomix/protocols/raft/storage/snapshot/MemorySnapshot.java:64-67 | A write leaves every byte before its offset as it was. |
| Buffers.ConsecutiveWrites | protocols/raft/src/main/java/io/atomix/protocols/raft/storage/snapshot/MemorySnapshot.java:58-67 | Two writes, the second starting where the first ended, read back as their concatenation. |
| Buffers.ReadSplit | protocols/raft/src/main/java/io/atomix/protocols/raft/storage/snapshot/MemorySnapshot.java:80 | Reading m + n bytes is reading m bytes and then the n after them. |
| Buffers.Reset | protocols/raft/src/main/java/io/atomix/protocols/raft/storage/snapshot/MemorySnapshot.java:60 | reset succeeds exactly when a mark is set, and keeps the cursor valid. |
| Buffers.SkipThenReset | protocols/raft/src/main/java/io/atomix/protocols/raft/storage/snapshot/MemorySnapshot.java:65 | After mark and then skip, reset comes back to the marked position. |
| Buffers.SkipMoves | protocols/raft/src/main/java/io/atomix/protocols/raft/storage/snapshot/MemorySnapshot.java:65 | skip(n) succeeds exactly when n bytes remain or there is no limit. It then moves by n and keeps the mark. |
| Buffers.FlipExposesWritten | protocols/raft/src/main/java/io/atomix/protocols/raft/storage/snapshot/MemorySnapshot.java:79-80 | After flip, the readable bytes are those before the old position, and there is no mark. |
| Buffers.FlipTwiceEmpties | protocols/raft/src/main/java/io/atomix/protocols/raft/storage/snapshot/MemorySnapshot.java:95 | A second flip leaves nothing readable. |
| Buffers.SliceStartsAtCursor | protocols/raft/src/main/java/io/atomix/protocols/raft/storage/snapshot/MemorySnapshot.java:60 | A slice starts at the buffer's current byte, sees what remains of it and has no mark. |
| Buffers.SetPositionMark | protocols/raft/src/main/java/io/atomix/protocols/raft/storage/snapshot/MemorySnapshot.java:37 | position(p) moves to p. It keeps a mark at or before p and drops one past p. |
| Buffers.HeapBytes.Write | protocols/raft/src/main/java/io/atomix/protocols/raft/storage/snapshot/MemorySnapshot.java:80 | The shared array becomes the overwritten array. |
| Snapshots.SnapshotStore.NewSnapshot | protocols/raft/src/main/java/io/atomix/protocols/raft/storage/snapshot/MemorySnapshot.java:77 | A fresh, writable snapshot with the given identity is returned. Its zero header is in place, and its cursor and mark are at 64. |
| Snapshots.MemorySnapshot.constructor | protocols/raft/src/main/java/io/atomix/protocols/raft/storage/snapshot/MemorySnapshot.java:33-40 | Position and mark end up at 64, right after the descriptor. The rest of the buffer is unchanged. |
| Snapshots.MemorySnapshot.OpenWriter | protocols/raft/src/main/java/io/atomix/protocols/raft/storage/snapshot/MemorySnapshot.java:58-61 | A second writer, or a writer after complete, is refused. Without a mark, reset fails. Otherwise the buffer goes back to its mark and the writer gets a slice starting there. |
| Snapshots.MemorySnapshot.CloseWriter | protocols/raft/src/main/java/io/atomix/protocols/raft/storage/snapshot/MemorySnapshot.java:64-67 | The buffer moves past the bytes the writer wrote and marks there, so the next writer continues after them. A skip past the limit fails. |
| Snapshots.MemorySnapshot.OpenReader | protocols/raft/src/main/java/io/atomix/protocols/raft/storage/snapshot/MemorySnapshot.java:70-72 | Without a mark, reset fails. Otherwise the buffer goes back to its mark and the reader gets a slice starting there. |
| Snapshots.MemorySnapshot.Complete | protocols/raft/src/main/java/io/atomix/protocols/raft/storage/snapshot/MemorySnapshot.java:94-98 | The buffer is flipped, the descriptor is locked and the snapshot is marked completed. The same snapshot is returned. |
| Snapshots.MemorySnapshot.Persist | protocols/raft/src/main/java/io/atomix/protocols/raft/storage/snapshot/MemorySnapshot.java:75-86 | The snapshot itself is returned exactly when `IsPersisted`, and then nothing changes. Otherwise this buffer is flipped and a fresh snapshot with the same identity is returned. Its payload after the header is the first `position` bytes of this array, and it and its writer are closed. |
| Snapshots.MemorySnapshot.PersistCopy | protocols/raft/src/main/java/io/atomix/protocols/raft/storage/snapshot/MemorySnapshot.java:77-83 | The new snapshot's array is the zero header followed by the copied bytes. Its cursor is past them. |
| Snapshots.MemorySnapshot.OpenCopy | protocols/raft/src/main/java/io/atomix/protocols/raft/storage/snapshot/MemorySnapshot.java:77-78 | A new snapshot with this identity and a writer opened on it, starting right after its header. |
| Snapshots.MemorySnapshot.Close | protocols/raft/src/main/java/io/atomix/protocols/raft/storage/snapshot/MemorySnapshot.java:101-103 | The buffer is released. |
| Snapshots.SnapshotWriter.Write | protocols/raft/src/main/java/io/atomix/protocols/raft/storage/snapshot/MemorySnapshot.java:80 | A write past the limit overflows and changes nothing. Otherwise the bytes land at the slice's cursor in the shared array and the cursor moves past them. |
| Snapshots.SnapshotWriter.Close | protocols/raft/src/main/java/io/atomix/protocols/raft/storage/snapshot/MemorySnapshot.java:64-67 | Closing the writer runs the snapshot's closeWriter. |
| Snapshots.WriteThenClose | protocols/raft/src/main/java/io/atomix/protocols/raft/storage/snapshot/MemorySnapshot.java:78-81 | A one-write writer session leaves the bytes at the writer's start and the snapshot's mark right after them. |
| SnapshotScenarios.SessionsAppend | protocols/raft/src/main/java/io/atomix/protocols/raft/storage/snapshot/MemorySnapshot.java:58-67 | Two writer sessions in a row: the payload after the header is both writes in order, and the mark is after them. |
| SnapshotScenarios.Session | protocols/raft/src/main/java/io/atomix/protocols/raft/storage/snapshot/MemorySnapshot.java:58-67 | One writer session writes its bytes at the old mark and moves the mark past them. |
| SnapshotScenarios.CompleteTwice | protocols/raft/src/main/java/io/atomix/protocols/raft/storage/snapshot/MemorySnapshot.java:94-98 | The first complete exposes header plus payload. A second complete leaves nothing readable. |
| SnapshotScenarios.ReaderAfterComplete | protocols/raft/src/main/java/io/atomix/protocols/raft/storage/snapshot/MemorySnapshot.java:70-72 | After complete the buffer has no mark, so opening a reader fails. |
| SnapshotScenarios.WriterAfterComplete | protocols/raft/src/main/java/io/atomix/protocols/raft/storage/snapshot/MemorySnapshot.java:58-61 | No writer can be opened after complete. |
| SnapshotScenarios.SecondWriter | protocols/raft/src/main/java/io/atomix/protocols/raft/storage/snapshot/MemorySnapshot.java:58-61 | A second writer while the first is open is refused. |
| SnapshotScenarios.PersistWritten | protocols/raft/src/main/java/io/atomix/protocols/raft/storage/snapshot/MemorySnapshot.java:75-86 | Persisting a written snapshot under DISK copies the zero header as well as the payload into the new snapshot, after its own header. |
| SnapshotScenarios.PersistAfterComplete | protocols/raft/src/main/java/io/atomix/protocols/raft/storage/snapshot/MemorySnapshot.java:75-86 | Persisting after complete copies nothing past the new header. |
| SnapshotScenarios.PersistInMemory | protocols/raft/src/main/java/io/atomix/protocols/raft/storage/snapshot/MemorySnapshot.java:75-86 | Under MEMORY storage, persist returns the snapshot itself with its cursor untouched. |
| SnapshotScenarios.IdentityKept | protocols/raft/src/main/java/io/atomix/protocols/raft/storage/snapshot/MemorySnapshot.java:43-55 | snapshotId(), index() and timestamp() report the identity the store created the snapshot with. Writing, completing and persisting leave it unchanged. A persisted copy reports the same identity, under every storage level. |
| SnapshotScenarios.PersistedByLevel | protocols/raft/src/main/java/io/atomix/protocols/raft/storage/snapshot/MemorySnapshot.java:89-91 | isPersisted() is true exactly under MEMORY storage, which is the literal polarity of the code. It is true exactly when persist() hands back the snapshot itself rather than a new one. |
| SnapshotScenarios.HeaderThenPayload | protocols/raft/src/main/java/io/atomix/protocols/raft/storage/snapshot/MemorySnapshot.java:80 | Reading from the start of the array gives the zero header followed by the written payload. |

### Behaviour of the code worth knowing

The model reproduces what the code does. Several of its consequences are
proved as scenarios:

- **The commit index can fall.** A backup that joins later starts with
  acknowledged index 0, and `completeFutures` writes the new minimum back
  unconditionally (`CommitIndexCanFall`).
- **A late answer still removes futures.** After `close`, an OK answer still
  removes the failed futures from the map, but it cannot make them succeed
  (`CloseThenLateResponse`).
- **`complete` is not idempotent.** A second flip leaves nothing readable
  (`CompleteTwice`). After `complete`, `openReader` fails because flip
  discards the mark (`ReaderAfterComplete`), and `persist` copies nothing
  (`PersistAfterComplete`).
- **`persist` copies the header too.** It copies `array()[0, remaining)`,
  which starts with the descriptor bytes, into the new snapshot after that
  snapshot's own header (`PersistWritten`).
- **`isPersisted` holds exactly under MEMORY storage.** This is what the
  code says, and the model keeps that polarity.
- **The very first `add` sends at once.** This holds on an idle queue: a
  batch of one operation goes out immediately, and later operations wait
  behind it (`ReplicationSpec.Add`).

## Left out

- The network and request encoding are not modelled. `BackupRequest`, the
  term, the descriptor and the primary's member id are not carried in a
  batch. The asynchronous callback on the service's thread context is the
  separate atomic method `OnResponse`. Interleaving of callbacks with other
  calls is modelled only as the order in which a client calls the methods.
- Logging, the two `toString` methods and the private `log` field are not
  modelled.
- Clearing the local batch list after the send (`operations.clear()` at
  SynchronousReplicator.java:161) is not modelled. The callback captures only
  `lastIndex`, so clearing the list affects nothing the replicator observes.
- Java `long` arithmetic is modelled as unbounded integers. Overflow of log
  indices is not modelled.
- `PrimaryBackupServiceContext` is not part of this model. Its backup list is
  a parameter of `Replicate` and its commit index is a field of the
  replicator.
- The ordering of `futures` as a `LinkedHashMap` and of `queues` as a
  `HashMap` is not modelled. `Close` completes futures in an arbitrary order,
  and `LeastAcked` folds the queues in an arbitrary order. Neither order
  affects any result.
- `Futures.Future.Incomplete` and `Futures.Future.CompletedFuture` carry a
  proof-only key, the index the future is registered under, which the source
  does not have.
- `HeapBuffer`, the `Snapshot` base class, `SnapshotStore`, `SnapshotWriter`,
  `SnapshotReader` and `SnapshotDescriptor` are not part of this model. They
  are modelled abstractly, only as far as `MemorySnapshot` uses them:
  - cursors follow java.nio: flip discards the mark, a reset without a mark
    fails, and an unbounded buffer grows without a maximum capacity;
  - the base-class writer check refuses a second writer and a writer after
    complete;
  - the store allocates a `MemorySnapshot` with a zero header for every
    storage level;
  - the descriptor's lock is only recorded, and writes are not refused
    because of it.
- `Snapshots.MemorySnapshot.constructor` requires that the initial buffer
  admits position 64. The source's `IllegalArgumentException` for a smaller
  buffer, and its null checks, are not modelled.
- `snapshotId()`, `index()` and `timestamp()` are the functions `SnapshotId`,
  `Index` and `Timestamp` over the descriptor. The `StateMachineId.from` and
  `WallClockTimestamp.from` conversions are identities here.
- `Snapshots.MemorySnapshot.OpenReader`: the `synchronized` monitor is not
  modelled. The base class's `openReader(reader, descriptor)`, which
  registers the reader, is not part of this model.
- `Snapshots.MemorySnapshot.Close` only records that the buffer was
  released. Later use of a closed buffer is not refused.
- Bytes are the `byte` newtype 0..255, not Java's signed bytes.
