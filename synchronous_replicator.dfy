/**
 * The synchronous replicator of the primary-backup protocol and its per-backup
 * queues, as classes whose fields change in place.  Every method is proved
 * against the value-level functions of module ReplicationSpec.
 *
 * The network is not modelled: sending a batch leaves it in flight in the
 * queue, and the asynchronous response callback is the separate method
 * SynchronousReplicator.OnResponse, run as one atomic step.
 */
module SynchronousReplication {
  import opened ReplicationSpec
  import opened Futures

  /** The status a backup answers with. */
  datatype Status = OK | ERROR

  /** What the response callback receives: a response, or a transport error. */
  datatype Reply = Response(status: Status) | TransportError

  /** The message of the exception `close()` fails pending futures with. */
  const NotPrimary: string := "Not the primary"

  /** The FIFO queue of operations waiting to be sent to one backup. */
  class BackupQueue {
    const memberId: MemberId
    var operations: seq<Operation>
    var inProgress: bool
    var ackedIndex: int
    /** The batch in flight, which the response handler captures. */
    var batch: seq<Operation>
    /** The last index of the batch in flight, which the response handler captures. */
    var lastIndex: int

    function State(): QueueState
      reads this
    {
      QueueState(operations, inProgress, ackedIndex, batch, lastIndex)
    }

    constructor (memberId: MemberId)
      ensures this.memberId == memberId && State() == EmptyQueue
    {
      this.memberId := memberId;
      operations, inProgress, ackedIndex, batch, lastIndex := [], false, 0, [], 0;
    }

    method Add(operation: Operation)
      requires QueueInv(State())
      modifies this
      ensures State() == ReplicationSpec.Add(old(State()), operation)
    {
      operations := operations + [operation];
      MaybeBackup();
    }

    method MaybeBackup()
      modifies this
      ensures State() == ReplicationSpec.MaybeBackup(old(State()))
    {
      if !inProgress && |operations| > 0 {
        inProgress := true;
        Backup();
      }
    }

    /** Drains up to 100 operations from the head and puts them in flight. */
    method Backup()
      modifies this
      ensures State() == ReplicationSpec.Backup(old(State()))
    {
      var taken: seq<Operation> := [];
      var index := 0;
      while |taken| < MaxBatch && |operations| > 0
        invariant taken + operations == old(operations)
        invariant |taken| <= MaxBatch
        invariant index == LastIndex(taken)
        invariant inProgress == old(inProgress) && ackedIndex == old(ackedIndex)
      {
        var operation := operations[0];
        operations := operations[1..];
        taken := taken + [operation];
        index := operation.index;
      }
      batch, lastIndex := taken, index;
    }

    /** The OK branch of the response handler. */
    method Acknowledge()
      modifies this
      ensures State() == ReplicationSpec.Acknowledge(old(State()))
    {
      ackedIndex := lastIndex;
    }

    /** The end of the response handler: idle again, then try the next batch. */
    method Release()
      requires QueueInv(State()) && inProgress
      modifies this
      ensures State() == ReplicationSpec.Release(old(State()))
    {
      inProgress := false;
      batch := [];
      MaybeBackup();
    }

    /** Removes the leading queued operations with index at most `index`. */
    method Clear(index: int)
      requires QueueInv(State())
      modifies this
      ensures State() == ReplicationSpec.Clear(old(State()), index)
    {
      while |operations| > 0 && operations[0].index <= index
        invariant ClearUpTo(operations, index) == ClearUpTo(old(operations), index)
        invariant inProgress == old(inProgress) && ackedIndex == old(ackedIndex)
        invariant batch == old(batch) && lastIndex == old(lastIndex)
        decreases |operations|
      {
        assert ClearUpTo(operations, index) == ClearUpTo(operations[1..], index);
        operations := operations[1..];
      }
      assert ClearUpTo(operations, index) == operations;
    }
  }

  class SynchronousReplicator {
    var queues: map<MemberId, BackupQueue>
    var futures: map<int, Future>
    /** The service context's commit index, which `completeFutures` reads and sets. */
    var commitIndex: int

    /**
     * Each queue is registered under its own member (so no two members share a
     * queue) and keeps the queue invariant; no future is registered twice.
     */
    ghost predicate Valid()
      reads this`queues, this`futures, queues.Values
    {
      QueuesValid(queues) && Keyed(futures)
    }

    ghost function QueueStates(): map<MemberId, QueueState>
      reads this`queues, queues.Values
    {
      map m | m in queues :: queues[m].State()
    }

    ghost function AckedIndices(): map<MemberId, int>
      reads this`queues, queues.Values
    {
      map m | m in queues :: queues[m].ackedIndex
    }

    constructor (commitIndex: int)
      ensures Valid() && queues == map[] && futures == map[] && this.commitIndex == commitIndex
    {
      queues, futures := map[], map[];
      this.commitIndex := commitIndex;
    }

    /**
     * With no backups the future is already complete and nothing changes;
     * otherwise one pending future is registered under the operation's index
     * and the operation is added to every backup's queue.
     */
    method Replicate(operation: Operation, backups: seq<MemberId>) returns (future: Future)
      requires Valid()
      modifies this`queues, this`futures, queues.Values
      ensures Valid() && fresh(future)
      ensures forall m :: m in old(queues) ==> m in queues && queues[m] == old(queues[m])
      ensures forall m :: m in queues && m !in old(queues) ==> fresh(queues[m])
      ensures backups == [] ==>
        && future.state == Succeeded
        && queues == old(queues) && futures == old(futures) && QueueStates() == old(QueueStates())
      ensures backups != [] ==>
        && future.state == Pending
        && futures == old(futures)[operation.index := future]
        && QueueStates() == ReplicationSpec.Replicate(old(QueueStates()), operation, backups)
    {
      if |backups| == 0 {
        future := new Future.CompletedFuture(operation.index);
        return;
      }
      ghost var states := QueueStates();
      future := new Future.Incomplete(operation.index);
      futures := futures[operation.index := future];
      assert QueueStates() == states;
      ghost var registered := futures;
      AddToEveryQueue(operation, backups);
      assert futures == registered;
    }

    /** The loop of `replicate` over the backups. */
    method AddToEveryQueue(operation: Operation, backups: seq<MemberId>)
      requires Valid()
      modifies this`queues, queues.Values
      ensures Valid()
      ensures forall m :: m in old(queues) ==> m in queues && queues[m] == old(queues[m])
      ensures forall m :: m in queues && m !in old(queues) ==> fresh(queues[m])
      ensures QueueStates() == ReplicationSpec.Replicate(old(QueueStates()), operation, backups)
    {
      for j := 0 to |backups|
        invariant Valid()
        invariant forall m :: m in old(queues) ==> m in queues && queues[m] == old(queues[m])
        invariant forall m :: m in queues && m !in old(queues) ==> fresh(queues[m])
        invariant QueueStates() == ReplicationSpec.Replicate(old(QueueStates()), operation, backups[..j])
      {
        ReplicatePrefixStep(old(QueueStates()), operation, backups, j);
        AddToQueue(backups[j], operation);
      }
      assert backups[..|backups|] == backups;
    }

    /** `queues.computeIfAbsent(member, BackupQueue::new).add(operation)` */
    method AddToQueue(member: MemberId, operation: Operation)
      requires Valid()
      modifies this`queues, queues.Values
      ensures Valid()
      ensures forall m :: m in old(queues) ==> m in queues && queues[m] == old(queues[m])
      ensures forall m :: m in queues && m !in old(queues) ==> fresh(queues[m])
      ensures QueueStates() == old(QueueStates())[member := ReplicationSpec.Add(QueueOf(old(QueueStates()), member), operation)]
    {
      ghost var prior := QueueStates();
      var queue := QueueFor(member);
      ghost var q0 := QueueOf(prior, member);
      ghost var before := prior[member := q0];
      assert QueueStates() == before && queue.State() == q0;
      AddToPresent(member, operation);
      assert QueueStates() == before[member := ReplicationSpec.Add(q0, operation)];
      UpdateTwice(prior, member, q0, ReplicationSpec.Add(q0, operation));
    }

    /** `add(operation)` on the queue already registered for `member`. */
    method AddToPresent(member: MemberId, operation: Operation)
      requires Valid() && member in queues
      modifies queues[member]
      ensures Valid()
      ensures QueueStates() == old(QueueStates())[member := ReplicationSpec.Add(old(queues[member].State()), operation)]
    {
      queues[member].Add(operation);
      Distinct(member);
      assert QueueStates() == old(QueueStates())[member := ReplicationSpec.Add(old(queues[member].State()), operation)];
    }

    /** `queues.computeIfAbsent(member, BackupQueue::new)` */
    method QueueFor(member: MemberId) returns (queue: BackupQueue)
      requires Valid()
      modifies this`queues
      ensures Valid() && member in queues && queue == queues[member]
      ensures queue.State() == QueueOf(old(QueueStates()), member)
      ensures forall m :: m in old(queues) ==> m in queues && queues[m] == old(queues[m])
      ensures forall m :: m in queues && m !in old(queues) ==> fresh(queues[m])
      ensures QueueStates() == old(QueueStates())[member := QueueOf(old(QueueStates()), member)]
    {
      if member in queues {
        queue := queues[member];
        assert QueueStates() == old(QueueStates())[member := queue.State()];
      } else {
        queue := new BackupQueue(member);
        queues := queues[member := queue];
        assert QueueStates() == old(QueueStates())[member := EmptyQueue];
      }
    }

    /** Drops the operations up to `endIndex` still queued for one backup. */
    method RemovePreviousOperation(memberId: MemberId, endIndex: int)
      requires Valid()
      modifies queues.Values
      ensures Valid()
      ensures memberId !in queues ==> QueueStates() == old(QueueStates())
      ensures memberId in queues ==>
        QueueStates() == old(QueueStates())[memberId := Clear(old(queues[memberId].State()), endIndex)]
    {
      if memberId in queues {
        queues[memberId].Clear(endIndex);
      }
    }

    /** The least acknowledged index over all queues, 0 with no queues. */
    method CurrentCommitIndex() returns (c: int)
      ensures c == LeastAcked(AckedIndices())
      ensures forall m :: m in queues ==> c <= queues[m].ackedIndex
    {
      var todo := queues.Keys;
      ghost var seen: map<MemberId, int> := map[];
      var first := true;
      c := 0;
      while todo != {}
        invariant todo <= queues.Keys
        invariant seen.Keys == queues.Keys - todo
        invariant first <==> seen == map[]
        invariant forall m :: m in seen ==> seen[m] == queues[m].ackedIndex
        invariant IsCommitIndex(c, seen)
        decreases |todo|
      {
        var m :| m in todo;
        var acked := queues[m].ackedIndex;
        if first {
          c := acked;
        } else {
          CommitIndexStep(c, seen, m, acked);
          c := Min(c, acked);
        }
        seen := seen[m := acked];
        todo := todo - {m};
        first := false;
      }
      assert seen == AckedIndices();
      LeastAckedIsCommitIndex(seen);
      CommitIndexUnique(c, LeastAcked(seen), seen);
      forall m | m in queues
        ensures c <= queues[m].ackedIndex
      {
        CommitBoundedBySlowestBackup(seen, m);
      }
    }

    /**
     * Sets the commit index to the least acknowledged index and completes, in
     * increasing order, the futures registered strictly above the old commit
     * index and up to the new one, removing them; absent ones are skipped.
     */
    method CompleteFutures()
      requires Valid()
      modifies this`commitIndex, this`futures, futures.Values
      ensures Valid()
      ensures commitIndex == LeastAcked(old(AckedIndices()))
      ensures futures == WithoutRange(old(futures), old(commitIndex), commitIndex)
      ensures forall i :: i in old(futures) && old(commitIndex) < i <= commitIndex ==>
        old(futures)[i].state == Settle(old(futures[i].state), Succeeded)
      ensures forall i :: i in futures ==> futures[i].state == old(futures[i].state)
    {
      ghost var acked := AckedIndices();
      var newCommit := CurrentCommitIndex();
      assert newCommit == LeastAcked(acked);
      CompleteRange(commitIndex, newCommit);
      commitIndex := newCommit;
    }

    /** The loop of `completeFutures`: for i in (lo, hi], in increasing order. */
    method CompleteRange(lo: int, hi: int)
      requires Keyed(futures)
      modifies this`futures, futures.Values
      ensures Keyed(futures)
      ensures futures == WithoutRange(old(futures), lo, hi)
      ensures forall i :: i in old(futures) && lo < i <= hi ==>
        old(futures)[i].state == Settle(old(futures[i].state), Succeeded)
      ensures forall i :: i in futures ==> futures[i].state == old(futures[i].state)
    {
      var i := lo + 1;
      while i <= hi
        invariant lo < i && (i <= hi + 1 || i == lo + 1)
        invariant Keyed(futures)
        invariant futures == WithoutRange(old(futures), lo, i - 1)
        invariant forall k :: k in old(futures) && lo < k < i ==>
          old(futures)[k].state == Settle(old(futures[k].state), Succeeded)
        invariant forall k :: k in futures ==> futures[k].state == old(futures[k].state)
      {
        CompleteOne(i);
        WithoutRangeStep(old(futures), lo, i);
        i := i + 1;
      }
    }

    /** `future = futures.remove(i); if (future != null) future.complete(null);` */
    method CompleteOne(i: int)
      requires Keyed(futures)
      modifies this`futures, futures.Values
      ensures Keyed(futures)
      ensures futures == old(futures) - {i}
      ensures i in old(futures) ==> old(futures)[i].state == Settle(old(futures[i].state), Succeeded)
      ensures forall k :: k in futures ==> futures[k].state == old(futures[k].state)
    {
      if i in futures {
        var future := futures[i];
        futures := futures - {i};
        future.Complete();
      }
    }

    /**
     * The response callback of the batch in flight to `member`: on an OK
     * response the queue's acknowledged index becomes the batch's last index
     * and futures are completed; in every case the batch is dropped, the queue
     * becomes idle and tries the next batch.
     */
    method OnResponse(member: MemberId, reply: Reply)
      requires Valid() && member in queues && queues[member].inProgress
      modifies this`commitIndex, this`futures, futures.Values, queues[member]
      ensures Valid()
      ensures queues[member].State() == Respond(old(queues[member].State()), reply == Response(OK))
      ensures forall m :: m in queues && m != member ==> queues[m].State() == old(queues[m].State())
      ensures reply == Response(OK) ==>
        && commitIndex == LeastAcked(old(AckedIndices())[member := old(queues[member].lastIndex)])
        && futures == WithoutRange(old(futures), old(commitIndex), commitIndex)
        && forall i :: i in old(futures) && old(commitIndex) < i <= commitIndex ==>
             old(futures)[i].state == Settle(old(futures[i].state), Succeeded)
      ensures reply != Response(OK) ==> commitIndex == old(commitIndex) && futures == old(futures)
      ensures forall i :: i in futures ==> futures[i].state == old(futures[i].state)
      ensures reply == Response(OK) ==> forall m :: m in queues ==> commitIndex <= queues[m].ackedIndex
    {
      ghost var acked := old(AckedIndices())[member := old(queues[member].lastIndex)];
      if reply == Response(OK) {
        OnSuccess(member);
      }
      ReleaseQueue(member);
      Distinct(member);
      if reply == Response(OK) {
        forall m | m in queues
          ensures commitIndex <= queues[m].ackedIndex
        {
          assert acked[m] == queues[m].ackedIndex;
          CommitBoundedBySlowestBackup(acked, m);
        }
      }
    }

    /** The OK branch of the response callback: `ackedIndex = lastIndex; completeFutures();` */
    method OnSuccess(member: MemberId)
      requires Valid() && member in queues && queues[member].inProgress
      modifies this`commitIndex, this`futures, futures.Values, queues[member]
      ensures Valid()
      ensures queues[member].State() == ReplicationSpec.Acknowledge(old(queues[member].State()))
      ensures commitIndex == LeastAcked(old(AckedIndices())[member := old(queues[member].lastIndex)])
      ensures futures == WithoutRange(old(futures), old(commitIndex), commitIndex)
      ensures forall i :: i in old(futures) && old(commitIndex) < i <= commitIndex ==>
        old(futures)[i].state == Settle(old(futures[i].state), Succeeded)
      ensures forall i :: i in futures ==> futures[i].state == old(futures[i].state)
    {
      AcknowledgeQueue(member);
      CompleteFutures();
    }

    /** `ackedIndex = lastIndex` on the queue of `member`. */
    method AcknowledgeQueue(member: MemberId)
      requires Valid() && member in queues && queues[member].inProgress
      modifies queues[member]
      ensures Valid()
      ensures queues[member].State() == ReplicationSpec.Acknowledge(old(queues[member].State()))
      ensures AckedIndices() == old(AckedIndices())[member := old(queues[member].lastIndex)]
    {
      queues[member].Acknowledge();
      Distinct(member);
    }

    /** `inProgress = false; maybeBackup();` on the queue of `member`. */
    method ReleaseQueue(member: MemberId)
      requires Valid() && member in queues && queues[member].inProgress
      modifies queues[member]
      ensures Valid()
      ensures queues[member].State() == ReplicationSpec.Release(old(queues[member].State()))
    {
      queues[member].Release();
      Distinct(member);
    }

    /** The queues of two different members are different objects. */
    lemma Distinct(member: MemberId)
      requires QueuesValid(queues) && member in queues
      ensures forall m :: m in queues && m != member ==> queues[m] != queues[member]
    {
      forall m | m in queues && m != member
        ensures queues[m] != queues[member]
      {
        assert queues[m].memberId == m;
      }
    }

    /** Fails every future still registered; the map itself is kept. */
    method Close()
      requires Valid()
      modifies futures.Values
      ensures Valid()
      ensures forall i :: i in futures ==> futures[i].state == Settle(old(futures[i].state), Failed(NotPrimary))
    {
      var todo := futures.Values;
      while todo != {}
        invariant todo <= futures.Values
        invariant forall i :: i in futures && futures[i] in todo ==> futures[i].state == old(futures[i].state)
        invariant forall i :: i in futures && futures[i] !in todo ==>
          futures[i].state == Settle(old(futures[i].state), Failed(NotPrimary))
        decreases |todo|
      {
        var future :| future in todo;
        future.CompleteExceptionally(NotPrimary);
        todo := todo - {future};
      }
    }
  }

  /**
   * Each queue is registered under its own member (so no two members share a
   * queue) and keeps the queue invariant.
   */
  ghost predicate QueuesValid(queues: map<MemberId, BackupQueue>)
    reads queues.Values
  {
    forall m :: m in queues ==> queues[m].memberId == m && QueueInv(queues[m].State())
  }

  /** Each future is registered under its own key, so no future is registered twice. */
  ghost predicate Keyed(futures: map<int, Future>)
  {
    forall i :: i in futures ==> futures[i].key == i
  }

  /** A second update of the same key overrides the first. */
  lemma UpdateTwice<K, V>(m: map<K, V>, k: K, a: V, b: V)
    ensures m[k := a][k := b] == m[k := b]
  {
  }

  /** The futures left once those keyed in (lo, hi] are removed. */
  function WithoutRange(fs: map<int, Future>, lo: int, hi: int): map<int, Future>
  {
    map i | i in fs && !(lo < i <= hi) :: fs[i]
  }

  lemma WithoutRangeStep(fs: map<int, Future>, lo: int, i: int)
    requires lo < i
    ensures WithoutRange(fs, lo, i - 1) - {i} == WithoutRange(fs, lo, i)
  {
  }
}
