/**
 * Value-level specification of the synchronous primary-to-backup replicator:
 * the state of one per-backup queue, what each queue step does to it, what
 * `replicate` does to the whole map of queues, how the commit index is chosen,
 * and the lemmas that relate these steps.  The classes in module
 * SynchronousReplication are proved against these functions.
 */
module ReplicationSpec {

  /** The identity of a cluster member. */
  datatype MemberId = MemberId(id: nat)

  /** A replicated operation; the replicator only looks at its log index. */
  datatype Operation = Operation(index: int, payload: seq<int>)

  /** The most operations one backup request carries. */
  const MaxBatch: nat := 100

  function Min(a: int, b: int): int
  {
    if a <= b then a else b
  }

  /**
   * One backup queue: the operations still waiting to be sent, whether a batch
   * is in flight, the last index the backup acknowledged, and the batch in
   * flight together with its last index, both captured by the response handler.
   */
  datatype QueueState = QueueState(
    operations: seq<Operation>,
    inProgress: bool,
    ackedIndex: int,
    batch: seq<Operation>,
    lastIndex: int)

  /** The queue `computeIfAbsent` creates: empty, idle, nothing acknowledged. */
  const EmptyQueue: QueueState := QueueState([], false, 0, [], 0)

  /** Every operation the queue holds and the backup has not yet answered for. */
  function Outstanding(s: QueueState): seq<Operation>
  {
    s.batch + s.operations
  }

  /** The index of the last operation of a batch, 0 for an empty one. */
  function LastIndex(batch: seq<Operation>): int
  {
    if batch == [] then 0 else batch[|batch| - 1].index
  }

  /**
   * What holds of a queue between steps: one batch of at most 100 operations in
   * flight exactly when `inProgress`, its last index recorded, and an idle queue
   * has nothing waiting (every step ends by trying to send).
   */
  predicate QueueInv(s: QueueState)
  {
    && |s.batch| <= MaxBatch
    && (s.inProgress <==> s.batch != [])
    && (s.inProgress ==> s.lastIndex == LastIndex(s.batch))
    && (!s.inProgress ==> s.operations == [])
  }

  predicate Increasing(ops: seq<Operation>)
  {
    forall i, j :: 0 <= i < j < |ops| ==> ops[i].index < ops[j].index
  }

  /** The operations `backup()` takes from the head of the queue. */
  function NextBatch(ops: seq<Operation>): seq<Operation>
  {
    ops[..Min(MaxBatch, |ops|)]
  }

  /**
   * A batch is the head of the queue in FIFO order, at most 100 long, never
   * empty when the queue is not, and shorter than 100 only when it took the
   * whole queue.
   */
  lemma BatchShape(ops: seq<Operation>)
    ensures NextBatch(ops) + ops[|NextBatch(ops)|..] == ops
    ensures |NextBatch(ops)| <= MaxBatch
    ensures ops != [] ==> NextBatch(ops) != []
    ensures |NextBatch(ops)| < MaxBatch ==> NextBatch(ops) == ops
  {
  }

  /** `backup()`: move the next batch from the queue into flight. */
  function Backup(s: QueueState): (r: QueueState)
    ensures r.batch + r.operations == s.operations
    ensures |r.batch| == Min(MaxBatch, |s.operations|)
    ensures r.lastIndex == LastIndex(r.batch)
    ensures r.inProgress == s.inProgress && r.ackedIndex == s.ackedIndex
  {
    var b := NextBatch(s.operations);
    assert b + s.operations[|b|..] == s.operations;
    s.(operations := s.operations[|b|..], batch := b, lastIndex := LastIndex(b))
  }

  /**
   * `maybeBackup()`: a send starts only on an idle queue that holds operations,
   * and the batch it sends is never empty; otherwise nothing changes.
   */
  function MaybeBackup(s: QueueState): (r: QueueState)
    ensures r.inProgress <==> s.inProgress || s.operations != []
    ensures r != s ==> !s.inProgress && s.operations != [] && r.batch != []
    ensures r != s ==> Outstanding(r) == s.operations
    ensures r.ackedIndex == s.ackedIndex
  {
    if !s.inProgress && s.operations != [] then Backup(s.(inProgress := true)) else s
  }

  /**
   * `add(op)`: the operation joins the tail; a busy queue only buffers it, an
   * idle (hence empty) queue sends it at once as a batch of one.
   */
  function Add(s: QueueState, op: Operation): (r: QueueState)
    requires QueueInv(s)
    ensures QueueInv(r)
    ensures Outstanding(r) == Outstanding(s) + [op]
    ensures r.ackedIndex == s.ackedIndex
    ensures s.inProgress ==> r == s.(operations := s.operations + [op])
    ensures !s.inProgress ==> r.inProgress && r.batch == [op] && r.operations == [] && r.lastIndex == op.index
  {
    MaybeBackup(s.(operations := s.operations + [op]))
  }

  /** An OK response: the backup has everything up to the batch's last index. */
  function Acknowledge(s: QueueState): QueueState
  {
    s.(ackedIndex := s.lastIndex)
  }

  /**
   * The end of every response: the batch is dropped (never put back), the queue
   * becomes idle and at once sends whatever accumulated meanwhile.
   */
  function Release(s: QueueState): (r: QueueState)
    requires QueueInv(s) && s.inProgress
    ensures QueueInv(r)
    ensures Outstanding(r) == s.operations
    ensures r.ackedIndex == s.ackedIndex
    ensures r.inProgress <==> s.operations != []
    ensures r.batch == NextBatch(s.operations)
  {
    MaybeBackup(s.(inProgress := false, batch := []))
  }

  /** The whole response handler; `ok` is "no transport error and status OK". */
  function Respond(s: QueueState, ok: bool): (r: QueueState)
    requires QueueInv(s) && s.inProgress
    ensures QueueInv(r)
    ensures r.ackedIndex == if ok then s.lastIndex else s.ackedIndex
    ensures Outstanding(r) == s.operations
  {
    Release(if ok then Acknowledge(s) else s)
  }

  /**
   * With operations queued in index order, an acknowledgment is cumulative: the
   * acknowledged index is below every operation the queue still holds.
   */
  lemma {:induction false} AckPrecedesOutstanding(s: QueueState)
    requires QueueInv(s) && s.inProgress && Increasing(Outstanding(s))
    ensures var r := Respond(s, true);
      forall i :: 0 <= i < |Outstanding(r)| ==> r.ackedIndex < Outstanding(r)[i].index
  {
    var r := Respond(s, true);
    var n := |s.batch|;
    forall i | 0 <= i < |Outstanding(r)|
      ensures r.ackedIndex < Outstanding(r)[i].index
    {
      assert Outstanding(r)[i] == Outstanding(s)[n + i];
      assert s.lastIndex == Outstanding(s)[n - 1].index;
    }
  }

  /** Adding an operation with a larger index keeps the queue in index order. */
  lemma {:induction false} AddKeepsIndexOrder(s: QueueState, op: Operation)
    requires QueueInv(s) && Increasing(Outstanding(s))
    requires forall i :: 0 <= i < |Outstanding(s)| ==> Outstanding(s)[i].index < op.index
    ensures Increasing(Outstanding(Add(s, op)))
  {
    var o := Outstanding(s);
    assert Outstanding(Add(s, op)) == o + [op];
    forall i, j | 0 <= i < j < |o + [op]|
      ensures (o + [op])[i].index < (o + [op])[j].index
    {
      if j < |o| {
        assert (o + [op])[i] == o[i] && (o + [op])[j] == o[j];
      } else {
        assert (o + [op])[i] == o[i] && (o + [op])[j] == op;
      }
    }
  }

  /** The backup has acknowledged none of what the queue still holds. */
  predicate AckBelowOutstanding(s: QueueState)
  {
    forall i :: 0 <= i < |Outstanding(s)| ==> s.ackedIndex < Outstanding(s)[i].index
  }

  /** What a queue keeps in index order with the acknowledgment below it. */
  predicate AckOrdered(s: QueueState)
  {
    QueueInv(s) && Increasing(Outstanding(s)) && AckBelowOutstanding(s)
  }

  /**
   * A response, OK or not, never moves the acknowledged index back, and the
   * queue stays in index order with the acknowledgment below it.
   */
  lemma {:induction false} RespondKeepsAckOrder(s: QueueState, ok: bool)
    requires AckOrdered(s) && s.inProgress
    ensures Respond(s, ok).ackedIndex >= s.ackedIndex
    ensures AckOrdered(Respond(s, ok))
  {
    var r := Respond(s, ok);
    var o, n := Outstanding(s), |s.batch|;
    assert o[0] == s.batch[0] && o[n - 1] == s.batch[n - 1];
    assert Outstanding(r) == o[n..];
    if ok {
      AckPrecedesOutstanding(s);
    }
  }

  /** Adding an operation above the acknowledgment keeps the queue ordered. */
  lemma {:induction false} AddKeepsAckOrder(s: QueueState, op: Operation)
    requires AckOrdered(s)
    requires forall i :: 0 <= i < |Outstanding(s)| ==> Outstanding(s)[i].index < op.index
    requires s.ackedIndex < op.index
    ensures AckOrdered(Add(s, op))
  {
    AddKeepsIndexOrder(s, op);
    var o := Outstanding(s);
    assert Outstanding(Add(s, op)) == o + [op];
    forall i | 0 <= i < |o + [op]|
      ensures s.ackedIndex < (o + [op])[i].index
    {
      if i < |o| {
        assert (o + [op])[i] == o[i];
      }
    }
  }

  /**
   * `clear(k)`: drop the leading run of queued operations whose index is at
   * most `k`, stopping at the first larger one.
   */
  function ClearUpTo(ops: seq<Operation>, k: int): seq<Operation>
  {
    if ops != [] && ops[0].index <= k then ClearUpTo(ops[1..], k) else ops
  }

  /**
   * What is left is a suffix; everything dropped has index at most `k`, and
   * what is left is empty or starts above `k`.
   */
  lemma {:induction false} ClearUpToShape(ops: seq<Operation>, k: int)
    ensures var r := ClearUpTo(ops, k);
      && |r| <= |ops| && r == ops[|ops| - |r|..]
      && (forall i :: 0 <= i < |ops| - |r| ==> ops[i].index <= k)
      && (r == [] || r[0].index > k)
  {
    if ops != [] && ops[0].index <= k {
      ClearUpToShape(ops[1..], k);
      var r := ClearUpTo(ops, k);
      assert ops[1..][|ops| - 1 - |r|..] == ops[|ops| - |r|..];
      forall i | 0 <= i < |ops| - |r|
        ensures ops[i].index <= k
      {
        if i > 0 {
          assert ops[i] == ops[1..][i - 1];
        }
      }
    }
  }

  /** Clearing twice with the same bound is clearing once. */
  lemma ClearIdempotent(ops: seq<Operation>, k: int)
    ensures ClearUpTo(ClearUpTo(ops, k), k) == ClearUpTo(ops, k)
  {
    ClearUpToShape(ops, k);
  }

  /** `clear(k)` on a queue: only the waiting operations change. */
  function Clear(s: QueueState, k: int): (r: QueueState)
    requires QueueInv(s)
    ensures QueueInv(r)
    ensures r.inProgress == s.inProgress && r.ackedIndex == s.ackedIndex && r.batch == s.batch
    ensures Outstanding(r) == s.batch + ClearUpTo(s.operations, k)
  {
    s.(operations := ClearUpTo(s.operations, k))
  }

  /** Clearing waiting operations keeps the queue ordered. */
  lemma {:induction false} ClearKeepsAckOrder(s: QueueState, k: int)
    requires AckOrdered(s)
    ensures AckOrdered(Clear(s, k))
  {
    var o, n := Outstanding(s), |s.batch|;
    var rest := ClearUpTo(s.operations, k);
    ClearUpToShape(s.operations, k);
    var d := |s.operations| - |rest|;
    assert Outstanding(Clear(s, k)) == s.batch + rest;
    forall i | 0 <= i < |s.batch + rest|
      ensures (s.batch + rest)[i] == o[if i < n then i else i + d]
    {
      if i >= n {
        assert rest[i - n] == s.operations[i - n + d];
      }
    }
  }

  /** The queue of member `m`, or the one `computeIfAbsent` would create. */
  function QueueOf(qs: map<MemberId, QueueState>, m: MemberId): QueueState
  {
    if m in qs then qs[m] else EmptyQueue
  }

  predicate AllQueuesValid(qs: map<MemberId, QueueState>)
  {
    forall m :: m in qs ==> QueueInv(qs[m])
  }

  /**
   * `replicate(op)` on a non-empty backup list: for each backup in turn, create
   * its queue if absent and add the operation to it.
   */
  function Replicate(qs: map<MemberId, QueueState>, op: Operation, backups: seq<MemberId>): (r: map<MemberId, QueueState>)
    requires AllQueuesValid(qs)
    ensures AllQueuesValid(r)
    ensures r.Keys == qs.Keys + set m | m in backups
    ensures forall m :: m in qs && m !in backups ==> r[m] == qs[m]
    decreases |backups|
  {
    if backups == [] then qs
    else
      var init, m := backups[..|backups| - 1], backups[|backups| - 1];
      assert backups == init + [m];
      var prev := Replicate(qs, op, init);
      prev[m := Add(QueueOf(prev, m), op)]
  }

  /** `Replicate` over a longer prefix of the backup list is one more `Add`. */
  lemma ReplicatePrefixStep(qs: map<MemberId, QueueState>, op: Operation, backups: seq<MemberId>, j: nat)
    requires AllQueuesValid(qs) && j < |backups|
    ensures var prev := Replicate(qs, op, backups[..j]);
      Replicate(qs, op, backups[..j + 1]) == prev[backups[j] := Add(QueueOf(prev, backups[j]), op)]
  {
    assert backups[..j + 1][..j] == backups[..j];
  }

  /**
   * `replicate(op)` appends the operation to the tail of every backup's queue,
   * once per time the backup is listed.
   */
  lemma {:induction false} ReplicateAppends(qs: map<MemberId, QueueState>, op: Operation, backups: seq<MemberId>, m: MemberId)
    requires AllQueuesValid(qs)
    ensures Outstanding(QueueOf(Replicate(qs, op, backups), m))
         == Outstanding(QueueOf(qs, m)) + seq(multiset(backups)[m], _ => op)
    decreases |backups|
  {
    if backups == [] {
      assert Outstanding(QueueOf(qs, m)) + seq(0, _ => op) == Outstanding(QueueOf(qs, m));
    } else {
      var init, last := backups[..|backups| - 1], backups[|backups| - 1];
      CountSnoc(backups, m);
      ReplicateAppends(qs, op, init, m);
      ReplicateLastStep(qs, op, backups, m);
      var prev := QueueOf(Replicate(qs, op, init), m);
      if last == m {
        assert QueueInv(prev);
        assert Outstanding(Add(prev, op)) == Outstanding(prev) + [op];
        AppendOne(Outstanding(QueueOf(qs, m)), op, multiset(init)[m]);
      }
    }
  }

  /** `replicate(op)` leaves every backup's acknowledged index alone. */
  lemma {:induction false} ReplicateKeepsAcked(qs: map<MemberId, QueueState>, op: Operation, backups: seq<MemberId>, m: MemberId)
    requires AllQueuesValid(qs)
    ensures QueueOf(Replicate(qs, op, backups), m).ackedIndex == QueueOf(qs, m).ackedIndex
    decreases |backups|
  {
    if backups != [] {
      var init := backups[..|backups| - 1];
      ReplicateKeepsAcked(qs, op, init, m);
      ReplicateLastStep(qs, op, backups, m);
      var prev := QueueOf(Replicate(qs, op, init), m);
      assert QueueInv(prev);
    }
  }

  /** Listing `m` once more at the end counts it once more. */
  lemma CountSnoc(backups: seq<MemberId>, m: MemberId)
    requires backups != []
    ensures multiset(backups)[m]
         == multiset(backups[..|backups| - 1])[m] + (if backups[|backups| - 1] == m then 1 else 0)
  {
    assert backups == backups[..|backups| - 1] + [backups[|backups| - 1]];
  }

  /** One unfolding of `Replicate`, seen from member `m`. */
  lemma ReplicateLastStep(qs: map<MemberId, QueueState>, op: Operation, backups: seq<MemberId>, m: MemberId)
    requires AllQueuesValid(qs) && backups != []
    ensures var prev := Replicate(qs, op, backups[..|backups| - 1]);
      QueueOf(Replicate(qs, op, backups), m)
        == if backups[|backups| - 1] == m then Add(QueueOf(prev, m), op) else QueueOf(prev, m)
  {
  }

  /** One more copy of `op` after `n` of them. */
  lemma AppendOne(ops: seq<Operation>, op: Operation, n: nat)
    ensures ops + seq(n, _ => op) + [op] == ops + seq(n + 1, _ => op)
  {
    assert seq(n, _ => op) + [op] == seq(n + 1, _ => op);
  }

  /**
   * `reduce(Math::min).orElse(0)` over the queues' acknowledged indices: the
   * queues are folded in one at a time, in no particular order.
   */
  ghost function LeastAcked(acked: map<MemberId, int>): int
    decreases |acked|
  {
    if acked == map[] then 0
    else
      var m := Pick(acked);
      var rest := acked - {m};
      if rest == map[] then acked[m] else Min(acked[m], LeastAcked(rest))
  }

  /** Some queue of a non-empty map, the next one `reduce` folds in. */
  ghost function Pick(acked: map<MemberId, int>): (m: MemberId)
    requires acked != map[]
    ensures m in acked
  {
    var k :| k in acked; k
  }

  /** The fold meets the declarative commit index. */
  lemma {:induction false} LeastAckedIsCommitIndex(acked: map<MemberId, int>)
    ensures IsCommitIndex(LeastAcked(acked), acked)
    decreases |acked|
  {
    if acked != map[] {
      var m := Pick(acked);
      var rest := acked - {m};
      if rest != map[] {
        LeastAckedIsCommitIndex(rest);
        assert acked == rest[m := acked[m]];
        CommitIndexStep(LeastAcked(rest), rest, m, acked[m]);
      } else {
        assert acked == map[m := acked[m]];
      }
    }
  }

  /**
   * The commit index `completeFutures` computes: the least acknowledged index
   * over all queues, or 0 when there are none.
   */
  ghost predicate IsCommitIndex(c: int, acked: map<MemberId, int>)
  {
    if acked == map[] then c == 0
    else
      && (exists m :: m in acked && acked[m] == c)
      && (forall m :: m in acked ==> c <= acked[m])
  }

  /**
   * The running minimum of `reduce(Math::min)`: folding one more queue's
   * acknowledgment into a non-empty map keeps the least value.
   */
  lemma CommitIndexStep(c: int, acked: map<MemberId, int>, m: MemberId, a: int)
    requires acked != map[] && m !in acked && IsCommitIndex(c, acked)
    ensures IsCommitIndex(Min(c, a), acked[m := a])
  {
    var w :| w in acked && acked[w] == c;
    if a < c {
      assert acked[m := a][m] == a;
    } else {
      assert acked[m := a][w] == c;
    }
  }

  /** The commit index is determined by the acknowledgments. */
  lemma CommitIndexUnique(c: int, d: int, acked: map<MemberId, int>)
    requires IsCommitIndex(c, acked) && IsCommitIndex(d, acked)
    ensures c == d
  {
    if acked != map[] {
      var m :| m in acked && acked[m] == c;
      var n :| n in acked && acked[n] == d;
    }
  }

  /**
   * A backup that never acknowledges past `a` holds the commit index at `a` or
   * below, however far the other backups get.
   */
  lemma CommitBoundedBySlowestBackup(acked: map<MemberId, int>, m: MemberId)
    requires m in acked
    ensures LeastAcked(acked) <= acked[m]
  {
    LeastAckedIsCommitIndex(acked);
  }
}
