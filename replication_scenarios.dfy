/**
 * Two runs of the synchronous replicator, driven as a client would drive it,
 * with the network's answers supplied as explicit response callbacks.  Each
 * run is split into rounds whose contracts give the exact queue states, and
 * the value-level lemmas below compute those states.
 */
module ReplicationScenarios {
  import opened ReplicationSpec
  import opened Futures
  import opened SynchronousReplication

  /** A queue with one operation in flight and nothing else waiting. */
  function Sending(acked: int, op: Operation): QueueState
  {
    QueueState([], true, acked, [op], op.index)
  }

  /** An idle queue whose backup acknowledged everything up to `acked`. */
  function Idle(acked: int): QueueState
  {
    QueueState([], false, acked, [], acked)
  }

  /**
   * The commit index `completeFutures` writes back can be lower than the one
   * it replaces: a backup that joins later starts with acknowledged index 0.
   * Backup a acknowledges operation 1 (commit 1); operation 2 then goes to a
   * and to a new backup b, and a's acknowledgment of it sets the commit to 0.
   */
  method CommitIndexCanFall() returns (before: int, after: int)
    ensures before == 1 && after == 0
  {
    var a, b := MemberId(1), MemberId(2);
    var r := new SynchronousReplicator(0);
    before := FirstRound(r, a);
    after := SecondRound(r, a, b);
  }

  /** Operation 1 goes to backup a alone, and a acknowledges it. */
  method FirstRound(r: SynchronousReplicator, a: MemberId) returns (c: int)
    requires r.Valid() && r.queues == map[] && r.futures == map[] && r.commitIndex == 0
    modifies r`queues, r`futures, r`commitIndex
    ensures r.Valid() && r.queues.Keys == {a} && r.queues[a].State() == Idle(1)
    ensures forall q :: q in r.queues.Values ==> fresh(q)
    ensures forall f :: f in r.futures.Values ==> fresh(f)
    ensures c == r.commitIndex == 1
  {
    var op := Operation(1, []);
    var f := ReplicateFirst(r, a, op);
    AckedOfOne(r, a, 0);
    r.OnResponse(a, Response(OK));
    AckSending(0, op);
    LeastAckedOne(map[a := 0][a := 1], a);
    c := r.commitIndex;
  }

  /**
   * Operation 2 goes to a and to the new backup b; a acknowledges it while b
   * has acknowledged nothing.
   */
  method SecondRound(r: SynchronousReplicator, a: MemberId, b: MemberId) returns (c: int)
    requires r.Valid() && r.queues.Keys == {a} && r.queues[a].State() == Idle(1) && a != b
    modifies r`queues, r`futures, r`commitIndex, r.queues.Values, r.futures.Values
    ensures c == r.commitIndex == 0
  {
    var op := Operation(2, []);
    var f := JoinBackup(r, a, b, op);
    AckedOfTwo(r, a, b, 1, 0);
    r.OnResponse(a, Response(OK));
    LeastAckedTwo(map[a := 1, b := 0][a := 2], a, b);
    c := r.commitIndex;
  }

  /** `replicate(op)` to [a, b] when only a has a queue, idle after acknowledging 1. */
  method JoinBackup(r: SynchronousReplicator, a: MemberId, b: MemberId, op: Operation) returns (f: Future)
    requires r.Valid() && r.queues.Keys == {a} && r.queues[a].State() == Idle(1) && a != b
    modifies r`queues, r`futures, r.queues.Values
    ensures r.Valid()
    ensures r.queues.Keys == {a, b} && r.queues[a] == old(r.queues[a])
    ensures r.queues[a].State() == Sending(1, op) && r.queues[b].State() == Sending(0, op)
    ensures r.futures == old(r.futures)[op.index := f] && fresh(f)
  {
    assert r.QueueStates() == map[a := Idle(1)];
    f := r.Replicate(op, [a, b]);
    OneMoreBackup(Idle(1), op, a, b);
    assert r.QueueStates()[a] == Sending(1, op) && r.QueueStates()[b] == Sending(0, op);
    assert r.QueueStates().Keys == r.queues.Keys;
  }

  /**
   * Closing fails every pending future but keeps them registered, and a
   * later acknowledgment cannot turn a failed future into a successful one;
   * it still removes it from the map.
   */
  method CloseThenLateResponse() returns (f10: Future, f11: Future, registered: set<int>)
    ensures f10.state == Failed(NotPrimary) && f11.state == Failed(NotPrimary)
    ensures registered == {11}
  {
    var a := MemberId(1);
    var r := new SynchronousReplicator(9);
    f10, f11 := ReplicateTwice(r, a);
    r.Close();
    assert r.futures[10] == f10 && r.futures[11] == f11;
    registered := LateResponse(r, a, f10, f11);
  }

  /** Operations 10 and 11 go to backup a; 10 is in flight, 11 waits. */
  method ReplicateTwice(r: SynchronousReplicator, a: MemberId) returns (f10: Future, f11: Future)
    requires r.Valid() && r.queues == map[] && r.futures == map[] && r.commitIndex == 9
    modifies r`queues, r`futures
    ensures r.Valid() && r.commitIndex == 9 && fresh(f10) && fresh(f11)
    ensures r.queues.Keys == {a} && fresh(r.queues[a])
    ensures r.queues[a].inProgress && r.queues[a].lastIndex == 10 && r.queues[a].ackedIndex == 0
    ensures r.futures == map[10 := f10, 11 := f11]
    ensures f10.state == Pending && f11.state == Pending
  {
    var op10, op11 := Operation(10, []), Operation(11, []);
    f10 := ReplicateFirst(r, a, op10);
    f11 := ReplicateBuffered(r, a, op11);
  }

  /** The first operation for backup a creates its queue and is sent at once. */
  method ReplicateFirst(r: SynchronousReplicator, a: MemberId, op: Operation) returns (f: Future)
    requires r.Valid() && r.queues == map[] && r.futures == map[]
    modifies r`queues, r`futures
    ensures r.Valid() && r.commitIndex == old(r.commitIndex) && fresh(f)
    ensures r.queues.Keys == {a} && fresh(r.queues[a]) && r.queues[a].State() == Sending(0, op)
    ensures r.futures == map[op.index := f] && f.state == Pending
  {
    f := r.Replicate(op, [a]);
    FreshBackup(map[], op, a);
    assert r.QueueStates() == map[a := Sending(0, op)];
    assert r.QueueStates().Keys == r.queues.Keys;
  }

  /** A second operation for backup a waits behind the batch in flight. */
  method ReplicateBuffered(r: SynchronousReplicator, a: MemberId, op: Operation) returns (f: Future)
    requires r.Valid() && r.queues.Keys == {a} && r.queues[a].inProgress
    requires r.queues[a].operations == [] && r.queues[a].batch != []
    modifies r`queues, r`futures, r.queues.Values
    ensures r.Valid() && r.commitIndex == old(r.commitIndex) && fresh(f)
    ensures r.queues.Keys == {a} && r.queues[a] == old(r.queues[a])
    ensures r.queues[a].State() == old(r.queues[a].State()).(operations := [op])
    ensures r.futures == old(r.futures)[op.index := f] && f.state == Pending
  {
    ghost var s := r.queues[a].State();
    assert r.QueueStates() == map[a := s];
    f := r.Replicate(op, [a]);
    BusyBackup(s, op, a);
    assert r.QueueStates().Keys == r.queues.Keys == {a};
    assert r.QueueStates()[a] == r.queues[a].State();
  }

  /** Backup a acknowledges operation 10 after the replicator was closed. */
  method LateResponse(r: SynchronousReplicator, a: MemberId, f10: Future, f11: Future)
    returns (registered: set<int>)
    requires r.Valid() && r.commitIndex == 9
    requires r.queues.Keys == {a}
    requires r.queues[a].inProgress && r.queues[a].lastIndex == 10 && r.queues[a].ackedIndex == 0
    requires r.futures == map[10 := f10, 11 := f11]
    requires f10.state == Failed(NotPrimary) && f11.state == Failed(NotPrimary)
    modifies r`commitIndex, r`futures, r.futures.Values, r.queues[a]
    ensures f10.state == Failed(NotPrimary) && f11.state == Failed(NotPrimary)
    ensures registered == {11}
  {
    AckedOfOne(r, a, 0);
    r.OnResponse(a, Response(OK));
    LeastAckedOne(map[a := 0][a := 10], a);
    assert r.commitIndex == 10;
    DropFirst(f10, f11);
    registered := r.futures.Keys;
  }

  /** Acknowledging index 10 over commit 9 removes exactly the future for 10. */
  lemma DropFirst(f10: Future, f11: Future)
    ensures WithoutRange(map[10 := f10, 11 := f11], 9, 10) == map[11 := f11]
  {
  }

  /** The acknowledged indices of a replicator with a single backup. */
  lemma AckedOfOne(r: SynchronousReplicator, a: MemberId, x: int)
    requires r.queues.Keys == {a} && r.queues[a].ackedIndex == x
    ensures r.AckedIndices() == map[a := x]
  {
  }

  /** The acknowledged indices of a replicator with exactly two backups. */
  lemma AckedOfTwo(r: SynchronousReplicator, a: MemberId, b: MemberId, x: int, y: int)
    requires r.queues.Keys == {a, b} && r.queues[a].ackedIndex == x && r.queues[b].ackedIndex == y
    ensures r.AckedIndices() == map[a := x, b := y]
  {
  }

  /** `replicate(op)` to one backup that has no queue yet. */
  lemma FreshBackup(qs: map<MemberId, QueueState>, op: Operation, a: MemberId)
    requires AllQueuesValid(qs) && a !in qs
    ensures ReplicationSpec.Replicate(qs, op, [a]) == qs[a := Sending(0, op)]
  {
    assert [a][..0] == [];
  }

  /** `replicate(op)` to one backup whose queue has a batch in flight. */
  lemma BusyBackup(s: QueueState, op: Operation, a: MemberId)
    requires QueueInv(s) && s.inProgress
    ensures ReplicationSpec.Replicate(map[a := s], op, [a])
         == map[a := s.(operations := s.operations + [op])]
  {
    assert [a][..0] == [];
  }

  /** `replicate(op)` to [a, b] when only a already has a queue. */
  lemma OneMoreBackup(s: QueueState, op: Operation, a: MemberId, b: MemberId)
    requires QueueInv(s) && a != b
    ensures ReplicationSpec.Replicate(map[a := s], op, [a, b])
         == map[a := ReplicationSpec.Add(s, op), b := ReplicationSpec.Add(EmptyQueue, op)]
  {
    var qs := map[a := s];
    assert [a][..0] == [];
    assert ReplicationSpec.Replicate(qs, op, [a]) == qs[a := ReplicationSpec.Add(s, op)];
    assert [a, b][..1] == [a];
  }

  /** A successful answer to a one-operation batch leaves the queue idle. */
  lemma AckSending(acked: int, op: Operation)
    ensures Respond(Sending(acked, op), true) == Idle(op.index)
  {
  }

  /** With a single backup the commit index is that backup's acknowledgment. */
  lemma LeastAckedOne(acked: map<MemberId, int>, a: MemberId)
    requires acked.Keys == {a}
    ensures LeastAcked(acked) == acked[a]
  {
    LeastAckedIsCommitIndex(acked);
  }

  /** With two backups the commit index is the smaller acknowledgment. */
  lemma LeastAckedTwo(acked: map<MemberId, int>, a: MemberId, b: MemberId)
    requires acked.Keys == {a, b} && a != b
    ensures LeastAcked(acked) == Min(acked[a], acked[b])
  {
    LeastAckedIsCommitIndex(acked);
  }
}
