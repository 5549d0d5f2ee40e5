/**
 * Clients of a memory snapshot, as a state machine checkpointing into it
 * would drive it: writer sessions one after another, then complete, persist
 * and read.
 */
module SnapshotScenarios {
  import opened Wrappers
  import opened Buffers
  import opened Snapshots

  /**
   * Two writer sessions on a new snapshot: the second continues where the
   * first ended, so the payload after the header is both writes in order.
   */
  method SessionsAppend(store: SnapshotStore, x: seq<byte>, y: seq<byte>) returns (s: MemorySnapshot)
    ensures s.Valid() && s.Writable()
    ensures Read(s.bytes.data, DescriptorBytes, |x| + |y|) == x + y
    ensures s.buffer.position == DescriptorBytes + |x| + |y|
    ensures s.buffer.mark == Some(DescriptorBytes + |x| + |y|)
  {
    s := store.NewSnapshot(1, 1, 0);
    ghost var header := s.bytes.data;
    Session(s, x);
    Session(s, y);
    ConsecutiveWrites(header, DescriptorBytes, x, y);
  }

  /** One writer session that writes `src`: open, write, close. */
  method Session(s: MemorySnapshot, src: seq<byte>)
    requires s.Valid() && s.Writable() && s.buffer.limit.None?
    requires s.buffer.mark == Some(s.buffer.position) && s.buffer.offset == 0
    modifies s`buffer, s`writerOpen, s.bytes
    ensures s.Valid() && s.Writable() && s.buffer.limit.None? && s.buffer.offset == 0
    ensures s.buffer.position == old(s.buffer.position) + |src|
    ensures s.buffer.mark == Some(s.buffer.position)
    ensures s.bytes.data == Overwrite(old(s.bytes.data), old(s.buffer.position), src)
  {
    var session := s.OpenWriter();
    WriteThenClose(session.value, src);
  }

  /**
   * Completing twice: the second flip makes the limit the position the first
   * one left, 0, so nothing is readable any more.
   */
  method CompleteTwice(store: SnapshotStore, x: seq<byte>) returns (first: nat, second: nat)
    ensures first == DescriptorBytes + |x| && second == 0
  {
    var s := store.NewSnapshot(1, 1, 0);
    Session(s, x);
    var done := s.Complete();
    first := Remaining(s.buffer);
    done := s.Complete();
    second := Remaining(s.buffer);
  }

  /** After complete the buffer has no mark, so opening a reader fails. */
  method ReaderAfterComplete(store: SnapshotStore, x: seq<byte>) returns (r: Result<SnapshotReader, SnapshotError>)
    ensures r == Failure(BufferFailure(InvalidMark))
  {
    var s := store.NewSnapshot(1, 1, 0);
    Session(s, x);
    var done := s.Complete();
    r := s.OpenReader();
  }

  /** After complete no writer can be opened. */
  method WriterAfterComplete(store: SnapshotStore) returns (r: Result<SnapshotWriter, SnapshotError>)
    ensures r == Failure(IllegalState)
  {
    var s := store.NewSnapshot(1, 1, 0);
    var done := s.Complete();
    r := s.OpenWriter();
  }

  /** A second writer while the first is still open is refused. */
  method SecondWriter(store: SnapshotStore) returns (r: Result<SnapshotWriter, SnapshotError>)
    ensures r == Failure(IllegalState)
  {
    var s := store.NewSnapshot(1, 1, 0);
    var first := s.OpenWriter();
    r := s.OpenWriter();
  }

  /**
   * Persisting a written but not completed snapshot under DISK storage copies
   * the whole array up to the write cursor, header included, into the new
   * snapshot's payload.
   */
  method PersistWritten(x: seq<byte>) returns (copy: MemorySnapshot, payload: seq<byte>)
    ensures payload == BlankHeader + x
    ensures copy.buffer.position == DescriptorBytes + |payload|
    ensures Read(copy.bytes.data, DescriptorBytes, |payload|) == payload
  {
    var store := new SnapshotStore(DISK);
    var s := store.NewSnapshot(1, 1, 0);
    ghost var header := s.bytes.data;
    Session(s, x);
    HeaderThenPayload(header, x);
    copy := s.Persist();
    payload := Read(s.bytes.data, 0, DescriptorBytes + |x|);
  }

  /**
   * Persisting after complete under DISK storage: the second flip leaves no
   * bytes remaining, so the new snapshot receives nothing past its header.
   */
  method PersistAfterComplete(x: seq<byte>) returns (copy: MemorySnapshot)
    ensures copy.buffer.position == DescriptorBytes
  {
    var store := new SnapshotStore(DISK);
    var s := store.NewSnapshot(1, 1, 0);
    Session(s, x);
    var done := s.Complete();
    copy := s.Persist();
  }

  /** Under MEMORY storage persist hands back the snapshot itself, untouched. */
  method PersistInMemory(x: seq<byte>) returns (same: bool, position: nat)
    ensures same && position == DescriptorBytes + |x|
  {
    var store := new SnapshotStore(MEMORY);
    var s := store.NewSnapshot(1, 1, 0);
    Session(s, x);
    var r := s.Persist();
    same := r == s;
    position := s.buffer.position;
  }

  /**
   * The identity a snapshot reports is the one the store created it with.
   * Writing, completing and persisting leave it alone, and a persisted copy
   * reports the same identity, under every storage level.
   */
  method IdentityKept(level: StorageLevel, id: int, index: int, timestamp: int, x: seq<byte>)
    returns (before: (int, int, int), after: (int, int, int), copied: (int, int, int))
    ensures before == (id, index, timestamp)
    ensures after == before && copied == before
  {
    var store := new SnapshotStore(level);
    var s := store.NewSnapshot(id, index, timestamp);
    before := (s.SnapshotId(), s.Index(), s.Timestamp());
    Session(s, x);
    var done := s.Complete();
    var copy := s.Persist();
    after := (s.SnapshotId(), s.Index(), s.Timestamp());
    copied := (copy.SnapshotId(), copy.Index(), copy.Timestamp());
  }

  /**
   * isPersisted holds exactly under MEMORY storage, and exactly then persist
   * hands back the snapshot itself; under MAPPED and DISK it hands back a new one.
   */
  method PersistedByLevel(level: StorageLevel) returns (persisted: bool, same: bool)
    ensures persisted <==> level == MEMORY
    ensures same <==> persisted
  {
    var store := new SnapshotStore(level);
    var s := store.NewSnapshot(1, 1, 0);
    persisted := s.IsPersisted();
    var r := s.Persist();
    same := r == s;
  }

  /** The zero header followed by `x`, read from the start of the array. */
  lemma HeaderThenPayload(header: seq<byte>, x: seq<byte>)
    requires header == BlankHeader
    ensures Read(Overwrite(header, DescriptorBytes, x), 0, DescriptorBytes + |x|) == header + x
  {
    var d := Overwrite(header, DescriptorBytes, x);
    ReadAfterWrite(header, DescriptorBytes, x);
    forall k | 0 <= k < DescriptorBytes + |x|
      ensures Read(d, 0, DescriptorBytes + |x|)[k] == (header + x)[k]
    {
      if k >= DescriptorBytes {
        assert Read(d, 0, DescriptorBytes + |x|)[k] == Read(d, DescriptorBytes, |x|)[k - DescriptorBytes];
      }
    }
  }
}
