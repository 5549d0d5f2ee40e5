/**
 * The lifecycle of an in-memory Raft snapshot: a fixed 64-byte descriptor
 * header at the front of a heap buffer, writer sessions that each continue at
 * the buffer's mark, `complete` flipping the buffer and locking the
 * descriptor, and `persist` copying the buffer into a snapshot the store
 * allocates when its storage level is not MEMORY.
 */
module Snapshots {
  import opened Wrappers
  import opened Buffers

  /** The size of the descriptor header at the front of every snapshot buffer. */
  const DescriptorBytes: nat := 64

  /** The header region of a newly allocated buffer: all zero. */
  const BlankHeader: seq<byte> := seq(DescriptorBytes, _ => 0)

  datatype StorageLevel = MEMORY | MAPPED | DISK

  datatype SnapshotError =
    | IllegalState                     // a second writer, or a writer after complete
    | BufferFailure(cause: BufferError)

  /** The header fields; `lock` makes them final. */
  class SnapshotDescriptor {
    const snapshotId: int
    const index: int
    const timestamp: int
    var locked: bool

    constructor (snapshotId: int, index: int, timestamp: int)
      ensures this.snapshotId == snapshotId && this.index == index && this.timestamp == timestamp
      ensures !locked
    {
      this.snapshotId := snapshotId;
      this.index := index;
      this.timestamp := timestamp;
      locked := false;
    }

    method Lock()
      modifies this
      ensures locked
    {
      locked := true;
    }
  }

  /** The storage the snapshots belong to, reduced to its storage level and allocation. */
  class SnapshotStore {
    const storageLevel: StorageLevel

    constructor (storageLevel: StorageLevel)
      ensures this.storageLevel == storageLevel
    {
      this.storageLevel := storageLevel;
    }

    /**
     * A new snapshot with the given identity over a freshly allocated buffer
     * whose header region is zero.
     */
    method NewSnapshot(snapshotId: int, index: int, timestamp: int) returns (s: MemorySnapshot)
      ensures fresh(s) && fresh(s.bytes) && fresh(s.descriptor) && s.store == this
      ensures s.Valid() && s.Writable()
      ensures s.SnapshotId() == snapshotId && s.Index() == index && s.Timestamp() == timestamp
      ensures !s.descriptor.locked && s.bytes.data == BlankHeader
      ensures s.buffer == Buffer(0, DescriptorBytes, None, Some(DescriptorBytes))
    {
      var bytes := new HeapBytes(DescriptorBytes);
      var descriptor := new SnapshotDescriptor(snapshotId, index, timestamp);
      s := new MemorySnapshot(bytes, Allocated, descriptor, this);
    }
  }

  class MemorySnapshot {
    /** The backing array of `buffer`, shared with the slices handed to writers and readers. */
    const bytes: HeapBytes
    /** The cursor of the snapshot's own buffer; its mark is where the next writer starts. */
    var buffer: Buffer
    const descriptor: SnapshotDescriptor
    const store: SnapshotStore
    /** Base-class state: a writer is open, and `complete` was called. */
    var writerOpen: bool
    var completed: bool
    var closed: bool

    ghost predicate Valid()
      reads this`buffer
    {
      Buffers.Valid(buffer)
    }

    /** No writer open and not completed: what the base-class writer check admits. */
    predicate Writable()
      reads this`writerOpen, this`completed
    {
      !writerOpen && !completed
    }

    /**
     * Marks the start, moves past the header and marks again, so the first
     * writer begins right after the descriptor.
     */
    constructor (bytes: HeapBytes, initial: Buffer, descriptor: SnapshotDescriptor, store: SnapshotStore)
      requires Buffers.Valid(initial) && (initial.limit.None? || DescriptorBytes <= initial.limit.value)
      ensures this.bytes == bytes && this.descriptor == descriptor && this.store == store
      ensures Valid() && buffer == initial.(position := DescriptorBytes, mark := Some(DescriptorBytes))
      ensures !writerOpen && !completed && !closed
    {
      var marked := Mark(initial);
      var moved := SetPosition(marked, DescriptorBytes);
      SetPositionMark(marked, DescriptorBytes);
      this.bytes := bytes;
      buffer := Mark(moved.value);
      this.descriptor := descriptor;
      this.store := store;
      writerOpen := false;
      completed := false;
      closed := false;
    }

    function SnapshotId(): int
    {
      descriptor.snapshotId
    }

    function Index(): int
    {
      descriptor.index
    }

    function Timestamp(): int
    {
      descriptor.timestamp
    }

    /**
     * After the writer check, resets the buffer to its mark and hands the
     * writer a slice starting there.
     */
    method OpenWriter() returns (r: Result<SnapshotWriter, SnapshotError>)
      requires Valid()
      modifies this`buffer, this`writerOpen
      ensures Valid() && completed == old(completed)
      ensures !old(Writable()) ==> r == Failure(IllegalState)
      ensures old(Writable()) && old(buffer).mark.None? ==> r == Failure(BufferFailure(InvalidMark))
      ensures r.Failure? ==> buffer == old(buffer) && writerOpen == old(writerOpen)
      ensures old(Writable()) && old(buffer).mark.Some? ==>
        && r.Success? && fresh(r.value)
        && buffer == old(buffer).(position := old(buffer).mark.value)
        && writerOpen
        && r.value.bytes == bytes && r.value.snapshot == this
        && r.value.buffer == Slice(buffer)
        && Cursor(r.value.buffer) == old(buffer).offset + old(buffer).mark.value
    {
      if !Writable() {
        return Failure(IllegalState);
      }
      var reset := Reset(buffer);
      if reset.Failure? {
        return Failure(BufferFailure(reset.error));
      }
      buffer := reset.value;
      var writer := new SnapshotWriter(bytes, Slice(buffer), this);
      writerOpen := true;
      r := Success(writer);
    }

    /**
     * Moves the buffer past the bytes the writer wrote and marks there, so
     * the next writer continues after them.
     */
    method CloseWriter(writer: SnapshotWriter) returns (r: Outcome<SnapshotError>)
      requires Valid()
      modifies this`buffer, this`writerOpen
      ensures Valid()
      ensures var skipped := Skip(old(buffer), writer.buffer.position);
        && (skipped.Failure? ==>
              r == Fail(BufferFailure(OutOfBounds)) && buffer == old(buffer) && writerOpen == old(writerOpen))
        && (skipped.Success? ==> r == Pass && buffer == Mark(skipped.value) && !writerOpen)
    {
      var skipped := Skip(buffer, writer.buffer.position);
      if skipped.Failure? {
        return Fail(BufferFailure(skipped.error));
      }
      buffer := Mark(skipped.value);
      writerOpen := false;
      r := Pass;
    }

    /** Resets the buffer to its mark and hands the reader a slice starting there. */
    method OpenReader() returns (r: Result<SnapshotReader, SnapshotError>)
      requires Valid()
      modifies this`buffer
      ensures Valid()
      ensures old(buffer).mark.None? ==> r == Failure(BufferFailure(InvalidMark)) && buffer == old(buffer)
      ensures old(buffer).mark.Some? ==>
        && r.Success? && fresh(r.value)
        && buffer == old(buffer).(position := old(buffer).mark.value)
        && r.value.bytes == bytes && r.value.buffer == Slice(buffer)
    {
      var reset := Reset(buffer);
      if reset.Failure? {
        return Failure(BufferFailure(reset.error));
      }
      buffer := reset.value;
      var reader := new SnapshotReader(bytes, Slice(buffer));
      r := Success(reader);
    }

    /** Flips the buffer, locks the descriptor and records completion. */
    method Complete() returns (r: MemorySnapshot)
      modifies this`buffer, this`completed, descriptor
      ensures Valid() && r == this
      ensures buffer == Flip(old(buffer)) && descriptor.locked && completed
    {
      buffer := Flip(buffer);
      descriptor.Lock();
      completed := true;
      r := this;
    }

    /**
     * Under MEMORY storage the snapshot itself.  Otherwise a new snapshot with
     * the same identity, holding the first `remaining()` bytes of the backing
     * array after this buffer is flipped, with its writer and itself closed.
     */
    method Persist() returns (r: MemorySnapshot)
      requires Valid()
      modifies this`buffer
      ensures Valid()
      ensures r == this <==> IsPersisted()
      ensures IsPersisted() ==> buffer == old(buffer)
      ensures !IsPersisted() ==>
        && fresh(r) && fresh(r.bytes)
        && r.SnapshotId() == SnapshotId() && r.Index() == Index() && r.Timestamp() == Timestamp()
        && buffer == Flip(old(buffer))
        && Read(r.bytes.data, DescriptorBytes, old(buffer).position) == Read(bytes.data, 0, old(buffer).position)
        && r.buffer.position == DescriptorBytes + old(buffer).position
        && !r.writerOpen && r.closed
    {
      if store.storageLevel == MEMORY {
        return this;
      }
      r := PersistCopy();
      ReadAfterWrite(BlankHeader, DescriptorBytes, Read(bytes.data, 0, old(buffer).position));
    }

    /**
     * The non-MEMORY branch of `persist`: a new snapshot from the store, a
     * writer on it, this buffer flipped, its first `remaining()` array bytes
     * written, then the writer and the new snapshot closed.
     */
    method PersistCopy() returns (copy: MemorySnapshot)
      requires Valid()
      modifies this`buffer
      ensures Valid() && fresh(copy) && fresh(copy.bytes)
      ensures copy.SnapshotId() == SnapshotId() && copy.Index() == Index() && copy.Timestamp() == Timestamp()
      ensures buffer == Flip(old(buffer))
      ensures copy.bytes.data == Overwrite(BlankHeader, DescriptorBytes, Read(bytes.data, 0, old(buffer).position))
      ensures copy.buffer.position == DescriptorBytes + old(buffer).position
      ensures !copy.writerOpen && copy.closed
    {
      var writer;
      copy, writer := OpenCopy();
      buffer := Flip(buffer);
      var payload := Read(bytes.data, 0, Remaining(buffer));
      WriteThenClose(writer, payload);
      copy.Close();
    }

    /** `store.newSnapshot` with this identity, and a writer opened on it. */
    method OpenCopy() returns (copy: MemorySnapshot, writer: SnapshotWriter)
      ensures fresh(copy) && fresh(copy.bytes) && fresh(writer)
      ensures copy.SnapshotId() == SnapshotId() && copy.Index() == Index() && copy.Timestamp() == Timestamp()
      ensures copy.Valid() && copy.writerOpen && copy.bytes.data == BlankHeader
      ensures copy.buffer == Buffer(0, DescriptorBytes, None, Some(DescriptorBytes))
      ensures writer.snapshot == copy && writer.bytes == copy.bytes
      ensures writer.buffer == Buffer(DescriptorBytes, 0, None, None)
    {
      copy := store.NewSnapshot(SnapshotId(), Index(), Timestamp());
      assert copy.Writable() && copy.buffer.mark == Some(DescriptorBytes);
      var session := copy.OpenWriter();
      writer := session.value;
    }

    /** True exactly under MEMORY storage. */
    predicate IsPersisted()
    {
      store.storageLevel == MEMORY
    }

    /** Releases the buffer. */
    method Close()
      modifies this`closed
      ensures closed
    {
      closed := true;
    }
  }

  /** A writer session: a slice of the snapshot's buffer from the write mark on. */
  class SnapshotWriter {
    const bytes: HeapBytes
    var buffer: Buffer
    const snapshot: MemorySnapshot

    constructor (bytes: HeapBytes, buffer: Buffer, snapshot: MemorySnapshot)
      ensures this.bytes == bytes && this.buffer == buffer && this.snapshot == snapshot
    {
      this.bytes := bytes;
      this.buffer := buffer;
      this.snapshot := snapshot;
    }

    /** Writes `src` at the slice's position into the shared array. */
    method Write(src: seq<byte>) returns (r: Outcome<SnapshotError>)
      requires Buffers.Valid(buffer)
      modifies this`buffer, bytes
      ensures Buffers.Valid(buffer)
      ensures Put(old(buffer), |src|).Failure? ==>
        r == Fail(BufferFailure(Overflow)) && buffer == old(buffer) && bytes.data == old(bytes.data)
      ensures Put(old(buffer), |src|).Success? ==>
        && r == Pass && buffer == Put(old(buffer), |src|).value
        && bytes.data == Overwrite(old(bytes.data), Cursor(old(buffer)), src)
    {
      var put := Put(buffer, |src|);
      if put.Failure? {
        return Fail(BufferFailure(put.error));
      }
      bytes.Write(Cursor(buffer), src);
      buffer := put.value;
      r := Pass;
    }

    /** Ends the session through the snapshot's closeWriter. */
    method Close() returns (r: Outcome<SnapshotError>)
      requires snapshot.Valid()
      modifies snapshot`buffer, snapshot`writerOpen
      ensures snapshot.Valid()
      ensures var skipped := Skip(old(snapshot.buffer), buffer.position);
        && (skipped.Failure? ==> r.Fail? && snapshot.buffer == old(snapshot.buffer))
        && (skipped.Success? ==> r == Pass && snapshot.buffer == Mark(skipped.value) && !snapshot.writerOpen)
    {
      r := snapshot.CloseWriter(this);
    }
  }

  /**
   * A try-with-resources block around one write: a writer session holding
   * the whole unbounded remainder of its snapshot's buffer writes `src`, and
   * closing it moves that buffer past the bytes written.
   */
  method WriteThenClose(writer: SnapshotWriter, src: seq<byte>)
    requires Buffers.Valid(writer.buffer) && writer.buffer.limit.None? && writer.buffer.position == 0
    requires writer.snapshot.Valid() && writer.snapshot.buffer.limit.None?
    modifies writer`buffer, writer.bytes, writer.snapshot`buffer, writer.snapshot`writerOpen
    ensures writer.bytes.data == Overwrite(old(writer.bytes.data), old(writer.buffer).offset, src)
    ensures writer.snapshot.Valid() && !writer.snapshot.writerOpen
    ensures writer.snapshot.buffer ==
      Mark(old(writer.snapshot.buffer).(position := old(writer.snapshot.buffer).position + |src|))
  {
    var written := writer.Write(src);
    var closing := writer.Close();
  }

  /** A reader session: a slice of the snapshot's buffer from its mark on. */
  class SnapshotReader {
    const bytes: HeapBytes
    const buffer: Buffer

    constructor (bytes: HeapBytes, buffer: Buffer)
      ensures this.bytes == bytes && this.buffer == buffer
    {
      this.bytes := bytes;
      this.buffer := buffer;
    }
  }
}
