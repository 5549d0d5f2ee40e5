/**
 * The heap buffer a memory snapshot writes into, reduced to what the snapshot
 * uses: a growable byte array shared between a buffer and its slices, and
 * the cursor of each view over it (offset into the array, position, optional
 * limit, optional mark) with java.nio-style cursor operations.  A buffer
 * without a limit is one still being written; `flip` gives it one.
 */
module Buffers {
  import opened Wrappers

  newtype byte = x: int | 0 <= x < 256

  function Max(a: int, b: int): int
  {
    if a >= b then a else b
  }

  /** Byte `i` of the array; bytes never written read as zero. */
  function ByteAt(data: seq<byte>, i: nat): byte
  {
    if i < |data| then data[i] else 0
  }

  /**
   * `n` bytes of the array starting at `from`, reading zeros past its end:
   * the slice itself when the array holds them all.
   */
  function Read(data: seq<byte>, from: nat, n: nat): (r: seq<byte>)
    ensures |r| == n
    ensures from + n <= |data| ==> r == data[from..from + n]
  {
    var r := seq(n, k requires 0 <= k < n => ByteAt(data, from + k));
    assert forall k :: 0 <= k < n ==> r[k] == ByteAt(data, from + k);
    r
  }

  /** The array extended with zeros to at least `n` bytes. */
  function Pad(data: seq<byte>, n: nat): (r: seq<byte>)
    ensures |r| == Max(|data|, n)
    ensures r[..|data|] == data
    ensures forall i :: 0 <= i < |r| ==> r[i] == ByteAt(data, i)
  {
    if |data| >= n then data else data + seq(n - |data|, _ => 0)
  }

  /**
   * The array after `src` is written at absolute offset `at`: it grows as
   * needed, holds `src` at [at, at + |src|), and every other byte is as it was.
   */
  function Overwrite(data: seq<byte>, at: nat, src: seq<byte>): (r: seq<byte>)
    ensures |r| == Max(|data|, at + |src|)
    ensures r[at..at + |src|] == src
  {
    var padded := Pad(data, at + |src|);
    padded[..at] + src + padded[at + |src|..]
  }

  /** Outside [at, at + |src|) a write leaves the array as it was, zero-extended. */
  lemma OverwriteKeeps(data: seq<byte>, at: nat, src: seq<byte>)
    ensures var r := Overwrite(data, at, src);
      forall i :: 0 <= i < |r| && !(at <= i < at + |src|) ==> r[i] == ByteAt(data, i)
  {
    var padded := Pad(data, at + |src|);
    var r := Overwrite(data, at, src);
    forall i | 0 <= i < |r| && !(at <= i < at + |src|)
      ensures r[i] == ByteAt(data, i)
    {
      if i < at {
        assert r[i] == padded[..at][i];
      } else {
        assert r[i] == padded[at + |src|..][i - at - |src|];
      }
    }
  }

  /** Reading back what was just written gives exactly those bytes. */
  lemma ReadAfterWrite(data: seq<byte>, at: nat, src: seq<byte>)
    ensures Read(Overwrite(data, at, src), at, |src|) == src
  {
    var r := Overwrite(data, at, src);
    forall k | 0 <= k < |src|
      ensures Read(r, at, |src|)[k] == src[k]
    {
      assert Read(r, at, |src|)[k] == ByteAt(r, at + k);
      assert at + k < |r|;
      assert r[at..at + |src|][k] == r[at + k];
    }
  }

  /** A write leaves every byte before its offset as it was. */
  lemma WriteKeepsPrefix(data: seq<byte>, at: nat, src: seq<byte>, from: nat, n: nat)
    requires from + n <= at
    ensures Read(Overwrite(data, at, src), from, n) == Read(data, from, n)
  {
    var r := Overwrite(data, at, src);
    OverwriteKeeps(data, at, src);
    forall k | 0 <= k < n
      ensures Read(r, from, n)[k] == Read(data, from, n)[k]
    {
      assert Read(r, from, n)[k] == ByteAt(r, from + k);
      assert Read(data, from, n)[k] == ByteAt(data, from + k);
    }
  }

  /** Reading m + n bytes is reading m bytes and then the n after them. */
  lemma ReadSplit(data: seq<byte>, from: nat, m: nat, n: nat)
    ensures Read(data, from, m + n) == Read(data, from, m) + Read(data, from + m, n)
  {
    var whole, left, right := Read(data, from, m + n), Read(data, from, m), Read(data, from + m, n);
    forall k | 0 <= k < m + n
      ensures whole[k] == (left + right)[k]
    {
      if k >= m {
        assert whole[k] == ByteAt(data, from + m + (k - m)) == right[k - m];
      }
    }
  }

  /** Two writes, the second starting where the first ended, read back as one. */
  lemma ConsecutiveWrites(data: seq<byte>, at: nat, x: seq<byte>, y: seq<byte>)
    ensures Read(Overwrite(Overwrite(data, at, x), at + |x|, y), at, |x| + |y|) == x + y
  {
    var d1 := Overwrite(data, at, x);
    var d2 := Overwrite(d1, at + |x|, y);
    ReadAfterWrite(data, at, x);
    WriteKeepsPrefix(d1, at + |x|, y, at, |x|);
    ReadAfterWrite(d1, at + |x|, y);
    JoinReads(d2, at, x, y);
  }

  /** Two adjacent reads that give x and then y make one read giving x + y. */
  lemma JoinReads(data: seq<byte>, at: nat, x: seq<byte>, y: seq<byte>)
    requires Read(data, at, |x|) == x && Read(data, at + |x|, |y|) == y
    ensures Read(data, at, |x| + |y|) == x + y
  {
    ReadSplit(data, at, |x|, |y|);
  }

  /** The byte array behind a buffer and all of its slices. */
  class HeapBytes {
    var data: seq<byte>

    /** A zero-filled array of `size` bytes. */
    constructor (size: nat)
      ensures data == seq(size, _ => 0)
    {
      data := seq(size, _ => 0);
    }

    /** Writes `src` at absolute offset `at`, growing the array as needed. */
    method Write(at: nat, src: seq<byte>)
      modifies this
      ensures data == Overwrite(old(data), at, src)
    {
      data := Overwrite(data, at, src);
    }
  }

  datatype BufferError =
    | InvalidMark        // reset() with no mark set
    | OutOfBounds        // skip() past the limit
    | IllegalPosition    // position(p) past the limit
    | Overflow           // write() past the limit

  /**
   * The cursor of one view of a heap array: bytes of the view start at array
   * offset `offset`; `limit` is absent while the buffer may still grow.
   */
  datatype Buffer = Buffer(offset: nat, position: nat, limit: Option<nat>, mark: Option<nat>)

  /** mark <= position <= limit, as java.nio maintains. */
  predicate Valid(b: Buffer)
  {
    && (b.limit.Some? ==> b.position <= b.limit.value)
    && (b.mark.Some? ==> b.mark.value <= b.position)
  }

  /** A freshly allocated buffer: at the start, no limit, no mark. */
  const Allocated: Buffer := Buffer(0, 0, None, None)

  /** The bytes left before the limit; only a flipped or sliced buffer has one. */
  function Remaining(b: Buffer): (n: nat)
    requires Valid(b) && b.limit.Some?
    ensures b.position + n == b.limit.value
  {
    b.limit.value - b.position
  }

  /** mark(): remember the current position. */
  function Mark(b: Buffer): (r: Buffer)
    ensures Valid(b) ==> Valid(r)
  {
    b.(mark := Some(b.position))
  }

  /** reset(): go back to the mark; without one InvalidMarkException is thrown. */
  function Reset(b: Buffer): (r: Result<Buffer, BufferError>)
    ensures Valid(b) && r.Success? ==> Valid(r.value)
    ensures r.Success? <==> b.mark.Some?
  {
    match b.mark
    case None => Failure(InvalidMark)
    case Some(m) => Success(b.(position := m))
  }

  /** skip(n): move forward `n` bytes; moving past the limit throws. */
  function Skip(b: Buffer, n: nat): (r: Result<Buffer, BufferError>)
    requires Valid(b)
    ensures r.Success? ==> Valid(r.value)
  {
    if b.limit.Some? && n > Remaining(b) then Failure(OutOfBounds)
    else Success(b.(position := b.position + n))
  }

  /**
   * position(p): move to `p`; moving past the limit throws, and a mark beyond
   * the new position is discarded.
   */
  function SetPosition(b: Buffer, p: nat): (r: Result<Buffer, BufferError>)
    requires Valid(b)
    ensures r.Success? ==> Valid(r.value)
  {
    if b.limit.Some? && p > b.limit.value then Failure(IllegalPosition)
    else
      var mark := if b.mark.Some? && b.mark.value > p then None else b.mark;
      Success(b.(position := p, mark := mark))
  }

  /** flip(): the limit becomes the position, the position 0, the mark is discarded. */
  function Flip(b: Buffer): (r: Buffer)
    ensures Valid(r)
  {
    Buffer(b.offset, 0, Some(b.position), None)
  }

  /**
   * slice(): a new view whose first byte is this buffer's current byte, with
   * its own cursor at 0, no mark, and the bytes remaining as its limit.
   */
  function Slice(b: Buffer): (r: Buffer)
    requires Valid(b)
    ensures Valid(r)
  {
    Buffer(b.offset + b.position, 0, if b.limit.Some? then Some(Remaining(b)) else None, None)
  }

  /** write(src): put the bytes at the position and move past them. */
  function Put(b: Buffer, n: nat): (r: Result<Buffer, BufferError>)
    requires Valid(b)
    ensures r.Success? ==> Valid(r.value)
  {
    if b.limit.Some? && n > Remaining(b) then Failure(Overflow)
    else Success(b.(position := b.position + n))
  }

  /** Array offset of the byte at the position of `b`. */
  function Cursor(b: Buffer): nat
  {
    b.offset + b.position
  }

  /** Reset after mark-and-skip comes back to the marked position. */
  lemma SkipThenReset(b: Buffer, n: nat)
    requires Valid(b) && Skip(Mark(b), n).Success?
    ensures Reset(Skip(Mark(b), n).value) == Success(Mark(b))
  {
  }

  /** skip(n) succeeds exactly when `n` bytes remain, and then moves by `n`. */
  lemma SkipMoves(b: Buffer, n: nat)
    requires Valid(b)
    ensures Skip(b, n).Success? <==> b.limit.None? || b.position + n <= b.limit.value
    ensures Skip(b, n).Success? ==>
      Skip(b, n).value.position == b.position + n && Skip(b, n).value.mark == b.mark
  {
  }

  /**
   * After flip the readable bytes are exactly those before the old position,
   * from the start, and there is no mark to reset to.
   */
  lemma FlipExposesWritten(b: Buffer)
    ensures Flip(b).position == 0 && Remaining(Flip(b)) == b.position
    ensures Reset(Flip(b)) == Failure(InvalidMark)
  {
  }

  /** A second flip leaves nothing readable. */
  lemma FlipTwiceEmpties(b: Buffer)
    ensures Remaining(Flip(Flip(b))) == 0
  {
  }

  /** A slice starts at the buffer's current byte and sees what remains of it. */
  lemma SliceStartsAtCursor(b: Buffer)
    requires Valid(b)
    ensures Cursor(Slice(b)) == Cursor(b)
    ensures Slice(b).limit.Some? <==> b.limit.Some?
    ensures b.limit.Some? ==> Remaining(Slice(b)) == Remaining(b)
    ensures Reset(Slice(b)).Failure?
  {
  }

  /** Moving to a position keeps a mark at or before it and drops one past it. */
  lemma SetPositionMark(b: Buffer, p: nat)
    requires Valid(b) && SetPosition(b, p).Success?
    ensures SetPosition(b, p).value.position == p
    ensures SetPosition(b, p).value.mark.Some? <==> b.mark.Some? && b.mark.value <= p
  {
  }
}
