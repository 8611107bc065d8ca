/**
 Bytes of a file across its blocks (src/modules/fs/ext2.cpp:409-448 and 543-587): which
 part of a buffer goes to which block.
 */
module Ext2Splice {
  import opened Bytes
  import opened Ext2Disk
  import opened Ext2Map

  /** The position in the file of byte `k` of block `i`. */
  function Pos(size: nat, i: nat, k: nat): nat {
    i * size + k
  }

  /** A block with the part of the buffer, written at `offset`, that falls into it. */
  function Patched(size: nat, c: seq<Byte>, i: nat, offset: nat, buffer: seq<Byte>): (r: seq<Byte>)
    ensures |r| == |c|
    ensures forall k | 0 <= k < |c| ::
      r[k] == if offset <= Pos(size, i, k) < offset + |buffer| then buffer[Pos(size, i, k) - offset] else c[k]
  {
    seq(|c|, k requires 0 <= k < |c| => if offset <= Pos(size, i, k) < offset + |buffer|
      then buffer[Pos(size, i, k) - offset] else c[k])
  }

  lemma PosSplits(size: nat, x: nat)
    requires 0 < size
    ensures x == Pos(size, x / size, x % size) && x - x / size * size == x % size < size
  {
    assert x == x / size * size + x % size;
  }

  /** Positions of later blocks, relative to block `i`. */
  lemma PosFurther(size: nat, i: nat, j: nat, k: nat)
    ensures Pos(size, i + j, k) == Pos(size, i, 0) + size * j + k
  {
    assert (i + j) * size == i * size + j * size;
  }

  /** Where a range of bytes begins and ends in terms of blocks. */
  ghost predicate Range(size: nat, offset: nat, end: nat, first: nat, o: nat, last: nat, endSize: nat) {
    0 < size && offset <= end && o < size && endSize < size && offset == Pos(size, first, o) &&
      end == Pos(size, last, endSize)
  }

  lemma RangeOf(size: nat, offset: nat, end: nat)
    requires 0 < size && offset <= end
    ensures 0 <= offset / size && 0 <= end / size && 0 <= offset % size < size && 0 <= end - end / size * size < size
    ensures Range(size, offset, end, offset / size, offset % size, end / size, end - end / size * size)
    ensures offset / size <= end / size
  {
    PosSplits(size, offset);
    PosSplits(size, end);
    OrderOfBlocks(size, offset, end);
  }

  lemma OrderOfBlocks(size: nat, x: nat, y: nat)
    requires 0 < size && x <= y
    ensures x / size <= y / size
  {
    PosSplits(size, x);
    PosSplits(size, y);
    if y / size < x / size {
      NextMultiple(size, y / size, x / size);
    }
  }

  /** Everything in one block. */
  lemma OneBlockPatch(size: nat, c: seq<Byte>, offset: nat, buffer: seq<Byte>, first: nat, o: nat, endSize: nat)
    requires |c| == size && Range(size, offset, offset + |buffer|, first, o, first, endSize)
    ensures o + |buffer| <= size && c[..o] + buffer + c[o + |buffer|..] == Patched(size, c, first, offset, buffer)
  {
  }

  /** The first of several blocks. */
  lemma FirstPatch(size: nat, c: seq<Byte>, offset: nat, buffer: seq<Byte>, first: nat, o: nat, last: nat, endSize: nat)
    requires |c| == size && Range(size, offset, offset + |buffer|, first, o, last, endSize) && first < last
    ensures size - o <= |buffer| && c[..o] + buffer[..size - o] == Patched(size, c, first, offset, buffer)
  {
    NextMultiple(size, first, last);
  }

  /** A block that is filled by the buffer. */
  lemma MiddlePatch(size: nat, c: seq<Byte>, offset: nat, buffer: seq<Byte>, first: nat, o: nat, last: nat,
      endSize: nat, j: nat)
    requires |c| == size && Range(size, offset, offset + |buffer|, first, o, last, endSize) && 0 < j && first + j < last
    ensures 0 <= size * j - o && size * j - o + size <= |buffer|
    ensures buffer[size * j - o..size * j - o + size] == Patched(size, c, first + j, offset, buffer)
  {
    var i := first + j;
    NextMultiple(size, i, last);
    PosFurther(size, first, j, 0);
    NextMultiple(size, 0, j);
    forall k | 0 <= k < size ensures Pos(size, i, k) - offset == size * j - o + k {
      PosFurther(size, first, j, k);
    }
  }

  /** The block with the rest of the buffer. */
  lemma LastPatch(size: nat, c: seq<Byte>, offset: nat, buffer: seq<Byte>, first: nat, o: nat, last: nat, endSize: nat)
    requires |c| == size && Range(size, offset, offset + |buffer|, first, o, last, endSize) && first < last
    ensures 0 <= size * (last - first) - o && size * (last - first) - o + endSize == |buffer|
    ensures buffer[size * (last - first) - o..] + c[endSize..] == Patched(size, c, last, offset, buffer)
  {
    var j: nat := last - first;
    PosFurther(size, first, j, 0);
    NextMultiple(size, 0, j);
    forall k | 0 <= k < size ensures Pos(size, last, k) - offset == size * j - o + k {
      PosFurther(size, first, j, k);
    }
  }

  /** Blocks outside the range are not concerned. */
  lemma NoPatch(size: nat, c: seq<Byte>, i: nat, offset: nat, buffer: seq<Byte>, first: nat, o: nat, last: nat,
      endSize: nat)
    requires |c| == size && Range(size, offset, offset + |buffer|, first, o, last, endSize)
    requires i < first || last < i || (i == last && endSize == 0 && (first < last || buffer == []))
    ensures Patched(size, c, i, offset, buffer) == c
  {
    if i < first {
      NextMultiple(size, i, first);
    } else if last < i {
      NextMultiple(size, last, i);
    }
  }

  /** How many blocks from the start of the file a write reaches: none less than it touches. */
  function Reach(size: nat, offset: nat, end: nat): nat
    requires 0 < size
  {
    if offset / size == end / size || end % size > 0 then Row(end, size) + 1 else Row(end, size)
  }

  lemma ReachCovers(size: nat, offset: nat, end: nat)
    requires 0 < size && offset <= end
    ensures Reach(size, offset, end) == if offset / size == end / size ||
      end - end / size * size > 0 then end / size + 1 else end / size
    ensures offset / size < Reach(size, offset, end)
  {
    PosSplits(size, end);
    OrderOfBlocks(size, offset, end);
  }
}
