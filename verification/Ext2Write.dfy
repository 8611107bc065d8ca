/**
 The progress of a write through the blocks of a file.
 */
module Ext2Write {
  import opened Bytes
  import opened Ext2Bytes
  import opened Ext2Disk
  import opened Ext2Map
  import opened Ext2Files
  import opened Ext2Frames
  import opened Ext2Space
  import opened Ext2Growth
  import opened Ext2Splice

  /** The inode with a larger size is written. */
  lemma SizeWritten(g: Geometry, s: State, files: set<int>, f: int, n: seq<Byte>, size: int)
    requires FsOk(g, s, files) && f in files && Placed(g, s, f) && InodeAt(g, s, f) == n && 128 <= |n| &&
      0 <= size < WORD_LIMIT
    ensures |Block(s.disk, InodeBlock(g, s.table, f))| == g.blockSize && |n| == g.inodeSize
    ensures var n' := SetSize(n, size); var s' := WithInode(g, s, f, n');
      && FsOk(g, s', files) && Placed(g, s', f) && InodeAt(g, s', f) == n' && FileOk(g, s', f, n')
      && Count(g, n') == Count(g, n) && SameContent(g, s.disk, n, s'.disk, n') && FileSize(n') == size
      && Elsewhere(g, s, s', files, f) && s'.table == s.table && SpaceSpent(g, s, n, s', n')
  {
    assert OneFileOk(g, s, f);
    var n' := SetSize(n, size);
    FieldsStored(n, size);
    InodeStored(g, s, files, f, n');
    var s' := WithInode(g, s, f, n');
    SamePointers(g, s, f, n, n');
    MapFrame(g, s, s', f, n');
    NoneAttached(g, s.disk, n, s'.disk, n');
    NothingSpent(g, s, n, s', n');
    forall i: nat
      ensures i < Count(g, n) ==> Owned(s'.own, Lookup(g, s'.disk, n', i), Data(f, i))
      ensures Content(g, s'.disk, n', i) == Content(g, s.disk, n, i)
    {
      if i < Count(g, n) {
        SlotsDiffer(g, i, i);
        assert At(s'.disk, n', SlotOf(g, i)) == At(s.disk, n', SlotOf(g, i)) == At(s.disk, n, SlotOf(g, i));
        assert Owned(s.own, Lookup(g, s.disk, n, i), Data(f, i));
      }
    }
  }

  /** Blocks from `lo` up to `hi` have been patched. */
  ghost predicate Splicing(g: Geometry, s0: State, s: State, files: set<int>, f: int, n0: seq<Byte>, n: seq<Byte>,
      offset: nat, buffer: seq<Byte>, lo: nat, hi: nat) {
    && FsOk(g, s, files) && f in files && Placed(g, s, f) && InodeAt(g, s, f) == n && FileOk(g, s, f, n)
    && Elsewhere(g, s0, s, files, f)
    && Count(g, n) == (if lo < hi && Count(g, n0) < hi then hi else Count(g, n0))
    && forall i: nat :: Content(g, s.disk, n, i) ==
         if lo <= i < hi then Patched(g.blockSize, Content(g, s0.disk, n0, i), i, offset, buffer)
           else Content(g, s0.disk, n0, i)
  }

  lemma SplicingStarts(g: Geometry, s0: State, s: State, files: set<int>, f: int, n0: seq<Byte>, n: seq<Byte>,
      offset: nat, buffer: seq<Byte>, lo: nat)
    requires GeometryOk(g) && FsOk(g, s, files) && f in files && Placed(g, s, f) && InodeAt(g, s, f) == n
    requires Elsewhere(g, s0, s, files, f) && Count(g, n) == Count(g, n0) && SameContent(g, s0.disk, n0, s.disk, n)
    ensures Splicing(g, s0, s, files, f, n0, n, offset, buffer, lo, lo)
  {
    assert OneFileOk(g, s, f);
  }

  lemma SplicingGoesOn(g: Geometry, s0: State, s: State, s': State, files: set<int>, f: int, n0: seq<Byte>,
      n: seq<Byte>, n': seq<Byte>, offset: nat, buffer: seq<Byte>, lo: nat, hi: nat)
    requires Splicing(g, s0, s, files, f, n0, n, offset, buffer, lo, hi) && lo <= hi
    requires Rewritten(g, s, s', files, f, n, n', hi,
      Patched(g.blockSize, Content(g, s0.disk, n0, hi), hi, offset, buffer))
    ensures Splicing(g, s0, s', files, f, n0, n', offset, buffer, lo, hi + 1) && FileSize(n') == FileSize(n)
  {
    ElsewhereTwice(g, s0, s, s', files, f);
    forall i: nat ensures Content(g, s'.disk, n', i) ==
      if lo <= i < hi + 1 then Patched(g.blockSize, Content(g, s0.disk, n0, i), i, offset, buffer)
        else Content(g, s0.disk, n0, i)
    {
      assert i != hi ==> Content(g, s'.disk, n', i) == Content(g, s.disk, n, i);
    }
  }

  /** What is left of the free blocks suffices for the next block. */
  lemma SpaceLeft(g: Geometry, s0: State, n0: seq<Byte>, s: State, n: seq<Byte>, i: nat, reach: nat)
    requires GeometryOk(g) && 32 * g.groups <= |s0.table| && 32 * g.groups <= |s.table| && i < reach <= MaxBlocks(g)
    requires SumFree(s0.table, g.groups) >= Space(g, s0.disk, n0, Count(g, n0), reach)
    requires SpaceSpent(g, s0, n0, s, n)
    ensures SumFree(s.table, g.groups) >= Space(g, s.disk, n, Count(g, n), i + 1)
  {
    if Count(g, n) <= i {
      SpaceGrows(g, s0.disk, n0, Count(g, n0), i + 1, reach);
    }
  }

  /** The write has put the buffer into the file, and nothing else anywhere. */
  ghost predicate Spliced(g: Geometry, s0: State, s: State, files: set<int>, f: int, n0: seq<Byte>, n: seq<Byte>,
      offset: nat, buffer: seq<Byte>) {
    && FsOk(g, s, files) && f in files && Placed(g, s, f) && InodeAt(g, s, f) == n && FileOk(g, s, f, n)
    && Elsewhere(g, s0, s, files, f)
    && FileSize(n) == (if FileSize(n0) < offset + |buffer| then offset + |buffer| else FileSize(n0))
    && forall i: nat :: Content(g, s.disk, n, i) == Patched(g.blockSize, Content(g, s0.disk, n0, i), i, offset, buffer)
  }

  /** At the end all blocks the buffer falls into have been patched. */
  lemma SplicingEnds(g: Geometry, s0: State, s: State, files: set<int>, f: int, n0: seq<Byte>, n: seq<Byte>,
      offset: nat, buffer: seq<Byte>, first: nat, o: nat, last: nat, endSize: nat, hi: nat)
    requires AllocOk(g, s0) && OneFileOk(g, s0, f) && InodeAt(g, s0, f) == n0
    requires Splicing(g, s0, s, files, f, n0, n, offset, buffer, first, hi)
    requires Range(g.blockSize, offset, offset + |buffer|, first, o, last, endSize)
    requires hi == if first == last || endSize > 0 then last + 1 else last
    requires first <= last && FileSize(n) == if FileSize(n0) < offset + |buffer| then offset + |buffer|
      else FileSize(n0)
    ensures Spliced(g, s0, s, files, f, n0, n, offset, buffer)
  {
    forall i: nat ensures Content(g, s.disk, n, i) ==
      Patched(g.blockSize, Content(g, s0.disk, n0, i), i, offset, buffer) {
      if !(first <= i < hi) {
        ContentSize(g, s0, f, n0, i);
        NoPatch(g.blockSize, Content(g, s0.disk, n0, i), i, offset, buffer, first, o, last, endSize);
      }
    }
  }

  lemma ContentSize(g: Geometry, s: State, f: int, n: seq<Byte>, i: nat)
    requires GeometryOk(g) && FileOk(g, s, f, n) && Sized(g, s)
    ensures |Content(g, s.disk, n, i)| == g.blockSize
  {
    if i < Count(g, n) {
      assert Owned(s.own, Lookup(g, s.disk, n, i), Data(f, i));
    }
  }
}
