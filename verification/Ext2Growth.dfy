/**
 A file grows by one block (src/modules/fs/ext2.cpp:789-801), and a block of it is written.
 */
module Ext2Growth {
  import opened Bytes
  import opened Ext2Bytes
  import opened Ext2Device
  import opened Ext2Disk
  import opened Ext2Map
  import opened Ext2Files
  import opened Ext2Frames
  import opened Ext2Steps
  import opened Ext2Space

  /** Sector counts of mapped files fit into 32 bits. */
  predicate CountsFit(g: Geometry) {
    MaxBlocks(g) * SectorsPerBlock(g) < WORD_LIMIT
  }

  lemma SectorsFit(g: Geometry, blocks: nat)
    requires GeometryOk(g) && CountsFit(g) && blocks <= MaxBlocks(g)
    ensures 0 <= blocks * SectorsPerBlock(g) < WORD_LIMIT
  {
    ProductGrows(blocks, MaxBlocks(g), SectorsPerBlock(g));
  }

  lemma ProductGrows(a: nat, b: nat, c: nat)
    requires a <= b
    ensures 0 <= a * c <= b * c
  {
    assert (b - a) * c == b * c - a * c;
  }

  function SetSectors(n: seq<Byte>, t: int): (r: seq<Byte>)
    requires 128 <= |n| && 0 <= t < WORD_LIMIT
    ensures |r| == |n|
  {
    SetWord(n, SECTORS_WORD, t)
  }

  function SetSize(n: seq<Byte>, size: int): (r: seq<Byte>)
    requires 128 <= |n| && 0 <= size < WORD_LIMIT
    ensures |r| == |n|
  {
    SetWord(n, SIZE_WORD, size)
  }

  /** Neither field has anything to do with the map. */
  lemma FieldsStored(n: seq<Byte>, t: int)
    requires 128 <= |n| && 0 <= t < WORD_LIMIT
    ensures Word(SetSectors(n, t), SECTORS_WORD) == t && FileSize(SetSectors(n, t)) == FileSize(n)
    ensures FileSize(SetSize(n, t)) == t && Word(SetSize(n, t), SECTORS_WORD) == Word(n, SECTORS_WORD)
    ensures forall j: nat | j < 15 :: Ptr(SetSectors(n, t), j) == Ptr(n, j) && Ptr(SetSize(n, t), j) == Ptr(n, j)
  {
    WordStored(n, SECTORS_WORD, t, SECTORS_WORD);
    WordStored(n, SECTORS_WORD, t, SIZE_WORD);
    WordStored(n, SIZE_WORD, t, SIZE_WORD);
    WordStored(n, SIZE_WORD, t, SECTORS_WORD);
    forall j: nat | j < 15 ensures Ptr(SetSectors(n, t), j) == Ptr(n, j) && Ptr(SetSize(n, t), j) == Ptr(n, j) {
      WordStored(n, SECTORS_WORD, t, BLOCK_WORD + j);
      WordStored(n, SIZE_WORD, t, BLOCK_WORD + j);
    }
  }

  /** Inodes with the same pointers have the same map. */
  lemma SamePointers(g: Geometry, s: State, f: int, n: seq<Byte>, n': seq<Byte>)
    requires |n'| == |n| && forall j: nat | j < 15 :: Ptr(n', j) == Ptr(n, j)
    ensures SameMap(g, s.disk, n, s.disk, n') && (TablesOk(g, s, f, n) ==> TablesOk(g, s, f, n'))
  {
    forall row: nat ensures InnerTable(s.disk, n', row) == InnerTable(s.disk, n, row) {
    }
    if TablesOk(g, s, f, n) {
      forall row: nat | row < PerBlock(g) ensures InnerOk(s, f, n', row) {
        assert InnerOk(s, f, n, row);
      }
    }
  }

  lemma CountIs(g: Geometry, n: seq<Byte>, blocks: nat)
    requires GeometryOk(g) && Word(n, SECTORS_WORD) == blocks * SectorsPerBlock(g)
    ensures Count(g, n) == blocks
  {
    DivisionIsUnique(Word(n, SECTORS_WORD), SectorsPerBlock(g), blocks, 0);
  }

  lemma CountAbove(g: Geometry, n: seq<Byte>)
    requires GeometryOk(g)
    ensures Word(n, SECTORS_WORD) < (Count(g, n) + 1) * SectorsPerBlock(g)
  {
    DivisionFits(Word(n, SECTORS_WORD), SectorsPerBlock(g));
    assert (Count(g, n) + 1) * SectorsPerBlock(g) == Count(g, n) * SectorsPerBlock(g) + SectorsPerBlock(g);
  }

  /** Blocks the file already had keep their place and content. */
  ghost predicate SameContent(g: Geometry, disk: Disk, n: seq<Byte>, disk': Disk, n': seq<Byte>)
    requires GeometryOk(g)
  {
    forall i: nat :: Content(g, disk', n', i) == Content(g, disk, n, i)
  }

  /** The file has grown by zeroed blocks up to `blocks`; everything else is as before. */
  ghost predicate Grown(g: Geometry, s: State, s': State, files: set<int>, f: int, n: seq<Byte>, n': seq<Byte>,
      blocks: nat) {
    && FsOk(g, s', files) && f in files && Placed(g, s', f) && InodeAt(g, s', f) == n' && FileOk(g, s', f, n')
    && Count(g, n') == blocks && FileSize(n') == FileSize(n)
    && SameContent(g, s.disk, n, s'.disk, n') && Elsewhere(g, s, s', files, f)
  }

  /** A data block is allocated for a file; its map is not yet concerned. */
  lemma DataAllocated(g: Geometry, s: State, s': State, files: set<int>, f: int, n: seq<Byte>, i: nat, b: int)
    requires Others(g, s, files, f) && TablesOk(g, s, f, n) && NewBlock(g, s, s', b, Data(f, i))
    requires i < MaxBlocks(g)
    ensures Others(g, s', files, f) && TablesOk(g, s', f, n) && SameMap(g, s.disk, n, s'.disk, n)
    ensures Elsewhere(g, s, s', files, f) && SameData(s, s', f)
    ensures TablesNeeded(g, s'.disk, n, i) == TablesNeeded(g, s.disk, n, i)
    ensures Attached(g, s.disk, n, s'.disk, n, {})
    ensures 0 < b < WORD_LIMIT && Owned(s'.own, b, Data(f, i)) && Block(s'.disk, b) == Zeros(g.blockSize) &&
      |s'.table| == |s.table|
  {
    AllocElsewhere(g, s, s', files, f, b, Data(f, i));
    MapFrame(g, s, s', f, n);
    SlotsDiffer(g, i, i);
  }

  /** The inode with the new count is written, and all is well again. */
  lemma CountWritten(g: Geometry, s0: State, s2: State, files: set<int>, f: int, n0: seq<Byte>, n2: seq<Byte>, i: nat,
      b: int)
    requires FsOk(g, s0, files) && f in files && FileOk(g, s0, f, n0) && Count(g, n0) == i < MaxBlocks(g) &&
      CountsFit(g)
    requires Others(g, s2, files, f) && TablesOk(g, s2, f, n2) && Elsewhere(g, s0, s2, files, f) && SameData(s0, s2, f)
    requires Entered(g, s0.disk, n0, s2.disk, n2, SlotOf(g, i), b)
    requires Owned(s2.own, b, Data(f, i)) && Block(s2.disk, b) == Zeros(g.blockSize) && 128 <= |n2|
    requires 0 <= (i + 1) * SectorsPerBlock(g) < WORD_LIMIT && FileSize(n2) == FileSize(n0)
    ensures var n3 := SetSectors(n2, (i + 1) * SectorsPerBlock(g));
      && Placed(g, s2, f) && |Block(s2.disk, InodeBlock(g, s2.table, f))| == g.blockSize && |n3| == g.inodeSize
      && var s3 := WithInode(g, s2, f, n3);
        && s3.table == s2.table && Grown(g, s0, s3, files, f, n0, n3, i + 1)
        && Attached(g, s2.disk, n2, s3.disk, n3, {})
  {
    var n3 := SetSectors(n2, (i + 1) * SectorsPerBlock(g));
    FieldsStored(n2, (i + 1) * SectorsPerBlock(g));
    InodeStored(g, s2, files, f, n3);
    var s3 := WithInode(g, s2, f, n3);
    SamePointers(g, s2, f, n2, n3);
    MapFrame(g, s2, s3, f, n3);
    CountIs(g, n3, i + 1);
    ElsewhereTwice(g, s0, s2, s3, files, f);
    GrownMap(g, s0, s2, s3, f, n0, n2, n3, i, b);
  }

  lemma GrownMap(g: Geometry, s0: State, s2: State, s3: State, f: int, n0: seq<Byte>, n2: seq<Byte>, n3: seq<Byte>,
      i: nat, b: int)
    requires GeometryOk(g) && Mapped(g, s0, f, n0) && Count(g, n0) == i < MaxBlocks(g) && Count(g, n3) == i + 1
    requires forall x | x in s0.own :: Owned(s2.own, x, s0.own[x])
    requires s3.own == s2.own && SameData(s0, s2, f) && SameData(s2, s3, f)
    requires SameMap(g, s2.disk, n2, s2.disk, n3) && SameMap(g, s2.disk, n3, s3.disk, n3)
    requires Entered(g, s0.disk, n0, s2.disk, n2, SlotOf(g, i), b)
    requires Owned(s2.own, b, Data(f, i)) && Block(s2.disk, b) == Zeros(g.blockSize)
    ensures Mapped(g, s3, f, n3) && SameContent(g, s0.disk, n0, s3.disk, n3)
  {
    forall k: nat
      ensures k < i + 1 ==> Owned(s3.own, Lookup(g, s3.disk, n3, k), Data(f, k))
      ensures Content(g, s3.disk, n3, k) == Content(g, s0.disk, n0, k)
    {
      if k < i + 1 {
        SlotsDiffer(g, k, i);
        var t := SlotOf(g, k);
        assert At(s3.disk, n3, t) == At(s2.disk, n3, t) == At(s2.disk, n2, t);
        if k < i {
          assert Owned(s0.own, Lookup(g, s0.disk, n0, k), Data(f, k));
          assert Owned(s2.own, Lookup(g, s0.disk, n0, k), Data(f, k));
        }
      }
    }
  }

  lemma NotGrown(g: Geometry, s: State, files: set<int>, f: int, n: seq<Byte>)
    requires FsOk(g, s, files) && f in files && Placed(g, s, f) && InodeAt(g, s, f) == n
    ensures Grown(g, s, s, files, f, n, n, Count(g, n)) && 128 <= |n|
  {
    assert OneFileOk(g, s, f);
    assert forall h | h in files :: OneFileOk(g, s, h);
  }

  lemma GrownTwice(g: Geometry, s0: State, s1: State, s2: State, files: set<int>, f: int, n0: seq<Byte>, n1: seq<Byte>,
      n2: seq<Byte>, b1: nat, b2: nat)
    requires Grown(g, s0, s1, files, f, n0, n1, b1) && Grown(g, s1, s2, files, f, n1, n2, b2)
    ensures Grown(g, s0, s2, files, f, n0, n2, b2)
  {
    ElsewhereTwice(g, s0, s1, s2, files, f);
    forall i: nat ensures Content(g, s2.disk, n2, i) == Content(g, s0.disk, n0, i) {
      assert Content(g, s1.disk, n1, i) == Content(g, s0.disk, n0, i);
    }
  }

  /** A missing table means the block is not mapped. */
  lemma MissingIsUnmapped(g: Geometry, disk: Disk, n: seq<Byte>, i: nat)
    requires GeometryOk(g) && TablesNeeded(g, disk, n, i) > 0
    ensures Lookup(g, disk, n, i) == 0
  {
  }

  /**
   A block has been counted but not mapped, because there was no space for a table: the last
   block of the file has no place, while the other files are as before.
   */
  ghost predicate Lost(g: Geometry, s: State, s': State, files: set<int>, f: int, n': seq<Byte>)
    requires GeometryOk(g)
  {
    && Others(g, s', files, f) && f in files && TablesOk(g, s', f, n') && Placed(g, s', f) && InodeAt(g, s', f) == n'
    && Elsewhere(g, s, s', files, f) && 0 < Count(g, n') && TablesNeeded(g, s'.disk, n', Count(g, n') - 1) > 0
  }

  lemma CountedInVain(g: Geometry, s0: State, s2: State, files: set<int>, f: int, n2: seq<Byte>, n3: seq<Byte>, i: nat)
    requires Others(g, s2, files, f) && TablesOk(g, s2, f, n2) && f in files && Elsewhere(g, s0, s2, files, f) &&
      128 <= |n2|
    requires GeometryOk(g) && i < MaxBlocks(g) && TablesNeeded(g, s2.disk, n2, i) > 0
    requires 0 <= (i + 1) * SectorsPerBlock(g) < WORD_LIMIT && n3 == SetSectors(n2, (i + 1) * SectorsPerBlock(g))
    ensures Placed(g, s2, f) && |Block(s2.disk, InodeBlock(g, s2.table, f))| == g.blockSize && |n3| == g.inodeSize
    ensures Count(g, n3) == i + 1 && Lost(g, s0, WithInode(g, s2, f, n3), files, f, n3)
    ensures Lookup(g, WithInode(g, s2, f, n3).disk, n3, i) == 0
  {
    hide Others, Elsewhere, Placed, TablesSame;
    FieldsStored(n2, (i + 1) * SectorsPerBlock(g));
    CountIs(g, n3, i + 1);
    InodeStored(g, s2, files, f, n3);
    SamePointers(g, s2, f, n2, n3);
    var s3 := WithInode(g, s2, f, n3);
    MapFrame(g, s2, s3, f, n3);
    ElsewhereTwice(g, s0, s2, s3, files, f);
    assert TablesNeeded(g, s3.disk, n3, i) == TablesNeeded(g, s2.disk, n2, i) by {
      SameNeed(g, s2.disk, n2, s3.disk, n3, i);
    }
    MissingIsUnmapped(g, s3.disk, n3, i);
  }

  lemma SameNeed(g: Geometry, d: Disk, n: seq<Byte>, d': Disk, n': seq<Byte>, i: nat)
    requires GeometryOk(g) && i < MaxBlocks(g) && forall j: nat | j < 15 :: Ptr(n', j) == Ptr(n, j)
    requires forall row: nat | row < PerBlock(g) :: InnerTable(d', n', row) == InnerTable(d, n', row)
    ensures TablesNeeded(g, d', n', i) == TablesNeeded(g, d, n, i)
  {
    SlotsDiffer(g, i, i);
  }

  /** What `get_block_number` finds after `set_block_number`: the block entered at `i`, and elsewhere what was there. */
  lemma SetThenGet(g: Geometry, d0: Disk, n0: seq<Byte>, d1: Disk, n1: seq<Byte>, i: nat, v: int, k: nat)
    requires GeometryOk(g) && i < MaxBlocks(g) && k < MaxBlocks(g) && Entered(g, d0, n0, d1, n1, SlotOf(g, i), v)
    ensures Lookup(g, d1, n1, k) == if k == i then v else Lookup(g, d0, n0, k)
    ensures v != 0 ==> TablesNeeded(g, d1, n1, i) == 0
  {
    SlotsDiffer(g, i, k);
    SlotsDiffer(g, k, i);
    if TablesNeeded(g, d1, n1, i) > 0 {
      MissingIsUnmapped(g, d1, n1, i);
    }
  }

  /** A block of the file is written. */
  lemma DataWritten(g: Geometry, s: State, files: set<int>, f: int, n: seq<Byte>, i: nat, buffer: seq<Byte>)
    requires FsOk(g, s, files) && f in files && Placed(g, s, f) && InodeAt(g, s, f) == n && i < Count(g, n) &&
      |buffer| == g.blockSize
    ensures FileOk(g, s, f, n) && i < MaxBlocks(g)
    ensures var r := Lookup(g, s.disk, n, i); var s' := s.(disk := s.disk[r := buffer]);
      && r != 0 && Lookup(g, s'.disk, n, i) == r && Attached(g, s.disk, n, s'.disk, n, {}) && FsOk(g, s', files) &&
        Placed(g, s', f) && InodeAt(g, s', f) == n &&
        FileOk(g, s', f, n)
      && Elsewhere(g, s, s', files, f)
      && forall k: nat :: Content(g, s'.disk, n, k) == if k == i then buffer else Content(g, s.disk, n, k)
  {
    assert OneFileOk(g, s, f);
    var r := Lookup(g, s.disk, n, i);
    var s' := s.(disk := s.disk[r := buffer]);
    assert Owned(s.own, r, Data(f, i));
    assert OneBlock(g, s, s', r);
    FileBlockStored(g, s, s', files, f, r);
    MapFrame(g, s, s', f, n);
    forall k: nat
      ensures k < Count(g, n) ==>
        Lookup(g, s'.disk, n, k) == Lookup(g, s.disk, n, k) && Owned(s'.own, Lookup(g, s'.disk, n, k), Data(f, k))
      ensures Content(g, s'.disk, n, k) == if k == i then buffer else Content(g, s.disk, n, k)
    {
      if k < Count(g, n) {
        SlotsDiffer(g, k, k);
        assert Owned(s.own, Lookup(g, s.disk, n, k), Data(f, k));
      }
    }
    forall h | h in files ensures OneFileOk(g, s', h) {
    }
  }

  /** Block `i` of the file has got a new content; blocks before it may have come into being. */
  ghost predicate Rewritten(g: Geometry, s: State, s': State, files: set<int>, f: int, n: seq<Byte>, n': seq<Byte>,
      i: nat, buffer: seq<Byte>) {
    && FsOk(g, s', files) && f in files && Placed(g, s', f) && InodeAt(g, s', f) == n' && FileOk(g, s', f, n')
    && Count(g, n') == (if Count(g, n) <= i then i + 1 else Count(g, n)) && FileSize(n') == FileSize(n)
    && Elsewhere(g, s, s', files, f)
    && forall k: nat :: Content(g, s'.disk, n', k) == if k == i then buffer else Content(g, s.disk, n, k)
  }

  lemma GrownThenWritten(g: Geometry, s0: State, s1: State, files: set<int>, f: int, n0: seq<Byte>, n1: seq<Byte>,
      i: nat, buffer: seq<Byte>)
    requires GeometryOk(g)
    requires Grown(g, s0, s1, files, f, n0, n1, if Count(g, n0) <= i then i + 1 else Count(g, n0)) &&
      |buffer| == g.blockSize
    ensures i < MaxBlocks(g) && TablesOk(g, s1, f, n1) && TablesNeeded(g, s1.disk, n1, i) == 0 && AllocOk(g, s1) &&
      128 <= |n1|
    ensures var r := Lookup(g, s1.disk, n1, i);
      r != 0 && Lookup(g, s1.disk[r := buffer], n1, i) == r
      && Rewritten(g, s0, s1.(disk := s1.disk[r := buffer]), files, f, n0, n1, i, buffer)
      && Attached(g, s1.disk, n1, s1.disk[r := buffer], n1, {})
  {
    DataWritten(g, s1, files, f, n1, i, buffer);
    ElsewhereTwice(g, s0, s1, s1.(disk := s1.disk[Lookup(g, s1.disk, n1, i) := buffer]), files, f);
    forall k: nat ensures Content(g, s1.disk, n1, k) == Content(g, s0.disk, n0, k) {
    }
    if TablesNeeded(g, s1.disk, n1, i) > 0 {
      MissingIsUnmapped(g, s1.disk, n1, i);
    }
  }
}
