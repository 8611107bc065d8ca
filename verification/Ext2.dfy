/**
 The ext2 driver on the uncached path (src/modules/fs/ext2.cpp).
 */
module Ext2 {
  import opened Bytes
  import opened Ext2Bytes
  import opened Ext2Device
  import opened Ext2Disk
  import opened Ext2Map
  import opened Ext2Files
  import opened Ext2Frames
  import opened Ext2Steps
  import opened Ext2Space
  import opened Ext2Growth
  import opened Ext2Splice
  import opened Ext2Write
  import opened Ext2Content
  import opened Ext2Layout

  /** How the loop of `inode_write_block` can go: the file is large enough, or space has run out in one of two ways. */
  datatype Fate = Enough | Endless | Unmapped

  class Driver {
    const g: Geometry
    var disk: Disk
    var table: seq<Byte>
    var super: seq<Byte>
    ghost var own: map<int, Owner>

    ghost function Now(): State
      reads this
    {
      State(disk, table, super, own)
    }

    /** What the mount has read from the device. */
    constructor (geometry: Geometry, device: Disk, descriptors: seq<Byte>, superblock: seq<Byte>,
        ghost use: map<int, Owner>)
      ensures g == geometry && Now() == State(device, descriptors, superblock, use)
    {
      g := geometry;
      disk := device;
      table := descriptors;
      super := superblock;
      own := use;
    }

    /** `read_block`: block 0 is refused and leaves the buffer as it was. */
    method ReadBlock(blockNo: int, buffer: seq<Byte>) returns (result: seq<Byte>)
      requires blockNo == 0 || blockNo in disk
      ensures result == Result(disk, ReadOp(blockNo), buffer)
    {
      if blockNo == 0 {
        return buffer;
      }
      result := disk[blockNo];
    }

    /** `write_block`: block 0 is refused. */
    method WriteBlock(blockNo: int, buffer: seq<Byte>)
      modifies `disk
      ensures disk == Step(old(disk), WriteOp(blockNo, buffer))
    {
      if blockNo == 0 {
        return;
      }
      disk := disk[blockNo := buffer];
    }

    /** `rewrite_superblock`: the 1024 bytes from byte 1024 of the device on. */
    method RewriteSuper()
      requires AllBlocks(disk, g) && 0 <= SuperBlock(g) < g.total && SuperStart(g) + SUPER_SIZE <= g.blockSize &&
        |super| == SUPER_SIZE
      modifies `disk
      ensures AllBlocks(disk, g)
      ensures forall b | 0 <= b < g.total && b != SuperBlock(g) :: Block(disk, b) == Block(old(disk), b)
      ensures SuperStart(g) + SUPER_SIZE <= |Block(disk, SuperBlock(g))|
      ensures Block(disk, SuperBlock(g))[SuperStart(g)..SuperStart(g) + SUPER_SIZE] == super
    {
      var b, from := disk[SuperBlock(g)], SuperStart(g);
      disk := disk[SuperBlock(g) := b[..from] + super + b[from + SUPER_SIZE..]];
    }

    /** The descriptors go to the device, part by part. */
    method WriteDescriptors()
      requires AllBlocks(disk, g) && |table| == g.blockSize * g.span
      requires forall i | 0 <= i < g.span :: 0 < PartBlock(g, i) < g.total
      modifies `disk
      ensures AllBlocks(disk, g)
      ensures forall i | 0 <= i < g.span :: Block(disk, PartBlock(g, i)) == Part(g, table, i)
      ensures forall b | 0 <= b < g.total && !IsPartBlock(g, b, g.span) :: Block(disk, b) == Block(old(disk), b)
    {
      var i := 0;
      while i < g.span
        invariant 0 <= i <= g.span && AllBlocks(disk, g)
        invariant forall k | 0 <= k < i :: Block(disk, PartBlock(g, k)) == Part(g, table, k)
        invariant forall b | 0 <= b < g.total && !IsPartBlock(g, b, i) :: Block(disk, b) == Block(old(disk), b)
      {
        WriteBlock(PartBlock(g, i), Part(g, table, i));
        i := i + 1;
      }
    }

    /** The first group with a free block, and the first clear bit of its bitmap. */
    method FindFree() returns (group: nat, offset: nat, found: bool)
      requires AllocOk(g, Now())
      ensures found <==> SumFree(table, g.groups) > 0
      ensures found ==> group < g.groups && offset < g.blocksPerGroup && FreeCount(table, group) > 0
      ensures found ==> !IsSet(BitmapOf(Now(), group), offset) && forall k: nat | k < offset ::
        IsSet(BitmapOf(Now(), group), k)
      ensures found ==> forall i: nat, k: nat | i < group && k < g.blocksPerGroup :: IsSet(BitmapOf(Now(), i), k)
    {
      hide AllocOk;
      TableSize(g, Now());
      group, offset, found := 0, 0, false;
      SumIsZero(table, g.groups);
      while group < g.groups
        invariant group <= g.groups
        invariant forall i | 0 <= i < group :: FreeCount(table, i) == 0
      {
        if FreeCount(table, group) > 0 {
          ghost var k := ScanEnds(g, Now(), group);
          var buffer := ReadBlock(BitmapNo(table, group), []);
          while BitAt(buffer, offset)
            invariant offset <= k
            invariant forall l: nat | l < offset :: IsSet(BitmapOf(Now(), group), l)
            decreases k - offset
          {
            offset := offset + 1;
          }
          FullGroups(g, Now(), group);
          return group, offset, true;
        }
        group := group + 1;
      }
    }

    /**
     `allocate_block`: null if the device is full; otherwise a zeroed block that was nobody's,
     marked in its bitmap, with all counts one less, in memory and on the device.
     */
    method AllocateBlock(ghost o: Owner) returns (blockNo: int)
      requires AllocOk(g, Now())
      modifies `disk, `table, `super, `own
      ensures blockNo == 0 <==> SumFree(old(table), g.groups) == 0
      ensures blockNo == 0 ==> Now() == old(Now())
      ensures |table| == |old(table)|
      ensures SumFree(table, g.groups) == SumFree(old(table), g.groups) - if blockNo != 0 then 1 else 0
      ensures blockNo != 0 ==> NewBlock(g, old(Now()), Now(), blockNo, o)
      ensures blockNo != 0 ==> exists i: nat, k: nat ::
        blockNo == BlockNo(g, i, k) && AllocStep(g, old(Now()), Now(), i, k, o)
      ensures blockNo != 0 ==>
        FirstClearBit(g, old(Now()), blockNo / g.blocksPerGroup, blockNo % g.blocksPerGroup) &&
        IsSet(BitmapOf(Now(), blockNo / g.blocksPerGroup), blockNo % g.blocksPerGroup)
    {
      hide AllocOk, AllocStep, NewBlock, IsSet, BitmapOf, FreeCount;
      var group, offset, found := FindFree();
      TableSize(g, Now());
      blockNo := if found then offset + g.blocksPerGroup * group else 0;
      if found {
        FoundFree(g, Now(), group, offset);
      }
      if blockNo == 0 {
        return;
      }
      MarkBlock(group, offset, blockNo, o);
      StepIsNewBlock(g, old(Now()), Now(), group, offset, o);
      OneLess(g, old(Now()), Now(), blockNo, o);
      FirstTaken(g, old(Now()), Now(), group, offset, blockNo, o);
    }

    /**
     A run of allocations: as many blocks as there are, no two alike, none in use before, and all
     still zero at the end.
     */
    method AllocateAll(n: nat, ghost owners: seq<Owner>) returns (blocks: seq<int>)
      requires AllocOk(g, Now()) && |owners| == n && forall i | 0 <= i < n :: !Bookkeeping(owners[i])
      modifies `disk, `table, `super, `own
      ensures AllocOk(g, Now()) && |blocks| == if SumFree(old(table), g.groups) < n then SumFree(old(table), g.groups)
        else n
      ensures SumFree(table, g.groups) == SumFree(old(table), g.groups) - |blocks|
      ensures |blocks| <= n && HandedOut(g, old(Now()), Now(), blocks, owners[..|blocks|])
    {
      hide AllocOk, AllocStep, NewBlock, HandedOut, SumFree;
      blocks := [];
      TableSize(g, Now());
      NothingHandedOut(g, Now());
      assert owners[..0] == [];
      while |blocks| < n
        invariant |blocks| <= n && AllocOk(g, Now()) && 32 * g.groups <= |table| == |old(table)|
        invariant SumFree(table, g.groups) == SumFree(old(table), g.groups) - |blocks|
        invariant HandedOut(g, old(Now()), Now(), blocks, owners[..|blocks|])
      {
        ghost var s, o := Now(), owners[|blocks|];
        var b := AllocateBlock(o);
        if b == 0 {
          return;
        }
        OneMoreHandedOut(g, old(Now()), s, Now(), blocks, owners[..|blocks|], b, o);
        assert owners[..|blocks| + 1] == owners[..|blocks|] + [o];
        blocks := blocks + [b];
      }
    }

    /** The stores of an allocation: bitmap, descriptors, superblock, and the block itself. */
    method MarkBlock(group: nat, offset: nat, blockNo: int, ghost o: Owner)
      requires AllocOk(g, Now()) && group < g.groups && offset < g.blocksPerGroup &&
        blockNo == BlockNo(g, group, offset)
      requires 32 * group + 32 <= |table| && FreeCount(table, group) > 0 && !IsSet(BitmapOf(Now(), group), offset)
      modifies `disk, `table, `super, `own
      ensures AllocStep(g, old(Now()), Now(), group, offset, o)
    {
      hide AllocOk, AllocStep, PartBlock, IsPartBlock, SetBitAt, CountDown, SetWord, GetWord, Part, SuperStart,
        SuperBlock, IsSet, FreeCount;
      FoundFree(g, Now(), group, offset);
      var bitmap := BitmapNo(table, group);
      var buffer := ReadBlock(bitmap, []);
      buffer := SetBitAt(buffer, offset);
      WriteBlock(bitmap, buffer);
      ghost var d1 := disk;
      table := CountDown(table, group);
      WriteDescriptors();
      ghost var d2 := disk;
      super := SetWord(super, FREE_BLOCKS_WORD, GetWord(super, FREE_BLOCKS_WORD) - 1);
      RewriteSuper();
      ghost var d3 := disk;
      WriteBlock(blockNo, Zeros(g.blockSize));
      own := own[blockNo := o];
      StoresAreStep(g, old(Now()), Now(), group, offset, o, d1, d2, d3);
    }

    // ---------- Inodes ----------

    /** `write_inode` */
    method WriteInode(f: int, n: seq<Byte>)
      requires Placed(g, Now(), f) && |Block(disk, InodeBlock(g, table, f))| == g.blockSize && |n| == g.inodeSize
      requires InodeBlock(g, table, f) != 0
      modifies `disk
      ensures Now() == WithInode(g, old(Now()), f, n)
      ensures var from := (f % g.inodesPerGroup - 1) * g.inodeSize;
        0 <= from && forall k: nat | k < g.inodeSize ::
          ByteFrom(disk, InodesNo(table, f / g.inodesPerGroup), g.blockSize, from + k) == n[k]
    {
      InodeBytesStored(g, Now(), f, n);
      hide ByteFrom;
      var group := f / g.inodesPerGroup;
      if group > g.groups {
        return;
      }
      var tableBlock := InodesNo(table, group);
      var index := f - group * g.inodesPerGroup;
      var blockOffset := (index - 1) * g.inodeSize / g.blockSize;
      var offsetInBlock := (index - 1) - blockOffset * (g.blockSize / g.inodeSize);
      InodeInside(g, f);
      var buffer := ReadBlock(tableBlock + blockOffset, []);
      var start := offsetInBlock * g.inodeSize;
      buffer := buffer[..start] + n + buffer[start + g.inodeSize..];
      WriteBlock(tableBlock + blockOffset, buffer);
    }

    /** `refresh_inode` and `read_inode` */
    method ReadInode(f: int) returns (n: seq<Byte>)
      requires Placed(g, Now(), f) && |Block(disk, InodeBlock(g, table, f))| == g.blockSize
      requires InodeBlock(g, table, f) != 0
      ensures n == InodeAt(g, Now(), f) && |n| == g.inodeSize
      ensures var from := (f % g.inodesPerGroup - 1) * g.inodeSize;
        0 <= from && forall k: nat | k < g.inodeSize ::
          n[k] == ByteFrom(disk, InodesNo(table, f / g.inodesPerGroup), g.blockSize, from + k)
    {
      InodeBytes(g, Now(), f);
      hide ByteFrom;
      var group := f / g.inodesPerGroup;
      var tableBlock := InodesNo(table, group);
      var index := f - group * g.inodesPerGroup;
      var blockOffset := (index - 1) * g.inodeSize / g.blockSize;
      var offsetInBlock := (index - 1) - blockOffset * (g.blockSize / g.inodeSize);
      InodeInside(g, f);
      var buffer := ReadBlock(tableBlock + blockOffset, []);
      var start := offsetInBlock * g.inodeSize;
      n := buffer[start..start + g.inodeSize];
    }

    // ---------- The block map ----------

    /** `get_block_number` of a block whose tables are there. */
    method GetBlockNumber(n: seq<Byte>, iblock: nat, ghost f: int) returns (r: int)
      requires AllocOk(g, Now()) && TablesOk(g, Now(), f, n) && GeometryOk(g) && iblock < MaxBlocks(g) && 128 <= |n|
      requires TablesNeeded(g, disk, n, iblock) == 0
      ensures r == Lookup(g, disk, n, iblock)
      ensures iblock < 12 ==> r == Word(n, 10 + iblock)
      ensures 12 <= iblock < 12 + g.blockSize / 4 ==> r == Word(Block(disk, Word(n, 22)), iblock - 12)
      ensures 12 + g.blockSize / 4 <= iblock ==>
        var b: nat, p: nat := iblock - 12 - g.blockSize / 4, g.blockSize / 4;
        p > 0 && r == Word(Block(disk, Word(Block(disk, Word(n, 23)), b / p)), b % p)
    {
      hide AllocOk, Mapped;
      EntryPlace(g, disk, n, iblock);
      var p := g.blockSize / 4;
      TablesAreThere(g, Now(), f, n, iblock);
      if iblock < DIRECT_BLOCKS {
        return GetWord(n, BLOCK_WORD + iblock);
      } else if iblock < DIRECT_BLOCKS + p {
        var tmp := ReadBlock(GetWord(n, BLOCK_WORD + DIRECT_BLOCKS), []);
        return GetWord(tmp, iblock - DIRECT_BLOCKS);
      } else {
        var b := iblock - DIRECT_BLOCKS - p;
        var c := b / p;
        var d := b - c * p;
        var tmp := ReadBlock(GetWord(n, BLOCK_WORD + DIRECT_BLOCKS + 1), []);
        var nblock := GetWord(tmp, c);
        tmp := ReadBlock(nblock, tmp);
        return GetWord(tmp, d);
      }
    }

    /** The inode gets a table, fresh from the allocator, where it has none. */
    method NeedTable(n0: seq<Byte>, f: int, j: nat, ghost files: set<int>) returns (n: seq<Byte>, ok: bool)
      requires Others(g, Now(), files, f) && f in files && TablesOk(g, Now(), f, n0)
      requires j == DIRECT_BLOCKS || j == DIRECT_BLOCKS + 1
      modifies `disk, `table, `super, `own
      ensures Progress(g, old(Now()), Now(), files, f, n0, n) && SameMap(g, old(disk), n0, disk, n) &&
        |table| == |old(table)|
      ensures Others(g, Now(), files, f) && TablesOk(g, Now(), f, n)
      ensures ok <==> Ptr(n0, j) != 0 || SumFree(old(table), g.groups) > 0
      ensures if ok then Ptr(n, j) != 0 else n == n0 && Now() == old(Now())
      ensures SumFree(table, g.groups) == SumFree(old(table), g.groups) - if ok && Ptr(n0, j) == 0 then 1 else 0
      ensures if Ptr(n0, j) != 0 then n == n0 && Now() == old(Now())
        else j == DIRECT_BLOCKS + 1 ==> forall row: nat | row < PerBlock(g) :: InnerTable(disk, n, row) == 0
      ensures ok ==> Attached(g, old(disk), n0, disk, n, {TopTable(j)})
    {
      hide Others, AllocOk, Progress, SameMap, NewBlock, TablesOk, AllocStep, WithInode, InodeAt, InodeBlock, Placed,
        InnerTable, Attached;
      hide Ptr, SetPtr, GetWord, SetWord, Block;
      OthersShape(g, Now(), files, f, n0);
      PointerWords(n0, j);
      n, ok := n0, true;
      NoProgress(g, Now(), files, f, n0);
      ThereAlready(g, disk, n0, j);
      if GetWord(n, BLOCK_WORD + j) == 0 {
        ghost var o := if j == DIRECT_BLOCKS then Single(f) else Double(f);
        ghost var s0 := Now();
        var b := AllocateBlock(o);
        if b == 0 {
          NoRows(disk, n, j);
          return n0, false;
        }
        ghost var s1 := Now();
        TableAllocated(g, s0, s1, files, f, n0, b, o);
        FreshTable(g, s0, s1, files, f, n0, j, b, o);
        n := SetWord(n, BLOCK_WORD + j, b);
        assert n == SetPtr(n0, j, b);
        PointerWritten(g, s1, files, f, n);
        InodeBlockUsed(g, s1, files, f);
        WriteInode(f, n);
        ProgressTwice(g, s0, s1, s1, files, f, n0, n0, n);
        ProgressTwice(g, s0, s1, Now(), files, f, n0, n, n);
        SameMapTwice(g, s0.disk, n0, s1.disk, n0, s1.disk, n);
        SameMapTwice(g, s0.disk, n0, s1.disk, n, disk, n);
        RowsKept(g, s1, Now(), files, f, n, j);
        TableThere(g, s0.disk, s1.disk, disk, n0, n, j, b);
      }
    }

    /** The row of the double range gets a table, fresh from the allocator, where it has none. */
    method NeedRow(n: seq<Byte>, f: int, row: nat, ghost files: set<int>) returns (inner: int)
      requires Others(g, Now(), files, f) && f in files && TablesOk(g, Now(), f, n)
      requires Ptr(n, DIRECT_BLOCKS + 1) != 0 && row < PerBlock(g)
      modifies `disk, `table, `super, `own
      ensures Progress(g, old(Now()), Now(), files, f, n, n) && SameMap(g, old(disk), n, disk, n) &&
        |table| == |old(table)|
      ensures Others(g, Now(), files, f) && TablesOk(g, Now(), f, n)
      ensures inner == InnerTable(disk, n, row)
      ensures inner != 0 <==> InnerTable(old(disk), n, row) != 0 || SumFree(old(table), g.groups) > 0
      ensures SumFree(table, g.groups) == SumFree(old(table), g.groups) - if inner != 0 &&
        InnerTable(old(disk), n, row) == 0 then 1 else 0
      ensures inner != 0 ==> Attached(g, old(disk), n, disk, n, {RowTable(row)})
    {
      hide Others, AllocOk, Progress, SameMap, NewBlock, TablesOk, AllocStep, Attached, Ptr, GetWord, SetWord, Block,
        Word;
      OthersShape(g, Now(), files, f, n);
      PointerWords(n, DIRECT_BLOCKS + 1);
      DoubleIsThere(g, Now(), files, f, n, row);
      NoProgress(g, Now(), files, f, n);
      RowThereAlready(g, disk, n, row);
      var double := GetWord(n, BLOCK_WORD + DIRECT_BLOCKS + 1);
      var tmp := ReadBlock(double, []);
      if GetWord(tmp, row) == 0 {
        ghost var s0 := Now();
        var b := AllocateBlock(Inner(f, row));
        if b == 0 {
          return 0;
        }
        ghost var s1 := Now();
        TableAllocated(g, s0, s1, files, f, n, b, Inner(f, row));
        FreshRow(g, s0, s1, files, f, n, row, b);
        WordStored(tmp, row, b, row);
        tmp := SetWord(tmp, row, b);
        WriteBlock(double, tmp);
        RowThere(g, s0.disk, s1.disk, disk, n, row, b);
        ProgressTwice(g, s0, s1, Now(), files, f, n, n, n);
        SameMapTwice(g, s0.disk, n, s1.disk, n, disk, n);
      }
      inner := GetWord(tmp, row);
    }

    /**
     `set_block_number`: enters `rblock` as block `iblock` of the file.  It fails exactly if the
     device cannot provide the tables that are missing, and then maps what it mapped before.
     */
    method SetBlockNumber(n0: seq<Byte>, f: int, iblock: nat, rblock: int, ghost files: set<int>)
        returns (n: seq<Byte>, ok: bool)
      requires Others(g, Now(), files, f) && f in files && TablesOk(g, Now(), f, n0)
      requires GeometryOk(g) && iblock < MaxBlocks(g) && 0 <= rblock < WORD_LIMIT
      modifies `disk, `table, `super, `own
      ensures Progress(g, old(Now()), Now(), files, f, n0, n) && |table| == |old(table)|
      ensures Others(g, Now(), files, f) && TablesOk(g, Now(), f, n)
      ensures ok <==> SumFree(old(table), g.groups) >= TablesNeeded(g, old(disk), n0, iblock)
      ensures ok ==> SumFree(table, g.groups) == SumFree(old(table), g.groups) - TablesNeeded(g, old(disk), n0, iblock)
      ensures if ok then Entered(g, old(disk), n0, disk, n, SlotOf(g, iblock), rblock)
        else SameMap(g, old(disk), n0, disk, n)
      ensures !ok ==> SumFree(table, g.groups) == 0 && TablesNeeded(g, disk, n, iblock) > 0
      ensures ok ==> Attached(g, old(disk), n0, disk, n, Path(g, iblock))
      ensures ok && iblock < 12 ==> rblock == Word(n, 10 + iblock)
      ensures ok && 12 <= iblock < 12 + g.blockSize / 4 ==> rblock == Word(Block(disk, Word(n, 22)), iblock - 12)
      ensures ok && 12 + g.blockSize / 4 <= iblock ==>
        var b: nat, p: nat := iblock - 12 - g.blockSize / 4, g.blockSize / 4;
        p > 0 && rblock == Word(Block(disk, Word(Block(disk, Word(n, 23)), b / p)), b % p)
    {
      hide Others, AllocOk, Progress, SameMap, TablesOk, Entered, Attached, At, Ptr, SetPtr, GetWord, SetWord, Block,
        Word, TablesNeeded, Path;
      OthersShape(g, Now(), files, f, n0);
      SlotsDiffer(g, iblock, iblock);
      ghost var s0 := Now();
      if iblock < DIRECT_BLOCKS {
        PointerWords(n0, iblock);
        EnterDirect(g, s0, files, f, n0, iblock, rblock);
        DirectNeedsNothing(g, disk, n0, iblock);
        n := SetWord(n0, BLOCK_WORD + iblock, rblock);
        ok := true;
      } else if iblock < DIRECT_BLOCKS + g.blockSize / 4 {
        n, ok := SetInTable(n0, f, iblock, rblock, files);
      } else {
        n, ok := SetInRow(n0, f, iblock, rblock, files);
      }
      if ok {
        EnteredPlace(g, s0.disk, n0, disk, n, iblock, rblock);
      }
    }

    /** The part of `set_block_number` for the single table. */
    method SetInTable(n0: seq<Byte>, f: int, iblock: nat, rblock: int, ghost files: set<int>)
        returns (n: seq<Byte>, ok: bool)
      requires Others(g, Now(), files, f) && f in files && TablesOk(g, Now(), f, n0)
      requires GeometryOk(g) && iblock < MaxBlocks(g) && 0 <= rblock < WORD_LIMIT
      requires DIRECT_BLOCKS <= iblock < DIRECT_BLOCKS + g.blockSize / 4
      modifies `disk, `table, `super, `own
      ensures Progress(g, old(Now()), Now(), files, f, n0, n) && |table| == |old(table)|
      ensures Others(g, Now(), files, f) && TablesOk(g, Now(), f, n)
      ensures ok <==> SumFree(old(table), g.groups) >= TablesNeeded(g, old(disk), n0, iblock)
      ensures ok ==> SumFree(table, g.groups) == SumFree(old(table), g.groups) - TablesNeeded(g, old(disk), n0, iblock)
      ensures if ok then Entered(g, old(disk), n0, disk, n, SlotOf(g, iblock), rblock)
        else SameMap(g, old(disk), n0, disk, n)
      ensures !ok ==> SumFree(table, g.groups) == 0 && TablesNeeded(g, disk, n, iblock) > 0
      ensures ok ==> Attached(g, old(disk), n0, disk, n, Path(g, iblock))
    {
      hide Others, AllocOk, Progress, SameMap, TablesOk, Entered, Attached, InnerTable, At, Ptr, SetPtr, GetWord,
        SetWord, Block, Word;
      OthersShape(g, Now(), files, f, n0);
      SlotsDiffer(g, iblock, iblock);
      ghost var s0 := Now();
      n, ok := NeedTable(n0, f, DIRECT_BLOCKS, files);
      if !ok {
        return n, false;
      }
      ghost var s1 := Now();
      EnterSingle(g, s1, files, f, n, iblock - DIRECT_BLOCKS, rblock);
      var single := GetWord(n, BLOCK_WORD + DIRECT_BLOCKS);
      var tmp := ReadBlock(single, []);
      tmp := SetWord(tmp, iblock - DIRECT_BLOCKS, rblock);
      WriteBlock(single, tmp);
      ProgressTwice(g, s0, s1, Now(), files, f, n0, n, n);
      EnteredAfter(g, s0.disk, n0, s1.disk, n, disk, n, SlotOf(g, iblock), rblock);
      AttachedTwice(g, s0.disk, n0, s1.disk, n, disk, n, {SingleTable}, {});
      assert {SingleTable} + {} == Path(g, iblock);
    }

    /** The part of `set_block_number` for the table of tables. */
    method SetInRow(n0: seq<Byte>, f: int, iblock: nat, rblock: int, ghost files: set<int>)
        returns (n: seq<Byte>, ok: bool)
      requires Others(g, Now(), files, f) && f in files && TablesOk(g, Now(), f, n0)
      requires GeometryOk(g) && iblock < MaxBlocks(g) && 0 <= rblock < WORD_LIMIT
      requires DIRECT_BLOCKS + g.blockSize / 4 <= iblock
      modifies `disk, `table, `super, `own
      ensures Progress(g, old(Now()), Now(), files, f, n0, n) && |table| == |old(table)|
      ensures Others(g, Now(), files, f) && TablesOk(g, Now(), f, n)
      ensures ok <==> SumFree(old(table), g.groups) >= TablesNeeded(g, old(disk), n0, iblock)
      ensures ok ==> SumFree(table, g.groups) == SumFree(old(table), g.groups) - TablesNeeded(g, old(disk), n0, iblock)
      ensures if ok then Entered(g, old(disk), n0, disk, n, SlotOf(g, iblock), rblock)
        else SameMap(g, old(disk), n0, disk, n)
      ensures !ok ==> SumFree(table, g.groups) == 0 && TablesNeeded(g, disk, n, iblock) > 0
      ensures ok ==> Attached(g, old(disk), n0, disk, n, Path(g, iblock))
    {
      hide Others, AllocOk, Progress, SameMap, TablesOk, Entered, Attached, InnerTable, At, Ptr, SetPtr, GetWord,
        SetWord, Block, Word;
      OthersShape(g, Now(), files, f, n0);
      SlotsDiffer(g, iblock, iblock);
      ghost var s0 := Now();
      var p := g.blockSize / 4;
      var b := iblock - DIRECT_BLOCKS - p;
      var c := b / p;
      var d := b - c * p;
      n, ok := NeedTable(n0, f, DIRECT_BLOCKS + 1, files);
      if !ok {
        return n, false;
      }
      ghost var s1 := Now();
      var nblock := NeedRow(n, f, c, files);
      ghost var s2 := Now();
      ProgressTwice(g, s0, s1, s2, files, f, n0, n, n);
      SameMapTwice(g, s0.disk, n0, s1.disk, n, s2.disk, n);
      if nblock == 0 {
        return n, false;
      }
      EnterDouble(g, s2, files, f, n, c, d, rblock);
      var tmp := ReadBlock(nblock, []);
      tmp := SetWord(tmp, d, rblock);
      WriteBlock(nblock, tmp);
      ProgressTwice(g, s0, s2, Now(), files, f, n0, n, n);
      EnteredAfter(g, s0.disk, n0, s2.disk, n, disk, n, SlotOf(g, iblock), rblock);
      AttachedTwice(g, s0.disk, n0, s1.disk, n, s2.disk, n, {DoubleTable}, {RowTable(c)});
      AttachedTwice(g, s0.disk, n0, s2.disk, n, disk, n, {DoubleTable} + {RowTable(c)}, {});
      assert {DoubleTable} + {RowTable(c)} + {} == Path(g, iblock);
    }

    // ---------- Blocks of a file ----------

    /**
     `allocate_inode_block`: the file grows by one zeroed block.  The result of
     `set_block_number` is not looked at: with a block left for the data but none for the
     tables, the count grows although nothing is mapped.
     */
    method AllocateInodeBlock(n0: seq<Byte>, f: int, block: nat, ghost files: set<int>) returns (n: seq<Byte>, ok: bool)
      requires Others(g, Now(), files, f) && f in files && TablesOk(g, Now(), f, n0) && Placed(g, Now(), f)
      requires InodeAt(g, Now(), f) == n0 && CountsFit(g) && block == Count(g, n0) < MaxBlocks(g)
      requires 32 * g.groups <= |table| && (SumFree(table, g.groups) > 0 ==> FsOk(g, Now(), files))
      modifies `disk, `table, `super, `own
      ensures |table| == |old(table)|
      ensures ok <==> SumFree(old(table), g.groups) > 0
      ensures !ok ==> n == n0 && Now() == old(Now())
      ensures SumFree(old(table), g.groups) > TablesNeeded(g, old(disk), n0, block) ==>
        Grown(g, old(Now()), Now(), files, f, n0, n, block + 1)
        && SumFree(table, g.groups) == SumFree(old(table), g.groups) - 1 - TablesNeeded(g, old(disk), n0, block)
        && Attached(g, old(disk), n0, disk, n, Path(g, block))
      ensures 0 < SumFree(old(table), g.groups) <= TablesNeeded(g, old(disk), n0, block) ==>
        && Count(g, n) == block + 1 && Lookup(g, disk, n, block) == 0
        && Lost(g, old(Now()), Now(), files, f, n) && SumFree(table, g.groups) == 0
    {
      hide FsOk, Others, AllocOk, Progress, SameMap, TablesOk, Entered, FileOk, Mapped, Grown, NewBlock, AllocStep,
        Elsewhere, SameData;
      hide Word, GetWord, SetWord, Block, At, TablesNeeded, WithInode, InodeAt, InodeBlock, Lost, Attached, Path;
      ghost var s0 := Now();
      OthersShape(g, s0, files, f, n0);
      if SumFree(table, g.groups) > 0 {
        WholeFs(g, s0, files, f, n0);
      }
      SectorsFit(g, block + 1);
      CountAbove(g, n0);
      var blockNo := AllocateBlock(Data(f, block));
      if blockNo == 0 {
        return n0, false;
      }
      ghost var s1 := Now();
      DataAllocated(g, s0, s1, files, f, n0, block, blockNo);
      var entered: bool;
      n, entered := SetBlockNumber(n0, f, block, blockNo, files);
      ghost var s2 := Now();
      AfterSet(g, s0, s1, s2, files, f, n0, n, block, blockNo, entered);
      var t := (block + 1) * (g.blockSize / 512);
      if GetWord(n, SECTORS_WORD) < t {
        n := SetWord(n, SECTORS_WORD, t);
      }
      InodeBlockUsed(g, s2, files, f);
      WriteInode(f, n);
      ok := true;
    }

    /** `inode_read_block`: beyond the blocks of the file there are zeros. */
    method InodeReadBlock(n: seq<Byte>, block: nat, ghost f: int) returns (buffer: seq<Byte>, realBlock: int)
      requires AllocOk(g, Now()) && FileOk(g, Now(), f, n) && 128 <= |n|
      ensures buffer == Content(g, disk, n, block) && |buffer| == g.blockSize
      ensures GeometryOk(g) && realBlock == if block < Count(g, n) then Lookup(g, disk, n, block) else 0
    {
      hide AllocOk, FileOk, TablesOk, TablesNeeded;
      BlockOfFile(g, Now(), f, n, block);
      if block >= GetWord(n, SECTORS_WORD) / (g.blockSize / 512) {
        return Zeros(g.blockSize), 0;
      }
      realBlock := GetBlockNumber(n, block, f);
      buffer := ReadBlock(realBlock, []);
    }

    /** The free blocks a file takes to get to a length. */
    ghost function SpaceTo(d: Disk, n: seq<Byte>, to: nat): nat
      requires GeometryOk(g)
    {
      Space(g, d, n, Count(g, n), to)
    }

    /**
     The loop of `inode_write_block`: the file grows as far as needed, exactly if there are enough
     free blocks for its data and the tables it lacks.  Otherwise, if it is the tables of the last
     block that lack one, the loop ends with this block counted but not mapped; and if the blocks
     before it use up what there is, the loop has come to a state that each further round leaves as
     it is, so it never ends.
     */
    method GrowTo(n0: seq<Byte>, f: int, block: nat, ghost files: set<int>) returns (n: seq<Byte>, fate: Fate)
      requires FsOk(g, Now(), files) && f in files && Placed(g, Now(), f) && InodeAt(g, Now(), f) == n0
      requires GeometryOk(g) && CountsFit(g) && block < MaxBlocks(g) && 32 * g.groups <= |table|
      modifies `disk, `table, `super, `own
      ensures |table| == |old(table)|
      ensures fate.Enough? ==> Grown(g, old(Now()), Now(), files, f, n0, n, if Count(g, n0) <= block then block + 1
        else Count(g, n0))
      ensures fate.Enough? ==> SpaceSpent(g, old(Now()), n0, Now(), n)
      ensures fate.Endless? ==> Count(g, n) <= block && NoneLeft(g, Now(), files, f, n)
      ensures fate.Unmapped? ==>
        Count(g, n) == block + 1 && Lost(g, old(Now()), Now(), files, f, n) && NoneLeft(g, Now(), files, f, n)
      ensures block < Count(g, n0) ==> fate.Enough?
      ensures block >= Count(g, n0) ==>
        && (fate.Enough? <==> SpaceTo(old(disk), n0, block + 1) <= SumFree(old(table), g.groups))
        && (fate.Unmapped? <==>
              SpaceTo(old(disk), n0, block) < SumFree(old(table), g.groups) < SpaceTo(old(disk), n0, block + 1))
        && (fate.Endless? <==> SumFree(old(table), g.groups) <= SpaceTo(old(disk), n0, block))
    {
      hide FsOk, Others, AllocOk, FileOk, Grown, Lost, TablesNeeded, TablesOk, Placed, Word, GetWord, InodeAt, NoneLeft,
        Growing, Space, SpaceSpent, Attached, Path;
      n := n0;
      ghost var s0, lost := Now(), false;
      GrowingStarts(g, s0, files, f, n0, block);
      GrowingIs(g, s0, s0, files, f, n0, n0, block, false);
      while block >= GetWord(n, SECTORS_WORD) / (g.blockSize / 512)
        invariant Growing(g, s0, Now(), files, f, n0, n, block, lost) && |table| == |s0.table|
        invariant 128 <= |n| && GetWord(n, SECTORS_WORD) / (g.blockSize / 512) == Count(g, n)
        decreases block + 1 - Count(g, n)
      {
        ghost var s1, n1 := Now(), n;
        var blocks := GetWord(n, SECTORS_WORD) / (g.blockSize / 512);
        GrowingIs(g, s0, s1, files, f, n0, n, block, lost);
        var ok: bool;
        n, ok := AllocateInodeBlock(n, f, blocks, files);
        if !ok {
          GrowingEnds(g, s0, s1, files, f, n0, n, block, lost);
          return n, Endless;
        }
        RoundDone(g, s0, s1, Now(), files, f, n0, n1, n, block, lost);
        lost := SumFree(s1.table, g.groups) <= TablesNeeded(g, s1.disk, n1, blocks);
        GrowingIs(g, s0, Now(), files, f, n0, n, block, lost);
        n := ReadInode(f);
      }
      GrowingEnds(g, s0, Now(), files, f, n0, n, block, lost);
      fate := if TablesNeeded(g, disk, n, block) > 0 then Unmapped else Enough;
    }

    /**
     `inode_write_block`: the block gets its content if the file can grow far enough.  If it was
     only counted, the source goes on with a block number from a buffer it has not filled.
     */
    method InodeWriteBlock(n0: seq<Byte>, f: int, block: nat, buffer: seq<Byte>, ghost files: set<int>)
        returns (n: seq<Byte>, realBlock: int, fate: Fate)
      requires FsOk(g, Now(), files) && f in files && Placed(g, Now(), f) && InodeAt(g, Now(), f) == n0
      requires GeometryOk(g) && CountsFit(g) && block < MaxBlocks(g) && |buffer| == g.blockSize &&
        32 * g.groups <= |table|
      modifies `disk, `table, `super, `own
      ensures |table| == |old(table)|
      ensures fate.Enough? ==>
        Rewritten(g, old(Now()), Now(), files, f, n0, n, block, buffer) && realBlock == Lookup(g, disk, n, block)
      ensures fate.Enough? ==> SpaceSpent(g, old(Now()), n0, Now(), n)
      ensures fate.Endless? ==> Count(g, n) <= block && NoneLeft(g, Now(), files, f, n)
      ensures fate.Unmapped? ==>
        Count(g, n) == block + 1 && Lost(g, old(Now()), Now(), files, f, n) && NoneLeft(g, Now(), files, f, n)
      ensures block < Count(g, n0) ==> fate.Enough?
      ensures block >= Count(g, n0) ==>
        && (fate.Enough? <==> SpaceTo(old(disk), n0, block + 1) <= SumFree(old(table), g.groups))
        && (fate.Unmapped? <==>
              SpaceTo(old(disk), n0, block) < SumFree(old(table), g.groups) < SpaceTo(old(disk), n0, block + 1))
        && (fate.Endless? <==> SumFree(old(table), g.groups) <= SpaceTo(old(disk), n0, block))
    {
      hide FsOk, AllocOk, FileOk, Grown, Lost, TablesNeeded, TablesOk, Lookup, Rewritten, NoneLeft, InodeAt, Space,
        SpaceSpent, Attached;
      ghost var s0 := Now();
      n, fate := GrowTo(n0, f, block, files);
      if !fate.Enough? {
        return n, 0, fate;
      }
      ghost var s1 := Now();
      GrownThenWritten(g, s0, Now(), files, f, n0, n, block, buffer);
      realBlock := GetBlockNumber(n, block, f);
      WriteBlock(realBlock, buffer);
      NothingSpent(g, s1, n, Now(), n);
      SpentTwice(g, s0, n0, s1, n, Now(), n);
    }

    // ---------- Bytes of a file ----------

    /** One block of a write; `buf` is the block with its part of the buffer. */
    method WritePart(n1: seq<Byte>, f: int, block: nat, buf: seq<Byte>, ghost s0: State, ghost n0: seq<Byte>,
        ghost offset: nat, ghost buffer: seq<Byte>, ghost lo: nat, ghost reach: nat, ghost files: set<int>)
        returns (n: seq<Byte>)
      requires GeometryOk(g) && CountsFit(g) && 32 * g.groups <= |table| == |s0.table| && reach <= MaxBlocks(g)
      requires Splicing(g, s0, Now(), files, f, n0, n1, offset, buffer, lo, block) && lo <= block < reach
      requires buf == Patched(g.blockSize, Content(g, s0.disk, n0, block), block, offset, buffer) &&
        |buf| == g.blockSize
      requires SumFree(s0.table, g.groups) >= SpaceTo(s0.disk, n0, reach) && SpaceSpent(g, s0, n0, Now(), n1)
      modifies `disk, `table, `super, `own
      ensures Splicing(g, s0, Now(), files, f, n0, n, offset, buffer, lo, block + 1) && FileSize(n) == FileSize(n1)
      ensures |table| == |old(table)| && SpaceSpent(g, s0, n0, Now(), n)
    {
      hide Space, SpaceSpent;
      ghost var s1 := Now();
      SpaceLeft(g, s0, n0, s1, n1, block, reach);
      var realBlock, fate;
      n, realBlock, fate := InodeWriteBlock(n1, f, block, buf, files);
      SpentTwice(g, s0, n0, s1, n1, Now(), n);
      SplicingGoesOn(g, s0, s1, Now(), files, f, n0, n1, n, offset, buffer, lo, block);
    }

    /** The size is raised first if the write ends behind it. */
    method RaiseSize(n0: seq<Byte>, f: int, end: nat, ghost files: set<int>) returns (n: seq<Byte>)
      requires FsOk(g, Now(), files) && f in files && Placed(g, Now(), f) && InodeAt(g, Now(), f) == n0 && 128 <= |n0|
      requires GeometryOk(g) && end < WORD_LIMIT
      modifies `disk
      ensures FsOk(g, Now(), files) && Placed(g, Now(), f) && InodeAt(g, Now(), f) == n && 128 <= |n|
      ensures Elsewhere(g, old(Now()), Now(), files, f) && Count(g, n) == Count(g, n0)
      ensures SameContent(g, old(disk), n0, disk, n) && 32 * g.groups <= |table|
      ensures SpaceSpent(g, old(Now()), n0, Now(), n)
      ensures FileSize(n) == if FileSize(n0) < end then end else FileSize(n0)
    {
      n := n0;
      TableSize(g, Now());
      NotGrown(g, Now(), files, f, n0);
      NothingSpent(g, Now(), n0, Now(), n0);
      if end > GetWord(n, SIZE_WORD) {
        SizeWritten(g, Now(), files, f, n0, end);
        n := SetWord(n, SIZE_WORD, end);
        InodeBlockThere(g, Now(), files, f);
        WriteInode(f, n);
      }
    }

    /** A write that reaches over several blocks. */
    method WriteBlocks(n1: seq<Byte>, f: int, offset: nat, buffer: seq<Byte>, startBlock: nat, endBlock: nat, o: nat,
        endSize: nat, ghost s0: State, ghost n0: seq<Byte>, ghost reach: nat, ghost files: set<int>)
        returns (n: seq<Byte>)
      requires GeometryOk(g) && CountsFit(g) && 32 * g.groups <= |table| == |s0.table| && AllocOk(g, s0) &&
        OneFileOk(g, s0, f)
      requires Placed(g, s0, f) && InodeAt(g, s0, f) == n0 && startBlock < endBlock
      requires reach == (if endSize > 0 then endBlock + 1 else endBlock) && reach <= MaxBlocks(g)
      requires Range(g.blockSize, offset, offset + |buffer|, startBlock, o, endBlock, endSize)
      requires Splicing(g, s0, Now(), files, f, n0, n1, offset, buffer, startBlock, startBlock)
      requires SumFree(s0.table, g.groups) >= SpaceTo(s0.disk, n0, reach) && SpaceSpent(g, s0, n0, Now(), n1)
      modifies `disk, `table, `super, `own
      ensures Splicing(g, s0, Now(), files, f, n0, n, offset, buffer, startBlock, reach) && FileSize(n) == FileSize(n1)
      ensures |table| == |s0.table| && SpaceSpent(g, s0, n0, Now(), n)
    {
      hide FsOk, AllocOk, FileOk, Splicing, Elsewhere, InodeAt, Count, Content, Patched, Pos, Range, SumFree, Space,
        SpaceSpent;
      n := n1;
      RangeEnds(g.blockSize, offset, offset + |buffer|, startBlock, o, endBlock, endSize);
      var blockOffset, blocksRead := startBlock, 0;
      while blockOffset < endBlock
        invariant startBlock <= blockOffset <= endBlock && blocksRead == blockOffset - startBlock
        invariant Splicing(g, s0, Now(), files, f, n0, n, offset, buffer, startBlock, blockOffset)
        invariant |table| == |s0.table|
        invariant FileSize(n) == FileSize(n1)
        invariant SpaceSpent(g, s0, n0, Now(), n)
      {
        n := WriteFullBlock(n, f, offset, buffer, startBlock, endBlock, o, endSize, blocksRead, s0, n0, reach, files);
        blockOffset, blocksRead := blockOffset + 1, blocksRead + 1;
      }
      if endSize > 0 {
        n := WriteLastBlock(n, f, offset, buffer, startBlock, endBlock, o, endSize, blocksRead, s0, n0, reach, files);
      }
    }

    /** One of the blocks of `write_inode_buffer` up to whose end the buffer reaches. */
    method WriteFullBlock(n1: seq<Byte>, f: int, offset: nat, buffer: seq<Byte>, startBlock: nat, ghost endBlock: nat,
        o: nat, ghost endSize: nat, blocksRead: nat, ghost s0: State, ghost n0: seq<Byte>, ghost reach: nat,
        ghost files: set<int>)
        returns (n: seq<Byte>)
      requires GeometryOk(g) && CountsFit(g) && 32 * g.groups <= |table| == |s0.table|
      requires startBlock + blocksRead < endBlock <= reach <= MaxBlocks(g) && startBlock < endBlock
      requires Range(g.blockSize, offset, offset + |buffer|, startBlock, o, endBlock, endSize)
      requires Splicing(g, s0, Now(), files, f, n0, n1, offset, buffer, startBlock, startBlock + blocksRead)
      requires SumFree(s0.table, g.groups) >= SpaceTo(s0.disk, n0, reach) && SpaceSpent(g, s0, n0, Now(), n1)
      modifies `disk, `table, `super, `own
      ensures Splicing(g, s0, Now(), files, f, n0, n, offset, buffer, startBlock, startBlock + blocksRead + 1)
      ensures FileSize(n) == FileSize(n1) && |table| == |s0.table| && SpaceSpent(g, s0, n0, Now(), n)
    {
      hide FsOk, AllocOk, FileOk, Splicing, Elsewhere, InodeAt, Count, Content, Patched, Pos, Range, SumFree, Space,
        SpaceSpent;
      RangeEnds(g.blockSize, offset, offset + |buffer|, startBlock, o, endBlock, endSize);
      ghost var block := startBlock + blocksRead;
      Unpatched(g, s0, Now(), files, f, n0, n1, offset, buffer, startBlock, block);
      var buf, b := InodeReadBlock(n1, startBlock + blocksRead, f);
      if blocksRead == 0 {
        FirstPatch(g.blockSize, buf, offset, buffer, startBlock, o, endBlock, endSize);
        buf := buf[..o] + buffer[..g.blockSize - o];
      } else {
        MiddlePatch(g.blockSize, buf, offset, buffer, startBlock, o, endBlock, endSize, blocksRead);
        buf := buffer[g.blockSize * blocksRead - o..g.blockSize * blocksRead - o + g.blockSize];
      }
      n := WritePart(n1, f, startBlock + blocksRead, buf, s0, n0, offset, buffer, startBlock, reach, files);
      if b == 0 {
        ReadsBack(g, s0, Now(), files, f, n0, n, offset, buffer, startBlock, block + 1);
        n := ReadInode(f);
      }
    }

    /** The part of `write_inode_buffer` that goes to the last block. */
    method WriteLastBlock(n1: seq<Byte>, f: int, offset: nat, buffer: seq<Byte>, ghost startBlock: nat, endBlock: nat,
        o: nat, endSize: nat, blocksRead: nat, ghost s0: State, ghost n0: seq<Byte>, ghost reach: nat,
        ghost files: set<int>)
        returns (n: seq<Byte>)
      requires GeometryOk(g) && CountsFit(g) && 32 * g.groups <= |table| == |s0.table|
      requires startBlock < endBlock && blocksRead == endBlock - startBlock && 0 < endSize
      requires reach == endBlock + 1 <= MaxBlocks(g)
      requires Range(g.blockSize, offset, offset + |buffer|, startBlock, o, endBlock, endSize)
      requires Splicing(g, s0, Now(), files, f, n0, n1, offset, buffer, startBlock, endBlock)
      requires SumFree(s0.table, g.groups) >= SpaceTo(s0.disk, n0, reach) && SpaceSpent(g, s0, n0, Now(), n1)
      modifies `disk, `table, `super, `own
      ensures Splicing(g, s0, Now(), files, f, n0, n, offset, buffer, startBlock, reach) && FileSize(n) == FileSize(n1)
      ensures |table| == |s0.table| && SpaceSpent(g, s0, n0, Now(), n)
    {
      hide FsOk, AllocOk, FileOk, Splicing, Elsewhere, InodeAt, Count, Content, Patched, Pos, Range, SumFree, Space,
        SpaceSpent;
      RangeEnds(g.blockSize, offset, offset + |buffer|, startBlock, o, endBlock, endSize);
      Unpatched(g, s0, Now(), files, f, n0, n1, offset, buffer, startBlock, endBlock);
      var buf, b := InodeReadBlock(n1, endBlock, f);
      LastPatch(g.blockSize, buf, offset, buffer, startBlock, o, endBlock, endSize);
      buf := buffer[g.blockSize * blocksRead - o..g.blockSize * blocksRead - o + endSize] + buf[endSize..];
      n := WritePart(n1, f, endBlock, buf, s0, n0, offset, buffer, startBlock, reach, files);
    }

    /**
     `write_inode_buffer`, given enough free blocks: the buffer is in the file at `offset`, all
     other bytes of the file's blocks are as before, and no other file is concerned.
     */
    method WriteInodeBuffer(n0: seq<Byte>, f: int, offset: nat, buffer: seq<Byte>, ghost files: set<int>)
        returns (n: seq<Byte>, written: nat)
      requires FsOk(g, Now(), files) && f in files && Placed(g, Now(), f) && InodeAt(g, Now(), f) == n0
      requires GeometryOk(g) && CountsFit(g) && offset + |buffer| < WORD_LIMIT && 32 * g.groups <= |table|
      requires Reach(g.blockSize, offset, offset + |buffer|) <= MaxBlocks(g)
      requires SumFree(table, g.groups) >= SpaceTo(disk, n0, Reach(g.blockSize, offset, offset + |buffer|))
      modifies `disk, `table, `super, `own
      ensures Spliced(g, old(Now()), Now(), files, f, n0, n, offset, buffer) && written == |buffer|
      ensures |table| == |old(table)| && SpaceSpent(g, old(Now()), n0, Now(), n)
      ensures Count(g, n) <= Longer(Count(g, n0), Reach(g.blockSize, offset, offset + |buffer|))
    {
      hide FsOk, AllocOk, FileOk, Splicing, Range, Space, SpaceSpent, Elsewhere, SameContent, InodeAt, Count, Content,
        Reach;
      hide Spliced, Patched, Pos, SumFree, FileSize, Word, GetWord, Placed, OneFileOk;
      ghost var s0 := Now();
      StartWrite(g, s0, files, f, n0);
      var end := offset + |buffer|;
      n := RaiseSize(n0, f, end, files);
      var startBlock, endBlock := offset / g.blockSize, end / g.blockSize;
      var endSize := end - endBlock * g.blockSize;
      written := end - offset;
      ghost var reach := Reach(g.blockSize, offset, end);
      RangeOf(g.blockSize, offset, end);
      ReachCovers(g.blockSize, offset, end);
      var o := offset % g.blockSize;
      SplicingStarts(g, s0, Now(), files, f, n0, n, offset, buffer, startBlock);
      if startBlock == endBlock {
        Unpatched(g, s0, Now(), files, f, n0, n, offset, buffer, startBlock, startBlock);
        var buf, b := InodeReadBlock(n, startBlock, f);
        OneBlockPatch(g.blockSize, buf, offset, buffer, startBlock, o, endSize);
        buf := buf[..o] + buffer + buf[o + written..];
        n := WritePart(n, f, startBlock, buf, s0, n0, offset, buffer, startBlock, reach, files);
      } else {
        n := WriteBlocks(n, f, offset, buffer, startBlock, endBlock, o, endSize, s0, n0, reach, files);
      }
      SplicingEnds(g, s0, Now(), files, f, n0, n, offset, buffer, startBlock, o, endBlock, endSize,
                   if startBlock == endBlock || endSize > 0 then endBlock + 1 else endBlock);
      SplicedCount(g, s0, Now(), files, f, n0, n, offset, buffer, startBlock, reach);
    }

    /** `ext2_open`: with O_TRUNC the size of the file becomes zero; its blocks stay. */
    method Open(f: int, truncate: bool, ghost files: set<int>)
      requires FsOk(g, Now(), files) && f in files && Placed(g, Now(), f) && GeometryOk(g)
      modifies `disk
      ensures !truncate ==> Now() == old(Now())
      ensures Placed(g, Now(), f)
      ensures truncate ==> Truncated(g, old(Now()), Now(), files, f, InodeAt(g, old(Now()), f), InodeAt(g, Now(), f))
      ensures 32 * g.groups <= |old(table)| && table == old(table)
      ensures truncate ==> SpaceSpent(g, old(Now()), InodeAt(g, old(Now()), f), Now(), InodeAt(g, Now(), f))
    {
      TableSize(g, Now());
      if truncate {
        InodeBlockThere(g, Now(), files, f);
        StartWrite(g, Now(), files, f, InodeAt(g, Now(), f));
        var n := ReadInode(f);
        SizeWritten(g, Now(), files, f, n, 0);
        n := SetWord(n, SIZE_WORD, 0);
        WriteInode(f, n);
      }
    }

    /** `ext2_write` */
    method Write(f: int, offset: nat, buffer: seq<Byte>, ghost files: set<int>) returns (written: nat)
      requires FsOk(g, Now(), files) && f in files && Placed(g, Now(), f)
      requires GeometryOk(g) && CountsFit(g) && offset + |buffer| < WORD_LIMIT && 32 * g.groups <= |table|
      requires Reach(g.blockSize, offset, offset + |buffer|) <= MaxBlocks(g)
      requires SumFree(table, g.groups) >=
        SpaceTo(disk, InodeAt(g, Now(), f), Reach(g.blockSize, offset, offset + |buffer|))
      modifies `disk, `table, `super, `own
      ensures written == |buffer| && Placed(g, Now(), f)
      ensures Spliced(g, old(Now()), Now(), files, f, InodeAt(g, old(Now()), f), InodeAt(g, Now(), f), offset, buffer)
      ensures |table| == |old(table)|
      ensures SpaceSpent(g, old(Now()), InodeAt(g, old(Now()), f), Now(), InodeAt(g, Now(), f))
      ensures Count(g, InodeAt(g, Now(), f)) <=
        Longer(Count(g, InodeAt(g, old(Now()), f)), Reach(g.blockSize, offset, offset + |buffer|))
    {
      InodeBlockThere(g, Now(), files, f);
      var n := ReadInode(f);
      n, written := WriteInodeBuffer(n, f, offset, buffer, files);
    }

    /**
     `ext2_read` inside the file: exactly the bytes that are there.  Outside, the length wraps
     around (see `ReadLengthIsRight`).
     */
    method Read(f: int, offset: nat, size: nat, ghost files: set<int>) returns (data: seq<Byte>)
      requires FsOk(g, Now(), files) && f in files && Placed(g, Now(), f) && GeometryOk(g)
      requires var fileSize := FileSize(InodeAt(g, Now(), f));
        fileSize == 0 || (offset <= fileSize && offset + size < WORD_LIMIT)
      ensures IsSlice(g, disk, InodeAt(g, Now(), f), offset, data)
      ensures |data| == var fileSize := FileSize(InodeAt(g, Now(), f));
        if fileSize == 0 then 0 else if offset + size > fileSize then fileSize - offset else size
    {
      hide FsOk, AllocOk, FileOk, Range, InodeAt, Count, Content, IsSlice, Word, GetWord;
      InodeBlockThere(g, Now(), files, f);
      var n := ReadInode(f);
      StartRead(g, Now(), files, f, n, offset);
      var fileSize := GetWord(n, SIZE_WORD);
      if fileSize == 0 {
        return [];
      }
      var end: nat := if offset + size > fileSize then fileSize else offset + size;
      var startBlock, endBlock := offset / g.blockSize, end / g.blockSize;
      var endSize := end - endBlock * g.blockSize;
      var o := offset % g.blockSize;
      RangeOf(g.blockSize, offset, end);
      if startBlock == endBlock {
        var buf, b := InodeReadBlock(n, startBlock, f);
        InOneBlock(g.blockSize, offset, end, startBlock, o, endSize);
        SliceGrows(g, disk, n, offset, [], startBlock, o, endSize);
        data := [] + buf[o..o + (end - offset)];
      } else {
        data := ReadBlocks(n, f, offset, end, startBlock, endBlock, o, endSize);
      }
    }

    /** A read that reaches over several blocks. */
    method ReadBlocks(n: seq<Byte>, ghost f: int, ghost offset: nat, ghost end: nat, startBlock: nat, endBlock: nat,
        o: nat, endSize: nat)
        returns (data: seq<Byte>)
      requires GeometryOk(g) && AllocOk(g, Now()) && FileOk(g, Now(), f, n) && 128 <= |n| && startBlock < endBlock
      requires Range(g.blockSize, offset, end, startBlock, o, endBlock, endSize) && IsSlice(g, disk, n, offset, [])
      ensures IsSlice(g, disk, n, offset, data) && |data| == end - offset
    {
      hide AllocOk, FileOk, Range, Count, Content, IsSlice, Pos, GeometryOk;
      data := [];
      var blockOffset := startBlock;
      RangeEnds(g.blockSize, offset, end, startBlock, o, endBlock, endSize);
      while blockOffset < endBlock
        invariant startBlock <= blockOffset <= endBlock && IsSlice(g, disk, n, offset, data)
        invariant offset + |data| == Pos(g.blockSize, blockOffset, if blockOffset == startBlock then o else 0)
      {
        var buf, b := InodeReadBlock(n, blockOffset, f);
        BlockEnds(g.blockSize, blockOffset, o);
        if blockOffset == startBlock {
          SliceGrows(g, disk, n, offset, data, blockOffset, o, g.blockSize);
          data := data + buf[o..g.blockSize];
        } else {
          SliceGrows(g, disk, n, offset, data, blockOffset, 0, g.blockSize);
          data := data + buf[0..g.blockSize];
        }
        blockOffset := blockOffset + 1;
      }
      BlockEnds(g.blockSize, endBlock, endSize);
      if endSize > 0 {
        var buf, b := InodeReadBlock(n, endBlock, f);
        SliceGrows(g, disk, n, offset, data, endBlock, 0, endSize);
        data := data + buf[0..endSize];
      }
    }
  }

  lemma NothingHandedOut(g: Geometry, s: State)
    ensures HandedOut(g, s, s, [], [])
  {
  }

  lemma OneMoreHandedOut(g: Geometry, s0: State, s: State, s': State, blocks: seq<int>, owners: seq<Owner>, b: int,
      o: Owner)
    requires HandedOut(g, s0, s, blocks, owners) && NewBlock(g, s, s', b, o) && !Bookkeeping(o)
    ensures HandedOut(g, s0, s', blocks + [b], owners + [o]) && AllocOk(g, s')
  {
    var blocks', owners' := blocks + [b], owners + [o];
    forall i | 0 <= i < |blocks'|
      ensures Given(g, s0, s', blocks'[i], owners'[i]) && forall j | 0 <= j < i :: blocks'[j] != blocks'[i]
    {
      if i < |blocks| {
        assert Given(g, s0, s, blocks[i], owners[i]);
      }
    }
  }

  /** A group with no free block has every bit set. */
  lemma FullGroups(g: Geometry, s: State, n: nat)
    requires AllocOk(g, s) && n <= g.groups && 32 * g.groups <= |s.table|
    requires forall i | 0 <= i < n :: FreeCount(s.table, i) == 0
    ensures forall i: nat, k: nat | i < n && k < g.blocksPerGroup :: IsSet(BitmapOf(s, i), k)
  {
    forall i: nat, k: nat | i < n && k < g.blocksPerGroup ensures IsSet(BitmapOf(s, i), k) {
      assert GroupOk(g, s, i);
      SomeClear(BitmapOf(s, i), g.blocksPerGroup);
    }
  }

  lemma BitTaken(g: Geometry, s: State, s': State, i: nat, k: nat, o: Owner)
    requires AllocStep(g, s, s', i, k, o)
    ensures |s'.table| == |s.table| && 32 * i + 32 <= |s.table| && IsSet(BitmapOf(s', i), k)
  {
    assert GroupOk(g, s, i);
    BitStored(BitmapOf(s, i), k, k);
  }

  /** Bit `k` of group `i` is clear, and all bits before it, in its group and in the groups before, are set. */
  ghost predicate FirstClearBit(g: Geometry, s: State, i: int, k: int) {
    && 0 <= i < g.groups && 0 <= k < g.blocksPerGroup && 32 * g.groups <= |s.table|
    && !IsSet(BitmapOf(s, i), k) && (forall l: nat | l < k :: IsSet(BitmapOf(s, i), l))
    && forall j: nat, l: nat | j < i && l < g.blocksPerGroup :: IsSet(BitmapOf(s, j), l)
  }

  /** The block that has been allocated stands for the first clear bit there was. */
  lemma FirstTaken(g: Geometry, s: State, s': State, i: nat, k: nat, blockNo: nat, o: Owner)
    requires AllocStep(g, s, s', i, k, o) && blockNo == BlockNo(g, i, k)
    requires 32 * g.groups <= |s.table| && !IsSet(BitmapOf(s, i), k)
    requires forall l: nat | l < k :: IsSet(BitmapOf(s, i), l)
    requires forall j: nat, l: nat | j < i && l < g.blocksPerGroup :: IsSet(BitmapOf(s, j), l)
    ensures 0 < g.blocksPerGroup && 32 * g.groups <= |s'.table|
    ensures blockNo / g.blocksPerGroup == i && blockNo % g.blocksPerGroup == k
    ensures FirstClearBit(g, s, i, k) && IsSet(BitmapOf(s', i), k)
  {
    BitTaken(g, s, s', i, k, o);
    BlockPlace(g, i, k);
  }

  lemma InodeBytes(g: Geometry, s: State, f: nat)
    requires Placed(g, s, f) && |Block(s.disk, InodeBlock(g, s.table, f))| == g.blockSize
    ensures var from := (f % g.inodesPerGroup - 1) * g.inodeSize;
      && 0 <= from && |InodeAt(g, s, f)| == g.inodeSize
      && forall k: nat | k < g.inodeSize ::
           InodeAt(g, s, f)[k] == ByteFrom(s.disk, InodesNo(s.table, f / g.inodesPerGroup), g.blockSize, from + k)
  {
    InodeOnDevice(g, s, f, 0);
    forall k: nat | k < g.inodeSize
      ensures InodeAt(g, s, f)[k] == ByteFrom(s.disk, InodesNo(s.table, f / g.inodesPerGroup), g.blockSize,
                                              (f % g.inodesPerGroup - 1) * g.inodeSize + k)
    {
      InodeOnDevice(g, s, f, k);
    }
  }

  lemma InodeBytesStored(g: Geometry, s: State, f: nat, n: seq<Byte>)
    requires Placed(g, s, f) && |Block(s.disk, InodeBlock(g, s.table, f))| == g.blockSize && |n| == g.inodeSize
    ensures var from := (f % g.inodesPerGroup - 1) * g.inodeSize;
      0 <= from && forall k: nat | k < g.inodeSize ::
        ByteFrom(WithInode(g, s, f, n).disk, InodesNo(s.table, f / g.inodesPerGroup), g.blockSize, from + k) == n[k]
  {
    InodeStoredAt(g, s, f, n, 0);
    forall k: nat | k < g.inodeSize
      ensures ByteFrom(WithInode(g, s, f, n).disk, InodesNo(s.table, f / g.inodesPerGroup), g.blockSize,
                       (f % g.inodesPerGroup - 1) * g.inodeSize + k) == n[k]
    {
      InodeStoredAt(g, s, f, n, k);
    }
  }

  /** With its tables attached, the number entered for a block is where the format has it. */
  lemma EnteredPlace(g: Geometry, d0: Disk, n0: seq<Byte>, d: Disk, n: seq<Byte>, i: nat, v: int)
    requires GeometryOk(g) && i < MaxBlocks(g) && Attached(g, d0, n0, d, n, Path(g, i))
    requires Entered(g, d0, n0, d, n, SlotOf(g, i), v)
    ensures i < 12 ==> v == Word(n, 10 + i)
    ensures 12 <= i < 12 + g.blockSize / 4 ==> v == Word(Block(d, Word(n, 22)), i - 12)
    ensures 12 + g.blockSize / 4 <= i ==>
      var b: nat, p: nat := i - 12 - g.blockSize / 4, g.blockSize / 4;
      p > 0 && v == Word(Block(d, Word(Block(d, Word(n, 23)), b / p)), b % p)
  {
    PathOk(g, i);
    assert Absent(g, d, n, i) == {} by {
      forall t | t in Path(g, i) ensures Has(d, n, t) {
      }
    }
    AbsentIsNeeded(g, d, n, i);
    EntryPlace(g, d, n, i);
  }

  lemma TableSize(g: Geometry, s: State)
    requires AllocOk(g, s)
    ensures 32 * g.groups <= |s.table|
  {
  }

  /** A block of the file is mapped, and the tables that lead to it are there. */
  lemma BlockIsThere(g: Geometry, s: State, f: int, n: seq<Byte>, i: nat)
    requires AllocOk(g, s) && FileOk(g, s, f, n) && i < Count(g, n)
    ensures GeometryOk(g) && i < MaxBlocks(g) && TablesOk(g, s, f, n) && TablesNeeded(g, s.disk, n, i) == 0
    ensures Owned(s.own, Lookup(g, s.disk, n, i), Data(f, i)) && Lookup(g, s.disk, n, i) != 0
  {
    assert Owned(s.own, Lookup(g, s.disk, n, i), Data(f, i));
    if TablesNeeded(g, s.disk, n, i) > 0 {
      MissingIsUnmapped(g, s.disk, n, i);
    }
  }

  lemma TablesAreThere(g: Geometry, s: State, f: int, n: seq<Byte>, i: nat)
    requires AllocOk(g, s) && TablesOk(g, s, f, n) && GeometryOk(g) && i < MaxBlocks(g) &&
      TablesNeeded(g, s.disk, n, i) == 0
    ensures SlotOk(g, SlotOf(g, i))
    ensures SlotOf(g, i).InSingle? ==> TableIsThere(g, s, Ptr(n, DIRECT_BLOCKS))
    ensures SlotOf(g, i).InDouble? ==>
      TableIsThere(g, s, Ptr(n, DIRECT_BLOCKS + 1)) && TableIsThere(g, s, InnerTable(s.disk, n, SlotOf(g, i).row))
  {
    SlotsDiffer(g, i, i);
    match SlotOf(g, i)
    case Direct(_) =>
    case InSingle(_) =>
    case InDouble(row, _) => assert InnerOk(s, f, n, row);
  }

  ghost predicate TableIsThere(g: Geometry, s: State, x: int) {
    x != 0 && x in s.disk && |s.disk[x]| == g.blockSize
  }

  lemma OneLess(g: Geometry, s: State, s': State, b: int, o: Owner)
    requires NewBlock(g, s, s', b, o)
    ensures 32 * g.groups <= |s'.table| == |s.table| && SumFree(s'.table, g.groups) == SumFree(s.table, g.groups) - 1
  {
  }

  lemma OthersShape(g: Geometry, s: State, files: set<int>, f: int, n: seq<Byte>)
    requires Others(g, s, files, f) && TablesOk(g, s, f, n)
    ensures AllocOk(g, s) && 128 <= |n| && GeometryOk(g) && 32 * g.groups <= |s.table|
  {
  }

  lemma DirectNeedsNothing(g: Geometry, disk: Disk, n: seq<Byte>, i: nat)
    requires GeometryOk(g) && i < DIRECT_BLOCKS
    ensures TablesNeeded(g, disk, n, i) == 0 && Path(g, i) == {} && SlotOf(g, i) == Direct(i)
  {
  }

  lemma PointerWords(n: seq<Byte>, j: nat)
    requires 128 <= |n| && j < 15
    ensures Ptr(n, j) == GetWord(n, BLOCK_WORD + j)
    ensures forall b | 0 <= b < WORD_LIMIT :: SetPtr(n, j, b) == SetWord(n, BLOCK_WORD + j, b)
  {
  }

  lemma NoRows(disk: Disk, n: seq<Byte>, j: nat)
    requires Ptr(n, j) == 0
    ensures j == DIRECT_BLOCKS + 1 ==> forall row: nat :: InnerTable(disk, n, row) == 0
  {
  }

  /** A new table comes to the inode. */
  lemma FreshTable(g: Geometry, s: State, s': State, files: set<int>, f: int, n: seq<Byte>, j: nat, b: int, o: Owner)
    requires Others(g, s', files, f) && TablesOk(g, s', f, n) && NewBlock(g, s, s', b, o)
    requires (j == DIRECT_BLOCKS && o == Single(f)) || (j == DIRECT_BLOCKS + 1 && o == Double(f))
    requires Ptr(n, j) == 0
    ensures 0 < b < WORD_LIMIT && 128 <= |n| && TablesOk(g, s', f, SetPtr(n, j, b))
    ensures Progress(g, s', s', files, f, n, SetPtr(n, j, b)) && SameMap(g, s'.disk, n, s'.disk, SetPtr(n, j, b))
    ensures Ptr(SetPtr(n, j, b), j) == b
    ensures j == DIRECT_BLOCKS + 1 ==> forall row: nat | row < PerBlock(g) ::
      InnerTable(s'.disk, SetPtr(n, j, b), row) == 0
  {
    if j == DIRECT_BLOCKS {
      AttachSingle(g, s', f, n, b);
    } else {
      AttachDouble(g, s', f, n, b);
    }
    PointerSet(g, s', files, f, n, j, b);
  }

  function TopTable(j: nat): Table {
    if j == DIRECT_BLOCKS then SingleTable else DoubleTable
  }

  lemma ThereAlready(g: Geometry, disk: Disk, n: seq<Byte>, j: nat)
    requires j == DIRECT_BLOCKS || j == DIRECT_BLOCKS + 1
    ensures Ptr(n, j) != 0 ==> Attached(g, disk, n, disk, n, {TopTable(j)})
  {
  }

  lemma TableThere(g: Geometry, d0: Disk, d1: Disk, d2: Disk, n0: seq<Byte>, n: seq<Byte>, j: nat, b: int)
    requires (j == DIRECT_BLOCKS || j == DIRECT_BLOCKS + 1) && 128 <= |n0| && Ptr(n0, j) == 0
    requires 0 < b < WORD_LIMIT && n == SetPtr(n0, j, b)
    requires forall row: nat | row < PerBlock(g) :: InnerTable(d1, n0, row) == InnerTable(d0, n0, row)
    requires forall row: nat | row < PerBlock(g) :: InnerTable(d2, n, row) == InnerTable(d1, n, row)
    requires j == DIRECT_BLOCKS + 1 ==> forall row: nat | row < PerBlock(g) :: InnerTable(d1, n, row) == 0
    ensures Attached(g, d0, n0, d2, n, {TopTable(j)})
  {
    PtrStored(n0, j, b, DIRECT_BLOCKS);
    PtrStored(n0, j, b, DIRECT_BLOCKS + 1);
    forall row: nat | row < PerBlock(g) ensures InnerTable(d2, n, row) == InnerTable(d0, n0, row) {
      assert InnerTable(d1, n0, row) == InnerTable(d0, n0, row) && InnerTable(d2, n, row) == InnerTable(d1, n, row);
    }
  }

  lemma RowThereAlready(g: Geometry, disk: Disk, n: seq<Byte>, row: nat)
    ensures InnerTable(disk, n, row) != 0 ==> Attached(g, disk, n, disk, n, {RowTable(row)})
  {
  }

  lemma RowThere(g: Geometry, d0: Disk, d1: Disk, d2: Disk, n: seq<Byte>, row: nat, b: int)
    requires b != 0
    requires forall r: nat | r < PerBlock(g) :: InnerTable(d1, n, r) == InnerTable(d0, n, r)
    requires forall r: nat | r < PerBlock(g) :: InnerTable(d2, n, r) == if r == row then b else InnerTable(d1, n, r)
    ensures Attached(g, d0, n, d2, n, {RowTable(row)})
  {
    forall t | TableOk(g, t) ensures Has(d2, n, t) <==> Has(d0, n, t) || t in {RowTable(row)} {
      if t.RowTable? {
        assert InnerTable(d1, n, t.row) == InnerTable(d0, n, t.row);
      }
    }
  }

  lemma InodeBlockUsed(g: Geometry, s: State, files: set<int>, f: int)
    requires Others(g, s, files, f) && f in files
    ensures Placed(g, s, f) && InodeBlock(g, s.table, f) != 0 &&
      |Block(s.disk, InodeBlock(g, s.table, f))| == g.blockSize
  {
  }

  /** Writing the inode does not touch its tables. */
  lemma RowsKept(g: Geometry, s: State, s': State, files: set<int>, f: int, n: seq<Byte>, j: nat)
    requires Others(g, s, files, f) && TablesOk(g, s, f, n) && f in files
    requires |n| == g.inodeSize && Placed(g, s, f) && |Block(s.disk, InodeBlock(g, s.table, f))| == g.blockSize &&
      s' == WithInode(g, s, f, n)
    ensures forall row: nat | row < PerBlock(g) :: InnerTable(s'.disk, n, row) == InnerTable(s.disk, n, row)
    ensures s'.table == s.table
  {
  }

  lemma DoubleIsThere(g: Geometry, s: State, files: set<int>, f: int, n: seq<Byte>, row: nat)
    requires Others(g, s, files, f) && TablesOk(g, s, f, n) && Ptr(n, DIRECT_BLOCKS + 1) != 0 && row < PerBlock(g)
    ensures var d := Ptr(n, DIRECT_BLOCKS + 1);
      && d in s.disk && Block(s.disk, d) == s.disk[d] && 4 * row + 4 <= |s.disk[d]|
      && InnerTable(s.disk, n, row) == GetWord(s.disk[d], row)
  {
  }

  /** A new table comes to a row. */
  lemma FreshRow(g: Geometry, s: State, s': State, files: set<int>, f: int, n: seq<Byte>, row: nat, b: int)
    requires Others(g, s, files, f) && TablesOk(g, s, f, n)
    requires Others(g, s', files, f) && TablesOk(g, s', f, n) && NewBlock(g, s, s', b, Inner(f, row))
    requires Ptr(n, DIRECT_BLOCKS + 1) != 0 && row < PerBlock(g) && InnerTable(s.disk, n, row) == 0
    ensures var d := Ptr(n, DIRECT_BLOCKS + 1);
      && 0 < b < WORD_LIMIT && Block(s'.disk, d) == Block(s.disk, d) && 4 * row + 4 <= |Block(s'.disk, d)|
      && Progress(g, s', Stored(s', d, row, b), files, f, n, n) && SameMap(g, s'.disk, n, Stored(s', d, row, b).disk, n)
      && (forall r: nat | r < PerBlock(g) ::
            InnerTable(Stored(s', d, row, b).disk, n, r) == if r == row then b else InnerTable(s'.disk, n, r))
  {
    AttachInner(g, s', f, n, row, b);
    TableStored(g, s', files, f, n, Ptr(n, DIRECT_BLOCKS + 1), row, b);
  }

  lemma EnterDirect(g: Geometry, s: State, files: set<int>, f: int, n: seq<Byte>, j: nat, v: int)
    requires Others(g, s, files, f) && TablesOk(g, s, f, n) && j < DIRECT_BLOCKS && 0 <= v < WORD_LIMIT && 128 <= |n|
    ensures Progress(g, s, s, files, f, n, SetPtr(n, j, v)) &&
      Entered(g, s.disk, n, s.disk, SetPtr(n, j, v), Direct(j), v)
    ensures Attached(g, s.disk, n, s.disk, SetPtr(n, j, v), {})
  {
    SetDirect(g, s, f, n, j, v);
    PtrStored(n, j, v, DIRECT_BLOCKS);
    PtrStored(n, j, v, DIRECT_BLOCKS + 1);
    PointerSet(g, s, files, f, n, j, v);
  }

  lemma EnterSingle(g: Geometry, s: State, files: set<int>, f: int, n: seq<Byte>, j: nat, v: int)
    requires Others(g, s, files, f) && TablesOk(g, s, f, n) && Ptr(n, DIRECT_BLOCKS) != 0 && j < PerBlock(g) &&
      0 <= v < WORD_LIMIT
    ensures 128 <= |n| && GetWord(n, BLOCK_WORD + DIRECT_BLOCKS) == Ptr(n, DIRECT_BLOCKS)
    ensures var x := Ptr(n, DIRECT_BLOCKS);
      && x in s.disk && Block(s.disk, x) == s.disk[x] && 4 * j + 4 <= |s.disk[x]|
      && Progress(g, s, Stored(s, x, j, v), files, f, n, n) &&
        Entered(g, s.disk, n, Stored(s, x, j, v).disk, n, InSingle(j), v)
      && Attached(g, s.disk, n, Stored(s, x, j, v).disk, n, {})
  {
    SetInSingle(g, s, f, n, j, v);
    TableStored(g, s, files, f, n, Ptr(n, DIRECT_BLOCKS), j, v);
  }

  lemma EnterDouble(g: Geometry, s: State, files: set<int>, f: int, n: seq<Byte>, row: nat, col: nat, v: int)
    requires Others(g, s, files, f) && TablesOk(g, s, f, n) && row < PerBlock(g) && col < PerBlock(g) &&
      0 <= v < WORD_LIMIT
    requires InnerTable(s.disk, n, row) != 0
    ensures var x := InnerTable(s.disk, n, row);
      && x in s.disk && Block(s.disk, x) == s.disk[x] && 4 * col + 4 <= |s.disk[x]|
      && Progress(g, s, Stored(s, x, col, v), files, f, n, n) &&
        Entered(g, s.disk, n, Stored(s, x, col, v).disk, n, InDouble(row, col), v)
      && Attached(g, s.disk, n, Stored(s, x, col, v).disk, n, {})
  {
    SetInDouble(g, s, f, n, row, col, v);
    assert InnerOk(s, f, n, row);
    TableStored(g, s, files, f, n, InnerTable(s.disk, n, row), col, v);
  }

  lemma BlockOfFile(g: Geometry, s: State, f: int, n: seq<Byte>, i: nat)
    requires AllocOk(g, s) && FileOk(g, s, f, n)
    ensures GeometryOk(g)
    ensures i < Count(g, n) ==> i < MaxBlocks(g) && TablesOk(g, s, f, n) && TablesNeeded(g, s.disk, n, i) == 0
    ensures i < Count(g, n) ==> var r := Lookup(g, s.disk, n, i); r != 0 && r in s.disk && |s.disk[r]| == g.blockSize
  {
    if i < Count(g, n) {
      BlockIsThere(g, s, f, n, i);
    }
  }

  lemma WholeFs(g: Geometry, s: State, files: set<int>, f: int, n: seq<Byte>)
    requires FsOk(g, s, files) && f in files && Placed(g, s, f) && InodeAt(g, s, f) == n
    ensures AllocOk(g, s) && GeometryOk(g) && Others(g, s, files, f) && TablesOk(g, s, f, n) && FileOk(g, s, f, n)
    ensures 128 <= |n| && 32 * g.groups <= |s.table|
  {
    assert OneFileOk(g, s, f);
    assert forall h | h in files :: OneFileOk(g, s, h);
  }

  lemma SameDataSince(g: Geometry, s0: State, s1: State, s2: State, files: set<int>, f: int)
    requires Elsewhere(g, s0, s1, files, f) && SameData(s0, s1, f) && SameData(s1, s2, f)
    ensures SameData(s0, s2, f)
  {
    SameDataTwice(s0, s1, s2, f);
  }

  lemma DataKept(g: Geometry, s: State, s': State, files: set<int>, f: int, x: int, i: nat)
    requires Elsewhere(g, s, s', files, f) && SameData(s, s', f) && Owned(s.own, x, Data(f, i))
    ensures Owned(s'.own, x, Data(f, i)) && Block(s'.disk, x) == Block(s.disk, x)
  {
    assert Owned(s'.own, x, s.own[x]);
  }

  /** What work on the map keeps. */
  lemma AfterProgress(g: Geometry, s: State, s': State, files: set<int>, f: int, n: seq<Byte>, n': seq<Byte>)
    requires Progress(g, s, s', files, f, n, n') && 128 <= g.inodeSize
    ensures Others(g, s', files, f) && TablesOk(g, s', f, n') && Elsewhere(g, s, s', files, f) && SameData(s, s', f)
    ensures |n'| == g.inodeSize && FileSize(n') == FileSize(n) && GetWord(n', SECTORS_WORD) == Word(n, SECTORS_WORD)
  {
  }

  /** The map has been worked on after the allocation of a data block: what writing the new count makes of it. */
  lemma AfterSet(g: Geometry, s0: State, s1: State, s2: State, files: set<int>, f: int, n0: seq<Byte>, n2: seq<Byte>,
      i: nat, b: int, entered: bool)
    requires FsOk(g, s0, files) && f in files && FileOk(g, s0, f, n0) && Count(g, n0) == i < MaxBlocks(g) &&
      CountsFit(g)
    requires Elsewhere(g, s0, s1, files, f) && SameData(s0, s1, f) && SameMap(g, s0.disk, n0, s1.disk, n0)
    requires Owned(s1.own, b, Data(f, i)) && Block(s1.disk, b) == Zeros(g.blockSize)
    requires Progress(g, s1, s2, files, f, n0, n2) && 128 <= g.inodeSize
    requires if entered then Entered(g, s1.disk, n0, s2.disk, n2, SlotOf(g, i), b)
      else SameMap(g, s1.disk, n0, s2.disk, n2)
    requires !entered ==> TablesNeeded(g, s2.disk, n2, i) > 0
    requires Attached(g, s0.disk, n0, s1.disk, n0, {})
    requires entered ==> Attached(g, s1.disk, n0, s2.disk, n2, Path(g, i))
    ensures var t := (i + 1) * SectorsPerBlock(g);
      && |n2| == g.inodeSize && 0 <= t < WORD_LIMIT
      && GetWord(n2, SECTORS_WORD) == Word(n0, SECTORS_WORD) < t
      && Placed(g, s2, f) && |Block(s2.disk, InodeBlock(g, s2.table, f))| == g.blockSize
      && var n3 := SetSectors(n2, t); var s3 := WithInode(g, s2, f, n3);
        && s3.table == s2.table
        && if entered then
          Grown(g, s0, s3, files, f, n0, n3, i + 1) && Attached(g, s0.disk, n0, s3.disk, n3, Path(g, i))
        else
          Count(g, n3) == i + 1 && Lookup(g, s3.disk, n3, i) == 0 && Lost(g, s0, s3, files, f, n3)
  {
    hide AllocOk, FsOk, FileOk, Mapped, Entered, SameMap, Grown, Elsewhere, SameData, TablesNeeded, GetWord, SetWord,
      InodeAt, Lost, Attached, Path;
    SectorsFit(g, i + 1);
    CountAbove(g, n0);
    AfterProgress(g, s1, s2, files, f, n0, n2);
    DataKept(g, s1, s2, files, f, b, i);
    ElsewhereTwice(g, s0, s1, s2, files, f);
    var n3 := SetSectors(n2, (i + 1) * SectorsPerBlock(g));
    if entered {
      EnteredAfter(g, s0.disk, n0, s1.disk, n0, s2.disk, n2, SlotOf(g, i), b);
      SameDataSince(g, s0, s1, s2, files, f);
      CountWritten(g, s0, s2, files, f, n0, n2, i, b);
      var s3 := WithInode(g, s2, f, n3);
      AttachedTwice(g, s0.disk, n0, s1.disk, n0, s2.disk, n2, {}, Path(g, i));
      AttachedTwice(g, s0.disk, n0, s2.disk, n2, s3.disk, n3, {} + Path(g, i), {});
      assert {} + Path(g, i) + {} == Path(g, i);
    } else {
      CountedInVain(g, s0, s2, files, f, n2, n3, i);
    }
  }

  /** The device is full: `allocate_inode_block` fails and leaves everything as it is. */
  ghost predicate NoneLeft(g: Geometry, s: State, files: set<int>, f: int, n: seq<Byte>) {
    && Others(g, s, files, f) && f in files && TablesOk(g, s, f, n) && Placed(g, s, f) && InodeAt(g, s, f) == n
    && 32 * g.groups <= |s.table| && SumFree(s.table, g.groups) == 0
  }

  lemma LostIs(g: Geometry, s: State, s': State, files: set<int>, f: int, n: seq<Byte>)
    requires GeometryOk(g) && Lost(g, s, s', files, f, n)
    ensures 0 < Count(g, n) && TablesNeeded(g, s'.disk, n, Count(g, n) - 1) > 0
  {
  }

  lemma LostSince(g: Geometry, s0: State, s1: State, s2: State, files: set<int>, f: int, n0: seq<Byte>, n1: seq<Byte>,
      n2: seq<Byte>)
    requires GeometryOk(g) && Grown(g, s0, s1, files, f, n0, n1, Count(g, n1)) && Lost(g, s1, s2, files, f, n2)
    ensures Lost(g, s0, s2, files, f, n2)
  {
    ElsewhereTwice(g, s0, s1, s2, files, f);
  }

  /** Where the loop of `inode_write_block` stands; `lost` says that a block has been counted in vain. */
  ghost predicate Growing(g: Geometry, s0: State, s: State, files: set<int>, f: int, n0: seq<Byte>, n: seq<Byte>,
      block: nat, lost: bool) {
    && GeometryOk(g) && 32 * g.groups <= |s.table| == |s0.table|
    && (if lost then Lost(g, s0, s, files, f, n) else Grown(g, s0, s, files, f, n0, n, Count(g, n)))
    && Count(g, n0) <= Count(g, n) <= (if Count(g, n0) <= block then block + 1 else Count(g, n0))
    && FreeLeft(g, s0, s, n0, n, lost)
  }

  /** What is left of the free blocks; if a block has been counted in vain, what the free blocks sufficed for. */
  ghost predicate FreeLeft(g: Geometry, s0: State, s: State, n0: seq<Byte>, n: seq<Byte>, lost: bool)
    requires GeometryOk(g) && 32 * g.groups <= |s.table| == |s0.table|
  {
    var c0, c, free0 := Count(g, n0), Count(g, n), SumFree(s0.table, g.groups);
    if lost then
      && SumFree(s.table, g.groups) == 0 && c0 < c
      && Space(g, s0.disk, n0, c0, c - 1) < free0 < Space(g, s0.disk, n0, c0, c)
    else SpaceSpent(g, s0, n0, s, n)
  }

  lemma GrowingStarts(g: Geometry, s: State, files: set<int>, f: int, n: seq<Byte>, block: nat)
    requires FsOk(g, s, files) && f in files && Placed(g, s, f) && InodeAt(g, s, f) == n && GeometryOk(g) &&
      32 * g.groups <= |s.table|
    ensures Growing(g, s, s, files, f, n, n, block, false)
  {
    hide FsOk, Placed, Grown, InodeAt, SpaceSpent;
    NotGrown(g, s, files, f, n);
    NothingSpent(g, s, n, s, n);
  }

  lemma GrowingIs(g: Geometry, s0: State, s: State, files: set<int>, f: int, n0: seq<Byte>, n: seq<Byte>, block: nat,
      lost: bool)
    requires Growing(g, s0, s, files, f, n0, n, block, lost)
    ensures Others(g, s, files, f) && f in files && TablesOk(g, s, f, n) && Placed(g, s, f) && InodeAt(g, s, f) == n
    ensures AllocOk(g, s) && GeometryOk(g) && 32 * g.groups <= |s.table|
    ensures 128 <= |n| && GetWord(n, SECTORS_WORD) / (g.blockSize / 512) == Count(g, n)
    ensures InodeBlock(g, s.table, f) != 0 && |Block(s.disk, InodeBlock(g, s.table, f))| == g.blockSize
    ensures if lost then SumFree(s.table, g.groups) == 0 else FsOk(g, s, files) && FileOk(g, s, f, n)
  {
    hide Word, GetWord, FsOk, Others, AllocOk, TablesOk, Placed, InodeAt, FileOk, Elsewhere, SameContent, TablesNeeded,
      Space, SpaceSpent;
    if !lost {
      WholeFs(g, s, files, f, n);
    }
    OthersShape(g, s, files, f, n);
    CountOfWord(g, n);
    InodeBlockUsed(g, s, files, f);
  }

  lemma CountOfWord(g: Geometry, n: seq<Byte>)
    requires GeometryOk(g) && 128 <= |n|
    ensures GetWord(n, SECTORS_WORD) / (g.blockSize / 512) == Count(g, n)
  {
  }

  /** One more block, or one counted in vain. */
  lemma RoundDone(g: Geometry, s0: State, s1: State, s2: State, files: set<int>, f: int, n0: seq<Byte>, n1: seq<Byte>,
      n2: seq<Byte>, block: nat, lost: bool)
    requires Growing(g, s0, s1, files, f, n0, n1, block, lost) && Count(g, n1) <= block < MaxBlocks(g) &&
      |s2.table| == |s1.table|
    requires 0 < SumFree(s1.table, g.groups)
    requires SumFree(s1.table, g.groups) > TablesNeeded(g, s1.disk, n1, Count(g, n1)) ==>
      && Grown(g, s1, s2, files, f, n1, n2, Count(g, n1) + 1)
      && SumFree(s2.table, g.groups) == SumFree(s1.table, g.groups) - 1 - TablesNeeded(g, s1.disk, n1, Count(g, n1))
      && Attached(g, s1.disk, n1, s2.disk, n2, Path(g, Count(g, n1)))
    requires SumFree(s1.table, g.groups) <= TablesNeeded(g, s1.disk, n1, Count(g, n1)) ==>
      Count(g, n2) == Count(g, n1) + 1 && Lost(g, s1, s2, files, f, n2) && SumFree(s2.table, g.groups) == 0
    ensures Growing(g, s0, s2, files, f, n0, n2, block,
      SumFree(s1.table, g.groups) <= TablesNeeded(g, s1.disk, n1, Count(g, n1)))
    ensures Count(g, n2) == Count(g, n1) + 1
  {
    hide Grown, Lost, TablesNeeded, AllocOk, FileOk, Attached, Path, Space;
    GrowingIs(g, s0, s1, files, f, n0, n1, block, lost);
    SpaceOfOne(g, s1.disk, n1, Count(g, n1));
    if SumFree(s1.table, g.groups) <= TablesNeeded(g, s1.disk, n1, Count(g, n1)) {
      LostSince(g, s0, s1, s2, files, f, n0, n1, n2);
    } else {
      GrownCount(g, s1, s2, files, f, n1, n2, Count(g, n1) + 1);
      OneSpent(g, s1, n1, s2, n2);
      SpentTwice(g, s0, n0, s1, n1, s2, n2);
      GrownTwice(g, s0, s1, s2, files, f, n0, n1, n2, Count(g, n1), Count(g, n1) + 1);
    }
  }

  lemma GrownCount(g: Geometry, s: State, s': State, files: set<int>, f: int, n: seq<Byte>, n': seq<Byte>, blocks: nat)
    requires GeometryOk(g) && Grown(g, s, s', files, f, n, n', blocks)
    ensures Count(g, n') == blocks
  {
  }

  /** Behind the loop the block is there, or counted in vain; and the loop cannot go on if the device is full. */
  lemma GrowingEnds(g: Geometry, s0: State, s: State, files: set<int>, f: int, n0: seq<Byte>, n: seq<Byte>, block: nat,
      lost: bool)
    requires Growing(g, s0, s, files, f, n0, n, block, lost) && block < MaxBlocks(g)
    ensures block < Count(g, n) ==> (TablesNeeded(g, s.disk, n, block) > 0 <==> lost)
    ensures block < Count(g, n) && lost ==> Count(g, n) == block + 1 && Lost(g, s0, s, files, f, n)
    ensures block < Count(g, n) && !lost ==>
      && Grown(g, s0, s, files, f, n0, n, if Count(g, n0) <= block then block + 1 else Count(g, n0))
      && SpaceSpent(g, s0, n0, s, n)
    ensures SumFree(s.table, g.groups) == 0 ==> NoneLeft(g, s, files, f, n)
    ensures lost ==> SumFree(s.table, g.groups) == 0
    ensures block < Count(g, n0) ==> block < Count(g, n) && !lost
    ensures block >= Count(g, n0) ==>
      var free0, c0 := SumFree(s0.table, g.groups), Count(g, n0);
      && Space(g, s0.disk, n0, c0, block) < Space(g, s0.disk, n0, c0, block + 1)
      && (block < Count(g, n) && !lost ==> Space(g, s0.disk, n0, c0, block + 1) <= free0)
      && (block < Count(g, n) && lost ==>
            Space(g, s0.disk, n0, c0, block) < free0 < Space(g, s0.disk, n0, c0, block + 1))
      && (Count(g, n) <= block && SumFree(s.table, g.groups) == 0 ==> free0 <= Space(g, s0.disk, n0, c0, block))
  {
    hide FsOk, Others, AllocOk, FileOk, Grown, Lost, TablesOk, Placed, InodeAt, TablesNeeded, Space;
    GrowingIs(g, s0, s, files, f, n0, n, block, lost);
    if lost {
      LostIs(g, s0, s, files, f, n);
    } else if block < Count(g, n) {
      BlockIsThere(g, s, f, n, block);
    }
    SpaceOfOne(g, s.disk, n, Count(g, n));
    SpaceGrows(g, s0.disk, n0, Count(g, n0), block, block + 1);
    if Count(g, n) <= block {
      SpaceGrows(g, s0.disk, n0, Count(g, n0), Count(g, n), block);
    }
  }

  lemma InodeBlockThere(g: Geometry, s: State, files: set<int>, f: int)
    requires FsOk(g, s, files) && f in files
    ensures Placed(g, s, f) && InodeBlock(g, s.table, f) != 0 &&
      |Block(s.disk, InodeBlock(g, s.table, f))| == g.blockSize
  {
    assert OneFileOk(g, s, f);
  }

  lemma StartWrite(g: Geometry, s: State, files: set<int>, f: int, n: seq<Byte>)
    requires FsOk(g, s, files) && f in files && Placed(g, s, f) && InodeAt(g, s, f) == n
    ensures AllocOk(g, s) && OneFileOk(g, s, f) && 128 <= |n|
  {
    assert OneFileOk(g, s, f);
  }

  /** A block that has not been reached yet still has its old content. */
  lemma Unpatched(g: Geometry, s0: State, s: State, files: set<int>, f: int, n0: seq<Byte>, n: seq<Byte>, offset: nat,
      buffer: seq<Byte>, lo: nat, i: nat)
    requires Splicing(g, s0, s, files, f, n0, n, offset, buffer, lo, i)
    ensures AllocOk(g, s) && FileOk(g, s, f, n) && 128 <= |n| && Content(g, s.disk, n, i) == Content(g, s0.disk, n0, i)
  {
  }

  /** The inode in memory is the one on the device. */
  lemma ReadsBack(g: Geometry, s0: State, s: State, files: set<int>, f: int, n0: seq<Byte>, n: seq<Byte>, offset: nat,
      buffer: seq<Byte>, lo: nat, i: nat)
    requires Splicing(g, s0, s, files, f, n0, n, offset, buffer, lo, i)
    ensures Placed(g, s, f) && InodeAt(g, s, f) == n
    ensures InodeBlock(g, s.table, f) != 0 && |Block(s.disk, InodeBlock(g, s.table, f))| == g.blockSize
  {
    InodeBlockThere(g, s, files, f);
  }

  lemma StartRead(g: Geometry, s: State, files: set<int>, f: int, n: seq<Byte>, offset: nat)
    requires FsOk(g, s, files) && f in files && Placed(g, s, f) && InodeAt(g, s, f) == n && GeometryOk(g)
    ensures AllocOk(g, s) && FileOk(g, s, f, n) && 128 <= |n| && FileSize(n) == GetWord(n, SIZE_WORD)
    ensures IsSlice(g, s.disk, n, offset, [])
  {
    assert OneFileOk(g, s, f);
  }

  function Longer(a: nat, b: nat): nat {
    if a < b then b else a
  }

  lemma SplicedCount(g: Geometry, s0: State, s: State, files: set<int>, f: int, n0: seq<Byte>, n: seq<Byte>,
      offset: nat, buffer: seq<Byte>, lo: nat, hi: nat)
    requires Splicing(g, s0, s, files, f, n0, n, offset, buffer, lo, hi)
    ensures Count(g, n) <= Longer(Count(g, n0), hi)
  {
  }

  lemma InOneBlock(size: nat, offset: nat, end: nat, first: nat, o: nat, endSize: nat)
    requires Range(size, offset, end, first, o, first, endSize)
    ensures o <= endSize && end - offset == endSize - o && offset == Pos(size, first, o)
  {
  }

  lemma RangeEnds(size: nat, offset: nat, end: nat, first: nat, o: nat, last: nat, endSize: nat)
    requires Range(size, offset, end, first, o, last, endSize)
    ensures o < size && endSize < size && offset == Pos(size, first, o) && end == Pos(size, last, endSize)
  {
  }

  lemma BlockEnds(size: nat, i: nat, k: nat)
    ensures Pos(size, i, k) == Pos(size, i, 0) + k && Pos(size, i + 1, 0) == Pos(size, i, 0) + size
  {
    assert (i + 1) * size == i * size + size;
  }
}
