/**
 The block device below the ext2 driver, its block groups and who owns which block
 (src/modules/fs/ext2.cpp:47-73 and 1395-1430).
 */
module Ext2Disk {
  import opened Bytes
  import opened Ext2Bytes
  import opened Ext2Device

  /** What the mount derives from the superblock. */
  datatype Geometry = Geometry(
    blockSize: nat, blocksPerGroup: nat, groups: nat, span: nat, tableOffset: nat,
    inodesPerGroup: nat, inodeSize: nat, total: nat)

  /** What a block in use is used for; `f` is an inode number. */
  datatype Owner =
    | Boot
    | Super
    | Descriptors(part: nat)
    | Bitmap(group: nat)
    | Inodes(group: nat, part: nat)
    | Data(f: int, index: nat)
    | Single(f: int)
    | Double(f: int)
    | Inner(f: int, row: nat)

  /** The driver's memory and the device: descriptors, superblock, blocks; and the use of the blocks. */
  datatype State = State(disk: Disk, table: seq<Byte>, super: seq<Byte>, own: map<int, Owner>)

  const SUPER_SIZE: int := 1024
  const FREE_BLOCKS_WORD: int := 3

  predicate GeometryOk(g: Geometry) {
    && (g.blockSize == 1024 || (2048 <= g.blockSize && g.blockSize % 1024 == 0))
    && 0 < g.blocksPerGroup <= 8 * g.blockSize
    && 0 < g.groups && 32 * g.groups <= g.blockSize * g.span
    && 128 <= g.inodeSize && 0 < g.inodesPerGroup
    && 1 < g.total <= WORD_LIMIT && Addressable(g.blockSize, g.total)
  }

  /** Bit `k` of the bitmap of group `i` stands for this block. */
  function BlockNo(g: Geometry, i: nat, k: nat): int {
    k + g.blocksPerGroup * i
  }

  lemma BlockNoInjective(g: Geometry, i: nat, k: nat, j: nat, l: nat)
    requires k < g.blocksPerGroup && l < g.blocksPerGroup && BlockNo(g, i, k) == BlockNo(g, j, l)
    ensures i == j && k == l
  {
    if i < j {
      NextMultiple(g.blocksPerGroup, i, j);
    } else if j < i {
      NextMultiple(g.blocksPerGroup, j, i);
    }
  }

  lemma NextMultiple(n: nat, i: nat, j: nat)
    requires i < j
    ensures n * i + n <= n * j
  {
    assert n * i + n == n * (i + 1);
    assert n * j == n * (i + 1) + n * (j - i - 1);
  }

  // Fields of the descriptor of group `i`, 32 bytes each.

  function BitmapNo(table: seq<Byte>, i: nat): int
    requires 32 * i + 32 <= |table|
  {
    GetWord(table, 8 * i)
  }

  function InodesNo(table: seq<Byte>, i: nat): int
    requires 32 * i + 32 <= |table|
  {
    GetWord(table, 8 * i + 2)
  }

  function FreeCount(table: seq<Byte>, i: nat): (n: nat)
    requires 32 * i + 32 <= |table|
    ensures n < 65536
  {
    GetHalf(table, 16 * i + 6)
  }

  function CountDown(table: seq<Byte>, i: nat): (r: seq<Byte>)
    requires 32 * i + 32 <= |table| && 0 < FreeCount(table, i)
    ensures |r| == |table|
  {
    SetHalf(table, 16 * i + 6, FreeCount(table, i) - 1)
  }

  lemma CountedDown(table: seq<Byte>, i: nat, j: nat)
    requires 32 * i + 32 <= |table| && 32 * j + 32 <= |table| && 0 < FreeCount(table, i)
    ensures FreeCount(CountDown(table, i), j) == FreeCount(table, j) - if j == i then 1 else 0
    ensures BitmapNo(CountDown(table, i), j) == BitmapNo(table, j)
    ensures InodesNo(CountDown(table, i), j) == InodesNo(table, j)
  {
    HalfStored(table, 16 * i + 6, FreeCount(table, i) - 1, 16 * j + 6);
    WordBesideHalf(table, 16 * i + 6, FreeCount(table, i) - 1, 8 * j);
    WordBesideHalf(table, 16 * i + 6, FreeCount(table, i) - 1, 8 * j + 2);
  }

  /** The sum of the free counts of the first `n` groups. */
  function SumFree(table: seq<Byte>, n: nat): nat
    requires 32 * n <= |table|
  {
    if n == 0 then 0 else SumFree(table, n - 1) + FreeCount(table, n - 1)
  }

  lemma {:induction false} SumCountedDown(table: seq<Byte>, i: nat, n: nat)
    requires 32 * i + 32 <= |table| && 32 * n <= |table| && 0 < FreeCount(table, i)
    ensures SumFree(CountDown(table, i), n) == SumFree(table, n) - if i < n then 1 else 0
  {
    if n > 0 {
      SumCountedDown(table, i, n - 1);
      CountedDown(table, i, n - 1);
    }
  }

  lemma {:induction false} SumIsZero(table: seq<Byte>, n: nat)
    requires 32 * n <= |table|
    ensures SumFree(table, n) == 0 <==> forall i | 0 <= i < n :: FreeCount(table, i) == 0
  {
    if n > 0 {
      SumIsZero(table, n - 1);
    }
  }

  // ---------- What holds of the device ----------

  ghost predicate Sized(g: Geometry, s: State) {
    && (forall b | 0 <= b < g.total :: b in s.disk && |s.disk[b]| == g.blockSize)
    && (forall b | b in s.own :: 0 <= b < g.total)
    && |s.table| == g.blockSize * g.span && |s.super| == SUPER_SIZE
  }

  ghost predicate Owned(own: map<int, Owner>, b: int, o: Owner) {
    b in own && own[b] == o
  }

  function SuperBlock(g: Geometry): int {
    if g.blockSize == 1024 then 1 else 0
  }

  function SuperStart(g: Geometry): int {
    if g.blockSize == 1024 then 0 else 1024
  }

  /** The blocks that hold the superblock and the descriptors are in use, and so is block 0. */
  ghost predicate FixedOk(g: Geometry, own: map<int, Owner>) {
    && 0 in own && (own[0].Boot? || own[0].Super?) && Owned(own, SuperBlock(g), Super)
    && (forall i | 0 <= i < g.span :: Owned(own, PartBlock(g, i), Descriptors(i)))
  }

  function Block(disk: Disk, b: int): seq<Byte> {
    if b in disk then disk[b] else []
  }

  /** The bitmap of group `i`. */
  function BitmapOf(s: State, i: nat): seq<Byte>
    requires 32 * i + 32 <= |s.table|
  {
    Block(s.disk, BitmapNo(s.table, i))
  }

  /** The bitmap of group `i` has a bit clear only for blocks of the device nobody uses, and the count is right. */
  ghost predicate GroupOk(g: Geometry, s: State, i: nat) {
    && 32 * i + 32 <= |s.table| && g.blocksPerGroup <= 8 * |BitmapOf(s, i)|
    && Owned(s.own, BitmapNo(s.table, i), Bitmap(i))
    && FreeCount(s.table, i) == Clear(BitmapOf(s, i), g.blocksPerGroup)
    && forall k: nat | k < g.blocksPerGroup && !IsSet(BitmapOf(s, i), k) :: FreeBlock(g, s.own, BlockNo(g, i, k))
  }

  ghost predicate FreeBlock(g: Geometry, own: map<int, Owner>, b: int) {
    0 < b < g.total && b !in own
  }

  /** The block of the device for part `i` of the descriptors. */
  function PartBlock(g: Geometry, i: nat): int {
    g.tableOffset + i
  }

  /** Where part `i` of the descriptors begins. */
  function PartStart(g: Geometry, i: nat): int {
    g.blockSize * i
  }

  lemma PartFits(g: Geometry, i: nat)
    requires i < g.span
    ensures 0 <= PartStart(g, i) && PartStart(g, i) + g.blockSize <= g.blockSize * g.span
  {
    NextMultiple(g.blockSize, i, g.span);
  }

  function Part(g: Geometry, table: seq<Byte>, i: nat): (r: seq<Byte>)
    requires i < g.span && |table| == g.blockSize * g.span
    ensures |r| == g.blockSize
  {
    PartFits(g, i);
    table[PartStart(g, i)..PartStart(g, i) + g.blockSize]
  }

  /** The device has the descriptors and the superblock of memory. */
  ghost predicate CopiesOk(g: Geometry, s: State) {
    && |s.table| == g.blockSize * g.span
    && (forall i | 0 <= i < g.span :: Block(s.disk, PartBlock(g, i)) == Part(g, s.table, i))
    && SuperStart(g) + SUPER_SIZE <= |Block(s.disk, SuperBlock(g))|
    && Block(s.disk, SuperBlock(g))[SuperStart(g)..SuperStart(g) + SUPER_SIZE] == s.super
  }

  ghost predicate AllocOk(g: Geometry, s: State) {
    && GeometryOk(g) && Sized(g, s) && FixedOk(g, s.own) && CopiesOk(g, s)
    && (forall i: nat | i < g.groups :: GroupOk(g, s, i))
    && GetWord(s.super, FREE_BLOCKS_WORD) == SumFree(s.table, g.groups)
  }

  /** Blocks the allocator itself keeps up to date. */
  predicate Bookkeeping(o: Owner) {
    o.Super? || o.Descriptors? || o.Bitmap?
  }

  // ---------- Allocation ----------

  /** What an allocation does: block `k` of group `i` goes to `o`. */
  ghost predicate AllocStep(g: Geometry, s: State, s': State, i: nat, k: nat, o: Owner) {
    && i < g.groups && k < g.blocksPerGroup && AllocOk(g, s) && Sized(g, s') && CopiesOk(g, s')
    && GroupOk(g, s, i) && !IsSet(BitmapOf(s, i), k) && 0 < FreeCount(s.table, i)
    && s'.own == s.own[BlockNo(g, i, k) := o] && s'.table == CountDown(s.table, i)
    && 0 < GetWord(s.super, FREE_BLOCKS_WORD)
    && s'.super == SetWord(s.super, FREE_BLOCKS_WORD, GetWord(s.super, FREE_BLOCKS_WORD) - 1)
    && BitmapOf(s', i) == SetBitAt(BitmapOf(s, i), k)
    && Block(s'.disk, BlockNo(g, i, k)) == Zeros(g.blockSize)
    && OthersKept(s, s', i)
  }

  ghost predicate OthersKept(s: State, s': State, i: nat)
    requires 32 * i + 32 <= |s.table|
  {
    forall x | x in s.own && x != BitmapNo(s.table, i) && !s.own[x].Descriptors? && !s.own[x].Super? ::
      Block(s'.disk, x) == Block(s.disk, x)
  }

  lemma OtherGroup(g: Geometry, s: State, s': State, i: nat, k: nat, o: Owner, j: nat)
    requires AllocStep(g, s, s', i, k, o) && j < g.groups && j != i
    ensures GroupOk(g, s', j) && BitmapOf(s', j) == BitmapOf(s, j)
  {
    CountedDown(s.table, i, j);
    assert GroupOk(g, s, j);
    forall l: nat | l < g.blocksPerGroup && !IsSet(BitmapOf(s', j), l) ensures FreeBlock(g, s'.own, BlockNo(g, j, l)) {
      assert FreeBlock(g, s.own, BlockNo(g, j, l));
      if BlockNo(g, j, l) == BlockNo(g, i, k) {
        BlockNoInjective(g, j, l, i, k);
      }
    }
  }

  lemma SameGroup(g: Geometry, s: State, s': State, i: nat, k: nat, o: Owner)
    requires AllocStep(g, s, s', i, k, o)
    ensures GroupOk(g, s', i)
  {
    CountedDown(s.table, i, i);
    ClearAfterSet(BitmapOf(s, i), k, g.blocksPerGroup);
    forall l: nat | l < g.blocksPerGroup && !IsSet(BitmapOf(s', i), l) ensures FreeBlock(g, s'.own, BlockNo(g, i, l)) {
      BitStored(BitmapOf(s, i), k, l);
      assert FreeBlock(g, s.own, BlockNo(g, i, l));
    }
  }

  /** An allocation keeps bitmaps, counts and copies consistent; the block was nobody's. */
  lemma Allocated(g: Geometry, s: State, s': State, i: nat, k: nat, o: Owner)
    requires AllocStep(g, s, s', i, k, o)
    ensures AllocOk(g, s') && FreeBlock(g, s.own, BlockNo(g, i, k))
    ensures SumFree(s'.table, g.groups) == SumFree(s.table, g.groups) - 1
  {
    hide Clear, BitAt, SetBitAt, OthersKept, SumFree, FreeCount, CountDown;
    assert FreeBlock(g, s.own, BlockNo(g, i, k));
    SumCountedDown(s.table, i, g.groups);
    WordStored(s.super, FREE_BLOCKS_WORD, GetWord(s.super, FREE_BLOCKS_WORD) - 1, FREE_BLOCKS_WORD);
    forall j: nat | j < g.groups ensures GroupOk(g, s', j) {
      if j == i {
        SameGroup(g, s, s', i, k, o);
      } else {
        OtherGroup(g, s, s', i, k, o, j);
      }
    }
  }

  /** Exactly the bit of the block is set. */
  lemma ExactlyOneBit(g: Geometry, s: State, s': State, i: nat, k: nat, o: Owner, j: nat, l: nat)
    requires AllocStep(g, s, s', i, k, o) && j < g.groups && l < g.blocksPerGroup
    ensures IsSet(BitmapOf(s', j), l) <==> (j == i && l == k) || IsSet(BitmapOf(s, j), l)
  {
    if j == i {
      BitStored(BitmapOf(s, i), k, l);
    } else {
      OtherGroup(g, s, s', i, k, o, j);
    }
  }

  /** Blocks not kept by the allocator have the same content, and descriptors lead to the same inodes. */
  ghost predicate Untouched(g: Geometry, s: State, s': State) {
    && (forall x | x in s.own && !Bookkeeping(s.own[x]) :: Block(s'.disk, x) == Block(s.disk, x))
    && |s'.table| == |s.table|
    && (forall j: nat | j < g.groups && 32 * g.groups <= |s.table| :: InodesNo(s'.table, j) == InodesNo(s.table, j))
  }

  /** Block `b`, which was nobody's, is zeroed and goes to `o`; nothing else changes but the allocator's books. */
  ghost predicate NewBlock(g: Geometry, s: State, s': State, b: int, o: Owner) {
    && AllocOk(g, s) && AllocOk(g, s') && FreeBlock(g, s.own, b) && s'.own == s.own[b := o]
    && Block(s'.disk, b) == Zeros(g.blockSize)
    && SumFree(s.table, g.groups) == SumFree(s'.table, g.groups) + 1
    && Untouched(g, s, s')
  }

  /** Block `b` was nobody's at first; now it is zeroed and belongs to `o`. */
  ghost predicate Given(g: Geometry, s0: State, s: State, b: int, o: Owner) {
    b != 0 && b !in s0.own && Owned(s.own, b, o) && !Bookkeeping(o) && Block(s.disk, b) == Zeros(g.blockSize)
  }

  /** Since `s0` exactly these blocks have been handed out, and no other block has changed. */
  ghost predicate HandedOut(g: Geometry, s0: State, s: State, blocks: seq<int>, owners: seq<Owner>) {
    && |owners| == |blocks|
    && (forall i | 0 <= i < |blocks| :: Given(g, s0, s, blocks[i], owners[i]) && forall j | 0 <= j < i ::
      blocks[j] != blocks[i])
    && (forall x | x in s.own :: x in s0.own || x in blocks)
    && (forall x | x in s0.own :: Owned(s.own, x, s0.own[x]))
    && (forall x | x in s0.own && !Bookkeeping(s0.own[x]) :: Block(s.disk, x) == Block(s0.disk, x))
  }

  lemma StepIsNewBlock(g: Geometry, s: State, s': State, i: nat, k: nat, o: Owner)
    requires AllocStep(g, s, s', i, k, o)
    ensures NewBlock(g, s, s', BlockNo(g, i, k), o)
  {
    Allocated(g, s, s', i, k, o);
    forall j: nat | j < g.groups && 32 * g.groups <= |s.table| ensures InodesNo(s'.table, j) == InodesNo(s.table, j) {
      CountedDown(s.table, i, j);
    }
  }

  /** With a positive count the scan of the bitmap ends inside the group. */
  lemma ScanEnds(g: Geometry, s: State, i: nat) returns (k: nat)
    requires AllocOk(g, s) && i < g.groups && 0 < FreeCount(s.table, i)
    ensures k < g.blocksPerGroup <= 8 * |BitmapOf(s, i)| && !IsSet(BitmapOf(s, i), k)
    ensures BitmapNo(s.table, i) != 0 && BitmapNo(s.table, i) in s.disk
  {
    assert GroupOk(g, s, i);
    SomeClear(BitmapOf(s, i), g.blocksPerGroup);
    k :| k < g.blocksPerGroup && !BitAt(BitmapOf(s, i), k);
  }

  ghost predicate AllBlocks(disk: Disk, g: Geometry) {
    forall b | 0 <= b < g.total :: b in disk && |disk[b]| == g.blockSize
  }

  predicate IsPartBlock(g: Geometry, b: int, n: nat) {
    g.tableOffset <= b < g.tableOffset + n
  }

  /** The places an allocation writes to exist. */
  lemma FoundFree(g: Geometry, s: State, i: nat, k: nat)
    requires AllocOk(g, s) && i < g.groups && k < g.blocksPerGroup && 0 < FreeCount(s.table, i) &&
      !IsSet(BitmapOf(s, i), k)
    ensures FreeBlock(g, s.own, BlockNo(g, i, k)) && AllBlocks(s.disk, g) && |s.super| == SUPER_SIZE
    ensures var bitmap := BitmapNo(s.table, i); 0 < bitmap < g.total && k / 8 < |BitmapOf(s, i)|
    ensures |s.table| == g.blockSize * g.span && forall j | 0 <= j < g.span :: 0 < PartBlock(g, j) < g.total
    ensures 0 <= SuperBlock(g) < g.total && SuperStart(g) + SUPER_SIZE <= g.blockSize
    ensures 0 < GetWord(s.super, FREE_BLOCKS_WORD)
  {
    assert GroupOk(g, s, i);
    assert FreeBlock(g, s.own, BlockNo(g, i, k));
    SumIsZero(s.table, g.groups);
    forall j | 0 <= j < g.span ensures 0 < PartBlock(g, j) < g.total {
      assert Owned(s.own, PartBlock(g, j), Descriptors(j));
    }
  }

  /** The blocks an allocation writes to are different ones. */
  lemma PlacesDiffer(g: Geometry, s: State, i: nat, k: nat)
    requires AllocOk(g, s) && i < g.groups && k < g.blocksPerGroup && !IsSet(BitmapOf(s, i), k)
    ensures var bitmap, b := BitmapNo(s.table, i), BlockNo(g, i, k);
      bitmap != b && bitmap != SuperBlock(g) && b != SuperBlock(g) && !IsPartBlock(g, bitmap, g.span) &&
        !IsPartBlock(g, b, g.span)
    ensures !IsPartBlock(g, SuperBlock(g), g.span)
    ensures forall x | x in s.own && !s.own[x].Descriptors? :: !IsPartBlock(g, x, g.span)
    ensures forall x | x in s.own && !s.own[x].Super? :: x != SuperBlock(g)
  {
    assert GroupOk(g, s, i);
    assert FreeBlock(g, s.own, BlockNo(g, i, k));
    forall x | IsPartBlock(g, x, g.span) ensures x in s.own && s.own[x].Descriptors? {
      assert Owned(s.own, PartBlock(g, x - g.tableOffset), Descriptors(x - g.tableOffset));
    }
  }

  /** The stores of an allocation: after the bitmap, after the descriptors, after the superblock. */
  ghost predicate Stores(g: Geometry, s: State, s': State, i: nat, k: nat, d1: Disk, d2: Disk, d3: Disk) {
    && 32 * i + 32 <= |s.table| && 0 < FreeCount(s.table, i) && k / 8 < |BitmapOf(s, i)|
    && s'.table == CountDown(s.table, i) && |s'.table| == g.blockSize * g.span
    && d1 == s.disk[BitmapNo(s.table, i) := SetBitAt(BitmapOf(s, i), k)]
    && AllBlocks(d2, g) && (forall j | 0 <= j < g.span :: Block(d2, PartBlock(g, j)) == Part(g, s'.table, j))
    && (forall b | 0 <= b < g.total && !IsPartBlock(g, b, g.span) :: Block(d2, b) == Block(d1, b))
    && AllBlocks(d3, g) && (forall b | 0 <= b < g.total && b != SuperBlock(g) :: Block(d3, b) == Block(d2, b))
    && SuperStart(g) + SUPER_SIZE <= |Block(d3, SuperBlock(g))|
    && Block(d3, SuperBlock(g))[SuperStart(g)..SuperStart(g) + SUPER_SIZE] == s'.super
    && s'.disk == d3[BlockNo(g, i, k) := Zeros(g.blockSize)]
  }

  lemma StoresCopies(g: Geometry, s: State, s': State, i: nat, k: nat, d1: Disk, d2: Disk, d3: Disk)
    requires AllocOk(g, s) && i < g.groups && k < g.blocksPerGroup && !IsSet(BitmapOf(s, i), k)
    requires Stores(g, s, s', i, k, d1, d2, d3)
    ensures CopiesOk(g, s')
  {
    PlacesDiffer(g, s, i, k);
    forall j | 0 <= j < g.span ensures Block(s'.disk, PartBlock(g, j)) == Part(g, s'.table, j) {
      assert IsPartBlock(g, PartBlock(g, j), g.span);
      assert Owned(s.own, PartBlock(g, j), Descriptors(j));
    }
  }

  lemma StoresOthers(g: Geometry, s: State, s': State, i: nat, k: nat, d1: Disk, d2: Disk, d3: Disk, x: int)
    requires AllocOk(g, s) && i < g.groups && k < g.blocksPerGroup && !IsSet(BitmapOf(s, i), k)
    requires Stores(g, s, s', i, k, d1, d2, d3)
    requires x in s.own && !s.own[x].Descriptors? && !s.own[x].Super?
    ensures Block(s'.disk, x) == if x == BitmapNo(s.table, i) then SetBitAt(BitmapOf(s, i), k) else Block(s.disk, x)
  {
    PlacesDiffer(g, s, i, k);
    assert GroupOk(g, s, i);
    assert FreeBlock(g, s.own, BlockNo(g, i, k));
  }

  /** The stores of an allocation amount to its step. */
  lemma StoresAreStep(g: Geometry, s: State, s': State, i: nat, k: nat, o: Owner, d1: Disk, d2: Disk, d3: Disk)
    requires AllocOk(g, s) && i < g.groups && k < g.blocksPerGroup && !IsSet(BitmapOf(s, i), k)
    requires 0 < GetWord(s.super, FREE_BLOCKS_WORD)
    requires s'.own == s.own[BlockNo(g, i, k) := o]
    requires s'.super == SetWord(s.super, FREE_BLOCKS_WORD, GetWord(s.super, FREE_BLOCKS_WORD) - 1)
    requires Stores(g, s, s', i, k, d1, d2, d3)
    ensures AllocStep(g, s, s', i, k, o)
  {
    FoundFree(g, s, i, k);
    StoresCopies(g, s, s', i, k, d1, d2, d3);
    CountedDown(s.table, i, i);
    assert GroupOk(g, s, i);
    StoresOthers(g, s, s', i, k, d1, d2, d3, BitmapNo(s.table, i));
    forall x | x in s.own && x != BitmapNo(s.table, i) && !s.own[x].Descriptors? && !s.own[x].Super?
      ensures Block(s'.disk, x) == Block(s.disk, x)
    {
      StoresOthers(g, s, s', i, k, d1, d2, d3, x);
    }
  }
}
