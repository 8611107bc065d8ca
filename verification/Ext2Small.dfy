/**
 Small devices with an empty file: they meet all that is asked of a consistent one, and show what
 becomes of writes to a full device and of bytes before a truncation.
 */
module Ext2Small {
  import opened Bytes
  import opened Ext2Bytes
  import opened Ext2Device
  import opened Ext2Disk
  import opened Ext2Map
  import opened Ext2Files
  import opened Ext2Frames
  import opened Ext2Space
  import opened Ext2Plan
  import opened Ext2Growth
  import opened Ext2Content
  import opened Ext2
  import opened Runs = Ext2Runs

  /** How many free blocks a device has here. */
  type Few = n: nat | n <= 200

  /** Five blocks of 1024 bytes for the driver and the free ones, in one group, with eight inodes of 128 bytes. */
  function Small(free: Few): Geometry {
    Geometry(1024, 5 + free, 1, 1, 2, 8, 128, 5 + free)
  }

  function Descriptor(free: Few): (r: seq<Byte>)
    ensures |r| == 1024
  {
    Zeros(1024)[0 := 3][8 := 4][12 := free]
  }

  function SuperOf(free: Few): (r: seq<Byte>)
    ensures |r| == 1024
  {
    Zeros(1024)[12 := free]
  }

  /** Blocks 0 to 4 are in use. */
  function UsedBits(): (r: seq<Byte>)
    ensures |r| == 1024
  {
    Zeros(1024)[0 := 31]
  }

  function SmallDisk(free: Few): Disk {
    map b | 0 <= b < 5 + free :: SmallBlock(free, b)
  }

  function SmallBlock(free: Few, b: int): (r: seq<Byte>)
    ensures |r| == 1024
  {
    if b == 1 then SuperOf(free) else if b == 2 then Descriptor(free) else if b == 3 then UsedBits() else Zeros(1024)
  }

  function SmallUse(): map<int, Owner> {
    map[0 := Boot, 1 := Super, 2 := Descriptors(0), 3 := Bitmap(0), 4 := Inodes(0, 0)]
  }

  function SmallState(free: Few): State {
    State(SmallDisk(free), Descriptor(free), SuperOf(free), SmallUse())
  }

  function Ones(m: nat): nat {
    if m == 0 then 0 else 2 * Ones(m - 1) + 1
  }

  lemma {:induction false} OnesBits(m: nat, k: nat)
    ensures ByteBit(Ones(m), k) <==> k < m
  {
    if k > 0 {
      OnesBits(if m == 0 then 0 else m - 1, k - 1);
    }
  }

  lemma UsedBit(k: nat)
    requires k < 8192
    ensures BitAt(UsedBits(), k) <==> k < 5
  {
    var b := UsedBits();
    if k < 8 {
      assert Ones(2) == 3 && Ones(5) == 31;
      OnesBits(5, k);
      assert k / 8 == 0 && k % 8 == k && b[0] == 31;
    } else {
      assert b[k / 8] == 0 == Ones(0);
      OnesBits(0, k % 8);
    }
  }

  lemma {:induction false} FreeBlocks(n: nat)
    requires n <= 8192
    ensures Clear(UsedBits(), n) == if n <= 5 then 0 else n - 5
  {
    if n > 0 {
      FreeBlocks(n - 1);
      UsedBit(n - 1);
    }
  }

  lemma SmallGeometry(free: Few)
    ensures GeometryOk(Small(free)) && CountsFit(Small(free)) && InodesFit(Small(free))
  {
  }

  lemma SmallFields(free: Few)
    ensures BitmapNo(Descriptor(free), 0) == 3 && InodesNo(Descriptor(free), 0) == 4
    ensures FreeCount(Descriptor(free), 0) == free
    ensures GetWord(SuperOf(free), FREE_BLOCKS_WORD) == free && SumFree(Descriptor(free), 1) == free
  {
    assert SumFree(Descriptor(free), 0) == 0;
  }

  lemma SmallSizes(free: Few)
    ensures Sized(Small(free), SmallState(free)) && FixedOk(Small(free), SmallUse())
  {
    hide Descriptor, SuperOf, UsedBits, Zeros, SmallBlock;
    var d := SmallDisk(free);
    forall b | 0 <= b < 5 + free ensures b in d && |d[b]| == 1024 {
    }
  }

  lemma SmallCopies(free: Few)
    ensures CopiesOk(Small(free), SmallState(free))
  {
    hide Descriptor, SuperOf, UsedBits, Zeros;
    var g, s := Small(free), SmallState(free);
    assert Part(g, s.table, 0) == Descriptor(free)[0..1024] == Descriptor(free);
    assert Block(s.disk, 2) == Descriptor(free) && Block(s.disk, 1)[0..1024] == SuperOf(free);
  }

  lemma SmallGroup(free: Few)
    ensures GroupOk(Small(free), SmallState(free), 0)
  {
    hide Clear, BitAt, GetWord, GetHalf, Descriptor, UsedBits, SuperOf, Zeros;
    var g, s := Small(free), SmallState(free);
    SmallFields(free);
    FreeBlocks(5 + free);
    assert BitmapOf(s, 0) == UsedBits();
    forall k: nat | k < 5 + free && !IsSet(BitmapOf(s, 0), k) ensures FreeBlock(g, s.own, BlockNo(g, 0, k)) {
      UsedBit(k);
    }
  }

  lemma SmallBooks(free: Few)
    ensures AllocOk(Small(free), SmallState(free))
  {
    hide Sized, FixedOk, CopiesOk, GroupOk, GetWord, SumFree, Descriptor, SuperOf, SmallDisk, SmallUse, GeometryOk;
    SmallGeometry(free);
    SmallFields(free);
    SmallSizes(free);
    SmallCopies(free);
    SmallGroup(free);
  }

  const EMPTY: File := File(0, (x: nat) => 0)

  lemma EmptyInode(free: Few)
    ensures Placed(Small(free), SmallState(free), 1) && InodeAt(Small(free), SmallState(free), 1) == Zeros(128)
    ensures FileSize(Zeros(128)) == 0 && Count(Small(free), Zeros(128)) == 0
    ensures forall j: nat | j < 15 :: Ptr(Zeros(128), j) == 0
  {
    hide GetWord;
    SmallFields(free);
    SmallGeometry(free);
    ZeroWord(128, SIZE_WORD);
    ZeroWord(128, SECTORS_WORD);
    forall j: nat | j < 15 ensures Ptr(Zeros(128), j) == 0 {
      ZeroWord(128, BLOCK_WORD + j);
    }
    assert Zeros(1024)[0..128] == Zeros(128);
  }

  lemma EmptyFile(free: Few)
    ensures OneFileOk(Small(free), SmallState(free), 1) && FileIs(Small(free), SmallState(free), 1, EMPTY)
  {
    hide Word, Ptr, Placed, InodeAt, Zeros, SmallDisk, Descriptor, SuperOf, SmallUse, FileSize, Count, AllocOk;
    var g, s := Small(free), SmallState(free);
    SmallGeometry(free);
    EmptyInode(free);
    var n := InodeAt(g, s, 1);
    forall x: nat ensures Raw(g, s.disk, n, x) == 0 {
      assert Content(g, s.disk, n, Row(x, 1024)) == Zeros(1024);
    }
  }

  /** The device holds one file, number 1, which is empty. */
  lemma SmallFiles(free: Few)
    ensures FilesAre(Small(free), SmallState(free), {1}, map[1 := EMPTY])
  {
    hide AllocOk, OneFileOk, FileIs, SmallDisk, Descriptor, SuperOf, SmallUse;
    SmallBooks(free);
    EmptyFile(free);
  }

  /** Where the file needs its first table. */
  lemma SmallPath(free: Few, i: nat)
    requires i < 268
    ensures GeometryOk(Small(free)) && Path(Small(free), i) == if i < 12 then {} else {SingleTable}
  {
    SmallGeometry(free);
  }

  /** What the empty file takes to grow. */
  lemma {:induction false} SmallMissing(free: Few, from: nat, to: nat)
    requires to <= 268
    ensures GeometryOk(Small(free))
    ensures Missing(Small(free), SmallDisk(free), Zeros(128), from, to) ==
      if from < to && 12 < to then {SingleTable} else {}
    decreases if from < to then to - from else 0
  {
    hide SmallDisk, Zeros, Ptr;
    SmallGeometry(free);
    EmptyInode(free);
    if from < to {
      SmallMissing(free, from + 1, to);
      SmallPath(free, from);
      assert !Has(SmallDisk(free), Zeros(128), SingleTable);
    }
  }

  lemma SmallSpace(free: Few, to: nat)
    requires to <= 268
    ensures GeometryOk(Small(free)) && Count(Small(free), Zeros(128)) == 0
    ensures Space(Small(free), SmallDisk(free), Zeros(128), 0, to) == if to <= 12 then to else to + 1
  {
    hide SmallDisk, Zeros, Ptr, Missing;
    EmptyInode(free);
    SmallMissing(free, 0, to);
  }

  /** The longest file for which there is space: from the thirteenth block on it has a table. */
  function Capacity(free: Few): nat {
    if free <= 12 then free else free - 1
  }

  lemma SmallPlan(free: Few)
    ensures Provided(Small(free), SmallState(free), {1}, [1], map[1 := Capacity(free)])
  {
    hide SmallDisk, Zeros, Ptr, Descriptor, SuperOf, SmallUse, Placed, InodeAt, Count, Space;
    var g, s, plan := Small(free), SmallState(free), map[1 := Capacity(free)];
    SmallGeometry(free);
    SmallFields(free);
    EmptyInode(free);
    SmallSpace(free, Capacity(free));
    assert [1][1..] == [];
    assert Planned(g, s, [1][1..], plan) == 0;
    assert Planned(g, s, [1], plan) == FileSpace(g, s, 1, Capacity(free));
  }

  /**
   A driver on this device: every operation on the file is done up to the first one that does not
   keep to the capacity of the device, or reads from behind the end of the file.
   */
  method RunSmall(free: Few, ops: seq<Runs.Op>) returns (served: nat, answers: seq<seq<Byte>>)
    requires forall i | 0 <= i < |ops| :: ops[i].f == 1
    ensures served == |answers| <= |ops|
    ensures forall i | 0 <= i < served :: AnsweredAt(map[1 := EMPTY], ops, i, answers[i])
    ensures GeometryOk(Small(free))
    ensures forall k: nat | k <= |ops| :: AllInPlan(Small(free), map[1 := EMPTY], map[1 := Capacity(free)], ops, k) ==>
      k <= served
    ensures served < |ops| ==> exists s ::
      FilesAre(Small(free), s, {1}, Runs.Run(map[1 := EMPTY], ops[..served])) && Refused(Small(free), s, ops[served])
  {
    hide FilesAre, SmallDisk, Descriptor, SuperOf, SmallUse, AnsweredAt, Runs.Run, Provided, InPlan, Refused;
    SmallFiles(free);
    SmallGeometry(free);
    SmallPlan(free);
    var d := new Driver(Small(free), SmallDisk(free), Descriptor(free), SuperOf(free), SmallUse());
    served, answers := RunAll(d, ops, {1}, map[1 := EMPTY], [1], map[1 := Capacity(free)]);
  }

  // ---------- Bytes before a truncation ----------

  function OldByteOps(): seq<Runs.Op> {
    [Runs.WriteOp(1, 0, [7]), TruncateOp(1), Runs.WriteOp(1, 1, [8]), Runs.ReadOp(1, 0, 2)]
  }

  lemma RunStep(fs: map<int, File>, ops: seq<Runs.Op>, k: nat)
    requires k < |ops|
    ensures Runs.Run(fs, ops[..k + 1]) == Runs.Step(Runs.Run(fs, ops[..k]), ops[k])
  {
    assert ops[..k + 1][..k] == ops[..k];
  }

  /** The file before each of these operations. */
  lemma OldByteFiles()
    ensures var fs, ops := map[1 := EMPTY], OldByteOps();
      && Runs.Run(fs, ops[..0]) == fs
      && Runs.Run(fs, ops[..1]) == map[1 := After(EMPTY, ops[0])]
      && Runs.Run(fs, ops[..2]) == map[1 := After(After(EMPTY, ops[0]), ops[1])]
      && Runs.Run(fs, ops[..3]) == map[1 := After(After(After(EMPTY, ops[0]), ops[1]), ops[2])]
  {
    hide OldByteOps, After;
    var fs, ops := map[1 := EMPTY], OldByteOps();
    OldByteIs();
    RunStep(fs, ops, 0);
    RunStep(fs, ops, 1);
    RunStep(fs, ops, 2);
  }

  lemma OldByteIs()
    ensures |OldByteOps()| == 4 && forall i | 0 <= i < 4 :: OldByteOps()[i].f == 1
  {
  }

  lemma OldByteRun()
    ensures GeometryOk(Small(3)) && |OldByteOps()| == 4
    ensures AllInPlan(Small(3), map[1 := EMPTY], map[1 := Capacity(3)], OldByteOps(), 4)
  {
    var fs, ops := map[1 := EMPTY], OldByteOps();
    SmallGeometry(3);
    OldByteFiles();
    hide Runs.Run;
    assert After(After(After(EMPTY, ops[0]), ops[1]), ops[2]).size == 2;
  }

  lemma TwoBytes(answer: seq<Byte>)
    requires |OldByteOps()| == 4 && AnsweredAt(map[1 := EMPTY], OldByteOps(), 3, answer)
    ensures answer == [7, 8]
  {
    var ops := OldByteOps();
    OldByteFiles();
    hide Runs.Run;
    var file := After(After(After(EMPTY, ops[0]), ops[1]), ops[2]);
    assert file.size == 2 && file.bytes(0) == 7 && file.bytes(1) == 8;
  }

  /** A write, a truncation, and a write behind the new end of the file: the byte before it comes back. */
  method OldByteReturns() returns (answer: seq<Byte>)
    ensures answer == [7, 8]
  {
    hide AllInPlan, InPlan, AnsweredAt, FilesAre, Refused, OldByteOps;
    OldByteIs();
    OldByteRun();
    var served, answers := RunSmall(3, OldByteOps());
    answer := answers[3];
    TwoBytes(answer);
  }

  // ---------- Devices without enough space ----------

  /** What the free blocks suffice for. */
  lemma SmallFate(free: Few, block: nat)
    requires block < 267
    ensures GeometryOk(Small(free)) && Count(Small(free), Zeros(128)) == 0
    ensures Space(Small(free), SmallDisk(free), Zeros(128), 0, block + 1) <= free <==> block < Capacity(free)
    ensures free == 13 && block == 12 <==>
      && Space(Small(free), SmallDisk(free), Zeros(128), 0, block) < free
      && free < Space(Small(free), SmallDisk(free), Zeros(128), 0, block + 1)
  {
    hide SmallDisk, Zeros, Space;
    SmallSpace(free, block);
    SmallSpace(free, block + 1);
  }

  /** A driver on a small device. */
  method SmallDriver(free: Few) returns (d: Driver, n: seq<Byte>)
    ensures fresh(d) && d.g == Small(free) && d.Now() == SmallState(free) && n == Zeros(128)
    ensures GeometryOk(d.g) && CountsFit(d.g) && 32 * d.g.groups <= |d.table| && SumFree(d.table, d.g.groups) == free
    ensures FsOk(d.g, d.Now(), {1}) && Placed(d.g, d.Now(), 1) && InodeAt(d.g, d.Now(), 1) == n
  {
    hide AllocOk, OneFileOk, FileIs, SmallDisk, Descriptor, SuperOf, SmallUse, Zeros, InodeAt, Placed;
    SmallBooks(free);
    SmallGeometry(free);
    SmallFields(free);
    EmptyInode(free);
    EmptyFile(free);
    d := new Driver(Small(free), SmallDisk(free), Descriptor(free), SuperOf(free), SmallUse());
    InodeBlockThere(Small(free), SmallState(free), {1}, 1);
    n := d.ReadInode(1);
  }

  /** How the write of a block to the empty file goes. */
  method WriteSmall(free: Few, block: nat) returns (fate: Fate)
    requires block < 267
    ensures fate.Enough? <==> block < Capacity(free)
    ensures fate.Unmapped? <==> free == 13 && block == 12
  {
    hide FsOk, SmallState, SmallDisk, SmallUse, Zeros, InodeAt, Placed, Space, GeometryOk, CountsFit, SumFree;
    var d, n := SmallDriver(free);
    SmallFate(free, block);
    SmallDiskIs(free);
    var r;
    n, r, fate := d.InodeWriteBlock(n, 1, block, Zeros(1024), {1});
  }

  lemma SmallDiskIs(free: Few)
    ensures SmallState(free).disk == SmallDisk(free) && MaxBlocks(Small(free)) > 267
  {
  }

  /** On a full device the loop never ends; with blocks for the data and none for the table it loses the last one. */
  method OutOfSpace() returns (full: Fate, noTable: Fate)
    ensures full == Endless && noTable == Unmapped
  {
    full := WriteSmall(0, 0);
    noTable := WriteSmall(13, 12);
  }
}
