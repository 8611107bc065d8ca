/**
 The format of the device in bytes (src/modules/fs/ext2.h:54-155): where the numbers, bits, inodes
 and block numbers are that the driver's functions name.
 */
module Ext2Layout {
  import opened Bytes
  import opened Ext2Bytes
  import opened Ext2Device
  import opened Ext2Disk
  import opened Ext2Map
  import opened Ext2Files
  import opened Ext2Frames
  import opened Ext2Steps
  import opened Ext2Content

  // ---------- Numbers and bits ----------

  /** The number that bytes denote, the lowest one first. */
  function LittleEndian(b: seq<Byte>): int {
    if b == [] then 0 else (b[0] as int) + 256 * LittleEndian(b[1..])
  }

  lemma TwoBytes(b: seq<Byte>)
    requires |b| == 2
    ensures LittleEndian(b) == (b[0] as int) + 256 * (b[1] as int)
  {
    assert b[1..][0] == b[1] && b[1..][1..] == [];
    assert LittleEndian(b[1..]) == b[1];
  }

  lemma FourBytesOf(b: seq<Byte>)
    requires |b| == 4
    ensures LittleEndian(b) == (b[0] as int) + 256 * (b[1] as int) + 65536 * (b[2] as int) + 16777216 * (b[3] as int)
  {
    assert b[1..][0] == b[1] && b[1..][1..] == b[2..];
    TwoBytes(b[2..]);
    assert LittleEndian(b[1..]) == (b[1] as int) + 256 * LittleEndian(b[2..]);
  }

  lemma WordBytes(b: seq<Byte>, k: nat)
    ensures 4 * k + 4 <= |b| ==> Word(b, k) == LittleEndian(b[4 * k..4 * k + 4])
    ensures 2 * k + 2 <= |b| ==> GetHalf(b, k) == LittleEndian(b[2 * k..2 * k + 2])
  {
    if 4 * k + 4 <= |b| {
      FourBytesOf(b[4 * k..4 * k + 4]);
    }
    if 2 * k + 2 <= |b| {
      TwoBytes(b[2 * k..2 * k + 2]);
    }
  }

  function Power(k: nat): (p: nat)
    ensures 0 < p
  {
    if k == 0 then 1 else 2 * Power(k - 1)
  }

  lemma {:induction false} BitOfByte(x: nat, k: nat)
    ensures ByteBit(x, k) <==> x / Power(k) % 2 == 1
  {
    if k > 0 {
      BitOfByte(x / 2, k - 1);
      HalfTwice(x, Power(k - 1));
    }
  }

  lemma HalfTwice(x: nat, p: nat)
    requires 0 < p
    ensures x / (2 * p) == x / 2 / p
  {
    var q, r := x / 2 / p, x / 2 % p;
    assert x / 2 == p * q + r;
    assert x == 2 * p * q + (2 * r + x % 2);
    DivisionIsUnique(x, 2 * p, q, 2 * r + x % 2);
  }

  /** Bit `n` of a bitmap is bit `n % 8`, from the lowest one, of byte `n / 8`. */
  lemma BitBytes(b: seq<Byte>, n: nat)
    ensures n / 8 < |b| ==> (IsSet(b, n) <==> b[n / 8] / Power(n % 8) % 2 == 1)
    ensures Power(0) == 1 && Power(1) == 2 && Power(2) == 4 && Power(3) == 8
    ensures Power(4) == 16 && Power(5) == 32 && Power(6) == 64 && Power(7) == 128
  {
    if n / 8 < |b| {
      BitOfByte(b[n / 8], n % 8);
    }
    assert Power(3) == 8;
  }

  // ---------- Records ----------

  /** The size of a file is in bytes 4 to 7 of its inode, the number of its 512-byte sectors in bytes 28 to 31. */
  lemma InodeFields(g: Geometry, n: seq<Byte>)
    requires GeometryOk(g) && 128 <= |n|
    ensures FileSize(n) == LittleEndian(n[4..8]) && 0 <= LittleEndian(n[28..32])
    ensures Count(g, n) == LittleEndian(n[28..32]) / (g.blockSize / 512)
    ensures forall j: nat | j < 15 :: Ptr(n, j) == LittleEndian(n[40 + 4 * j..40 + 4 * j + 4])
  {
    WordBytes(n, 1);
    WordBytes(n, 7);
    forall j: nat | j < 15 ensures Ptr(n, j) == LittleEndian(n[40 + 4 * j..40 + 4 * j + 4]) {
      WordBytes(n, 10 + j);
    }
  }

  /** The fields of a group: its bitmap and its inode table by block number, and the number of its free blocks. */
  lemma GroupFields(table: seq<Byte>, i: nat)
    requires 32 * i + 32 <= |table|
    ensures BitmapNo(table, i) == LittleEndian(table[32 * i..32 * i + 4])
    ensures InodesNo(table, i) == LittleEndian(table[32 * i + 8..32 * i + 12])
    ensures FreeCount(table, i) == LittleEndian(table[32 * i + 12..32 * i + 14])
  {
    WordBytes(table, 8 * i);
    WordBytes(table, 8 * i + 2);
    WordBytes(table, 16 * i + 6);
  }

  /** Byte `x` from the beginning of a block on, across the blocks that follow. */
  function ByteFrom(disk: Disk, first: int, size: nat, x: nat): Byte
    requires 0 < size
  {
    var b := Block(disk, first + x / size);
    if x % size < |b| then b[x % size] else 0
  }

  /** The superblock begins at byte 1024 of the device, and its free blocks are counted in its bytes 12 to 15. */
  lemma SuperOnDevice(g: Geometry, s: State)
    requires AllocOk(g, s)
    ensures |s.super| == 1024 && forall x: nat | x < 1024 :: ByteFrom(s.disk, 0, g.blockSize, 1024 + x) == s.super[x]
    ensures LittleEndian(s.super[12..16]) == SumFree(s.table, g.groups)
  {
    WordBytes(s.super, 3);
    forall x: nat | x < 1024 ensures ByteFrom(s.disk, 0, g.blockSize, 1024 + x) == s.super[x] {
      SuperByte(g, s, x);
    }
  }

  lemma SuperByte(g: Geometry, s: State, x: nat)
    requires GeometryOk(g) && CopiesOk(g, s) && |s.super| == 1024 && x < 1024
    ensures ByteFrom(s.disk, 0, g.blockSize, 1024 + x) == s.super[x]
  {
    hide CopiesOk;
    SuperQuotient(g, x);
    SuperSlice(g, s, x);
  }

  lemma SuperQuotient(g: Geometry, x: nat)
    requires GeometryOk(g) && x < 1024
    ensures (1024 + x) / g.blockSize == SuperBlock(g) && (1024 + x) % g.blockSize == SuperStart(g) + x
  {
    DivisionIsUnique(1024 + x, g.blockSize, SuperBlock(g), SuperStart(g) + x);
    Remainder(1024 + x, g.blockSize);
  }

  lemma SuperSlice(g: Geometry, s: State, x: nat)
    requires CopiesOk(g, s) && |s.super| == 1024 && x < 1024
    ensures var b := Block(s.disk, SuperBlock(g)); SuperStart(g) + x < |b| && b[SuperStart(g) + x] == s.super[x]
  {
    var b := Block(s.disk, SuperBlock(g));
    assert b[SuperStart(g)..SuperStart(g) + SUPER_SIZE][x] == b[SuperStart(g) + x];
  }

  /** The descriptors lie on the device one after the other. */
  lemma TableOnDevice(g: Geometry, s: State, x: nat)
    requires GeometryOk(g) && CopiesOk(g, s) && x < |s.table|
    ensures ByteFrom(s.disk, g.tableOffset, g.blockSize, x) == s.table[x]
  {
    var i: nat, k: nat := Row(x, g.blockSize), Col(x, g.blockSize);
    Remainder(x, g.blockSize);
    PartNumber(g, s, x, i, k);
    hide GeometryOk, CopiesOk, Part;
    assert x / g.blockSize == i && x % g.blockSize == k;
  }

  lemma PartNumber(g: Geometry, s: State, x: nat, i: nat, k: nat)
    requires CopiesOk(g, s) && x < |s.table| && x == i * g.blockSize + k && k < g.blockSize
    ensures var b := Block(s.disk, g.tableOffset + i); k < |b| && b[k] == s.table[x]
  {
    FactorBelow(i, g.span, g.blockSize);
    assert Block(s.disk, PartBlock(g, i)) == Part(g, s.table, i);
    PartFits(g, i);
    assert PartStart(g, i) == i * g.blockSize;
    assert Part(g, s.table, i)[k] == s.table[PartStart(g, i) + k];
  }

  // ---------- Places ----------

  /** Bit `k` of group `i` is the quotient and the remainder of the block number by the size of a group. */
  lemma BlockPlace(g: Geometry, i: nat, k: nat)
    requires k < g.blocksPerGroup
    ensures BlockNo(g, i, k) / g.blocksPerGroup == i && BlockNo(g, i, k) % g.blocksPerGroup == k
  {
    assert BlockNo(g, i, k) == i * g.blocksPerGroup + k;
    DivisionIsUnique(BlockNo(g, i, k), g.blocksPerGroup, i, k);
  }

  /** Inode `j` of a group is number `j - 1` in its table. */
  lemma InodePlace(g: Geometry, f: nat, k: nat)
    requires InodesFit(g) && f % g.inodesPerGroup != 0 && k < g.inodeSize
    ensures InodeGroup(g, f) == f / g.inodesPerGroup
    ensures var x := (f % g.inodesPerGroup - 1) * g.inodeSize + k;
      0 <= x && InodePart(g, f) == x / g.blockSize && InodeStart(g, f) + k == x % g.blockSize
  {
    var j := InodeIndex(g, f);
    assert f == f / g.inodesPerGroup * g.inodesPerGroup + f % g.inodesPerGroup;
    assert j == f % g.inodesPerGroup - 1;
    var q := g.blockSize / g.inodeSize;
    ExactQuotient(g.blockSize, g.inodeSize);
    PositiveQuotient(g.blockSize, g.inodeSize);
    InodeGrid(j, q, g.inodeSize, g.blockSize);
    DivisionFits(j, q);
    var d := j / q;
    GridProduct(d, q, j - d * q, g.inodeSize);
    DivisionIsUnique(j * g.inodeSize + k, g.blockSize, d, InodeStart(g, f) + k);
  }

  /** The bytes of an inode on the device. */
  lemma InodeOnDevice(g: Geometry, s: State, f: nat, k: nat)
    requires Placed(g, s, f) && |Block(s.disk, InodeBlock(g, s.table, f))| == g.blockSize && k < g.inodeSize
    ensures |InodeAt(g, s, f)| == g.inodeSize && 0 <= (f % g.inodesPerGroup - 1) * g.inodeSize + k
    ensures InodeAt(g, s, f)[k] == ByteFrom(s.disk, InodesNo(s.table, f / g.inodesPerGroup), g.blockSize,
                                            (f % g.inodesPerGroup - 1) * g.inodeSize + k)
  {
    InodeInside(g, f);
    InodePlace(g, f, k);
    var b, start := Block(s.disk, InodeBlock(g, s.table, f)), InodeStart(g, f);
    assert b[start..start + g.inodeSize][k] == b[start + k];
  }

  /** The bytes of an inode that has been written. */
  lemma InodeStoredAt(g: Geometry, s: State, f: nat, n: seq<Byte>, k: nat)
    requires Placed(g, s, f) && |Block(s.disk, InodeBlock(g, s.table, f))| == g.blockSize && |n| == g.inodeSize
    requires k < g.inodeSize
    ensures 0 <= (f % g.inodesPerGroup - 1) * g.inodeSize + k
    ensures ByteFrom(WithInode(g, s, f, n).disk, InodesNo(s.table, f / g.inodesPerGroup), g.blockSize,
                     (f % g.inodesPerGroup - 1) * g.inodeSize + k) == n[k]
  {
    InodeInside(g, f);
    InodePlace(g, f, k);
    var b, start := Block(s.disk, InodeBlock(g, s.table, f)), InodeStart(g, f);
    assert (b[..start] + n + b[start + g.inodeSize..])[start + k] == n[k];
  }

  /** A written inode changes its own bytes and no other. */
  lemma InodeStores(g: Geometry, s: State, f: nat, n: seq<Byte>, b: int, k: nat)
    requires Placed(g, s, f) && |Block(s.disk, InodeBlock(g, s.table, f))| == g.blockSize && |n| == g.inodeSize
    requires k < g.blockSize
    ensures 0 <= (f % g.inodesPerGroup - 1) * g.inodeSize
    ensures var first, from := InodesNo(s.table, f / g.inodesPerGroup), (f % g.inodesPerGroup - 1) * g.inodeSize;
      var was, now := Block(s.disk, b), Block(WithInode(g, s, f, n).disk, b);
      var x := (b - first) * g.blockSize + k;
      |now| == |was| && (k < |was| ==> now[k] == if from <= x < from + g.inodeSize then n[x - from] else was[k])
  {
    InodeInside(g, f);
    InodePlace(g, f, 0);
    var d: nat := InodePart(g, f);
    var from: nat := (f % g.inodesPerGroup - 1) * g.inodeSize;
    assert from == d * g.blockSize + InodeStart(g, f);
    var first := InodesNo(s.table, f / g.inodesPerGroup);
    if b != first + d {
      BlocksApart(b - first, d, g.blockSize, k, InodeStart(g, f), g.inodeSize);
    }
  }

  lemma BlocksApart(a: int, d: int, size: nat, k: nat, start: nat, len: nat)
    requires a != d && k < size && start + len <= size
    ensures !(d * size + start <= a * size + k < d * size + start + len)
  {
    if a < d {
      Further(d - a, size);
    } else {
      Further(a - d, size);
    }
    assert d * size == (d - a) * size + a * size;
    assert a * size == (a - d) * size + d * size;
  }

  lemma Further(n: nat, size: nat)
    requires 0 < n
    ensures size <= n * size
  {
    assert n * size == (n - 1) * size + size;
    assert 0 <= (n - 1) * size;
  }

  lemma Remainder(b: nat, p: nat)
    requires 0 < p
    ensures b - b / p * p == b % p
  {
  }

  /** Where the number of block `i` of a file is, with `p` numbers in a table: in the inode, in a table, or in a row. */
  function Entry(disk: Disk, p: nat, n: seq<Byte>, i: nat): int
    requires 0 < p
  {
    if i < 12 then Word(n, 10 + i)
    else if i < 12 + p then Word(Block(disk, Word(n, 22)), i - 12)
    else
      var b: nat := i - 12 - p;
      Word(Block(disk, Word(Block(disk, Word(n, 23)), b / p)), b % p)
  }

  /** It is there once the tables on the way are. */
  lemma EntryPlace(g: Geometry, disk: Disk, n: seq<Byte>, i: nat)
    requires GeometryOk(g) && TablesNeeded(g, disk, n, i) == 0
    ensures 0 < g.blockSize / 4 && Lookup(g, disk, n, i) == Entry(disk, g.blockSize / 4, n, i)
  {
    var p := PerBlock(g);
    if i >= 12 + p {
      Remainder(i - 12 - p, p);
    }
  }

  /** Byte `x % size` of the block whose number is entered for block `x / size`. */
  function ByteOfFile(disk: Disk, size: nat, n: seq<Byte>, x: nat): Byte
    requires 4 <= size
  {
    var b := Block(disk, Entry(disk, size / 4, n, x / size));
    if x % size < |b| then b[x % size] else 0
  }

  /** The bytes of a file on the device. */
  lemma FileByteOnDevice(g: Geometry, s: State, f: int, n: seq<Byte>, x: nat)
    requires GeometryOk(g) && AllocOk(g, s) && FileOk(g, s, f, n)
    ensures Raw(g, s.disk, n, x) ==
      if x < Count(g, n) * g.blockSize then ByteOfFile(s.disk, g.blockSize, n, x) else 0
  {
    hide AllocOk, FileOk, Raw, Lookup, Count, Word, TablesNeeded, Block, Entry;
    RawPlace(g, s, f, n, x);
    QuotientIsBelow(x, g.blockSize, Count(g, n));
    if x / g.blockSize < Count(g, n) {
      EntryPlace(g, s.disk, n, x / g.blockSize);
    }
  }

  lemma QuotientIsBelow(x: nat, size: nat, c: nat)
    requires 0 < size
    ensures x / size < c <==> x < c * size
  {
    DivisionFits(x, size);
    if x / size < c {
      Times(x / size + 1, c, size);
    } else {
      Times(c, x / size, size);
    }
    assert (x / size + 1) * size == x / size * size + size;
  }

  lemma Times(a: nat, b: nat, c: nat)
    requires a <= b
    ensures a * c <= b * c
  {
    assert (b - a) * c == b * c - a * c;
  }

  lemma RawPlace(g: Geometry, s: State, f: int, n: seq<Byte>, x: nat)
    requires AllocOk(g, s) && GeometryOk(g) && FileOk(g, s, f, n)
    ensures 0 <= x / g.blockSize && 0 <= x % g.blockSize < g.blockSize
    ensures x / g.blockSize >= Count(g, n) ==> Raw(g, s.disk, n, x) == 0
    ensures x / g.blockSize < Count(g, n) ==>
      var b := Block(s.disk, Lookup(g, s.disk, n, x / g.blockSize));
      && |b| == g.blockSize && Raw(g, s.disk, n, x) == b[x % g.blockSize]
      && TablesNeeded(g, s.disk, n, x / g.blockSize) == 0
  {
    hide TablesOk, SlotOf, At, TablesNeeded, Ptr, Word, GetWord, MaxBlocks;
    Remainder(x, g.blockSize);
    var i := Row(x, g.blockSize);
    if i < Count(g, n) {
      assert Owned(s.own, Lookup(g, s.disk, n, i), Data(f, i));
      if TablesNeeded(g, s.disk, n, i) > 0 {
        Unmapped(g, s.disk, n, i);
      }
    }
  }

  lemma Unmapped(g: Geometry, disk: Disk, n: seq<Byte>, i: nat)
    requires GeometryOk(g) && TablesNeeded(g, disk, n, i) > 0
    ensures Lookup(g, disk, n, i) == 0
  {
  }
}
