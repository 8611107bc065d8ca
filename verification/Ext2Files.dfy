/**
 Files as a whole: where inodes lie on the device (src/modules/fs/ext2.cpp:1135-1180), what
 a consistent set of files is, and what work on one file leaves alone.
 */
module Ext2Files {
  import opened Bytes
  import opened Ext2Disk
  import opened Ext2Map

  // ---------- Where inodes lie ----------

  function InodeGroup(g: Geometry, f: nat): nat
    requires 0 < g.inodesPerGroup
  {
    f / g.inodesPerGroup
  }

  /** The index of an inode in its group, from zero; -1 for multiples of the group size. */
  function InodeIndex(g: Geometry, f: nat): int
    requires 0 < g.inodesPerGroup
  {
    f - InodeGroup(g, f) * g.inodesPerGroup - 1
  }

  function InodePart(g: Geometry, f: nat): int
    requires 0 < g.inodesPerGroup && 0 < g.blockSize
  {
    InodeIndex(g, f) * g.inodeSize / g.blockSize
  }

  function InodeStart(g: Geometry, f: nat): int
    requires 0 < g.inodesPerGroup && 0 < g.blockSize && 0 < g.inodeSize
  {
    (InodeIndex(g, f) - InodePart(g, f) * (g.blockSize / g.inodeSize)) * g.inodeSize
  }

  function InodeBlock(g: Geometry, table: seq<Byte>, f: nat): int
    requires 0 < g.inodesPerGroup && 0 < g.blockSize && 32 * InodeGroup(g, f) + 32 <= |table|
  {
    InodesNo(table, InodeGroup(g, f)) + InodePart(g, f)
  }

  lemma DivisionIsUnique(a: nat, b: nat, d: nat, r: nat)
    requires a == d * b + r && r < b
    ensures a / b == d
  {
    var q := a / b;
    DivisionFits(a, b);
    assert (q + 1) * b == q * b + b && (d + 1) * b == d * b + b;
    FactorBelow(d, q + 1, b);
    FactorBelow(q, d + 1, b);
  }

  lemma GridProduct(d: nat, q: nat, e: nat, size: nat)
    ensures (d * q + e) * size == d * (q * size) + e * size
  {
    assert (d * q + e) * size == d * q * size + e * size;
    assert d * q * size == d * (q * size);
  }

  lemma LastFits(e: nat, q: nat, size: nat)
    requires e < q
    ensures 0 <= e * size && e * size + size <= q * size
  {
    NextMultiple(size, e, q);
  }

  /** Inodes fill blocks one after the other: inode `j` is number `j % q` of block `j / q`. */
  lemma InodeGrid(j: nat, q: nat, size: nat, blockSize: nat)
    requires 0 < q && 0 < size && blockSize == q * size
    ensures j * size / blockSize == j / q
    ensures 0 <= j - j / q * q < q && 0 <= (j - j / q * q) * size && (j - j / q * q) * size + size <= blockSize
  {
    var d := j / q;
    DivisionFits(j, q);
    var e: nat := j - d * q;
    GridProduct(d, q, e, size);
    LastFits(e, q, size);
    DivisionIsUnique(j * size, blockSize, d, e * size);
  }

  lemma SlotsApart(a: nat, b: nat, size: nat)
    requires a != b
    ensures a * size + size <= b * size || b * size + size <= a * size
  {
    if a < b {
      NextMultiple(size, a, b);
    } else {
      NextMultiple(size, b, a);
    }
  }

  lemma ExactQuotient(a: nat, b: nat)
    requires 0 < b && a % b == 0
    ensures a == a / b * b
  {
  }

  predicate InodesFit(g: Geometry) {
    GeometryOk(g) && g.blockSize % g.inodeSize == 0
  }

  /** The number is one the driver places rightly, and the block of the inode is set aside for inodes. */
  ghost predicate Placed(g: Geometry, s: State, f: int) {
    && InodesFit(g) && 0 < f && f % g.inodesPerGroup != 0 && InodeGroup(g, f) < g.groups
    && 32 * g.groups <= |s.table|
    && 0 <= InodePart(g, f) && Owned(s.own, InodeBlock(g, s.table, f), Inodes(InodeGroup(g, f), InodePart(g, f)))
  }

  lemma IndexFits(g: Geometry, f: nat)
    requires 0 < g.inodesPerGroup && f % g.inodesPerGroup != 0
    ensures 0 <= InodeIndex(g, f)
  {
    var q, r := f / g.inodesPerGroup, f % g.inodesPerGroup;
    assert f == q * g.inodesPerGroup + r;
  }

  /** An inode lies inside its block. */
  lemma InodeInside(g: Geometry, f: nat)
    requires InodesFit(g) && f % g.inodesPerGroup != 0
    ensures 0 <= InodeStart(g, f) && InodeStart(g, f) + g.inodeSize <= g.blockSize
  {
    IndexFits(g, f);
    var q := g.blockSize / g.inodeSize;
    ExactQuotient(g.blockSize, g.inodeSize);
    PositiveQuotient(g.blockSize, g.inodeSize);
    InodeGrid(InodeIndex(g, f), q, g.inodeSize, g.blockSize);
  }

  lemma PositiveQuotient(a: nat, b: nat)
    requires 0 < a && 0 < b && a % b == 0
    ensures 0 < a / b
  {
    assert a == a / b * b;
  }

  /** Two inodes in one block do not overlap. */
  lemma InodesApart(g: Geometry, f: nat, h: nat)
    requires InodesFit(g) && f % g.inodesPerGroup != 0 && h % g.inodesPerGroup != 0 && f != h
    requires InodeGroup(g, f) == InodeGroup(g, h) && InodePart(g, f) == InodePart(g, h)
    ensures InodeStart(g, f) + g.inodeSize <= InodeStart(g, h) || InodeStart(g, h) + g.inodeSize <= InodeStart(g, f)
  {
    var q := g.blockSize / g.inodeSize;
    IndexFits(g, f);
    IndexFits(g, h);
    ExactQuotient(g.blockSize, g.inodeSize);
    PositiveQuotient(g.blockSize, g.inodeSize);
    InodeGrid(InodeIndex(g, f), q, g.inodeSize, g.blockSize);
    InodeGrid(InodeIndex(g, h), q, g.inodeSize, g.blockSize);
    SlotsApart(InodeIndex(g, f) - InodePart(g, f) * q, InodeIndex(g, h) - InodePart(g, h) * q, g.inodeSize);
  }

  /** The inode on the device. */
  function InodeAt(g: Geometry, s: State, f: nat): seq<Byte>
    requires InodesFit(g) && f % g.inodesPerGroup != 0 && 32 * InodeGroup(g, f) + 32 <= |s.table|
  {
    InodeInside(g, f);
    var b, start := Block(s.disk, InodeBlock(g, s.table, f)), InodeStart(g, f);
    if start + g.inodeSize <= |b| then b[start..start + g.inodeSize] else []
  }

  /** The state after an inode has been written. */
  function WithInode(g: Geometry, s: State, f: nat, n: seq<Byte>): State
    requires InodesFit(g) && f % g.inodesPerGroup != 0 && 32 * InodeGroup(g, f) + 32 <= |s.table|
    requires |Block(s.disk, InodeBlock(g, s.table, f))| == g.blockSize && |n| == g.inodeSize
  {
    InodeInside(g, f);
    var b, start := Block(s.disk, InodeBlock(g, s.table, f)), InodeStart(g, f);
    s.(disk := s.disk[InodeBlock(g, s.table, f) := b[..start] + n + b[start + g.inodeSize..]])
  }

  lemma SlicePatched(b: seq<Byte>, start: nat, n: seq<Byte>, lo: nat, hi: nat)
    requires start + |n| <= |b| && lo <= hi <= |b| &&
      (hi <= start || start + |n| <= lo || (lo == start && hi == start + |n|))
    ensures |b[..start] + n + b[start + |n|..]| == |b|
    ensures (b[..start] + n + b[start + |n|..])[lo..hi] == if lo == start && hi == start + |n| then n else b[lo..hi]
  {
    var r := b[..start] + n + b[start + |n|..];
    forall k | lo <= k < hi && !(start <= k < start + |n|) ensures r[k] == b[k] {
    }
  }

  /** A written inode is found again, and no other inode changes. */
  lemma InodeWritten(g: Geometry, s: State, f: int, n: seq<Byte>, h: int)
    requires Placed(g, s, f) && Placed(g, s, h) && Sized(g, s) && |n| == g.inodeSize
    ensures |Block(s.disk, InodeBlock(g, s.table, f))| == g.blockSize
    ensures InodeAt(g, WithInode(g, s, f, n), h) == if h == f then n else InodeAt(g, s, h)
  {
    var b := Block(s.disk, InodeBlock(g, s.table, f));
    InodeInside(g, f);
    InodeInside(g, h);
    if InodeBlock(g, s.table, f) == InodeBlock(g, s.table, h) {
      if h != f {
        InodesApart(g, f, h);
      }
      SlicePatched(b, InodeStart(g, f), n, InodeStart(g, h), InodeStart(g, h) + g.inodeSize);
    }
  }
}
