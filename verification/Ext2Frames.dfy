/**
 A consistent file system, and what each store of the driver keeps of it.
 */
module Ext2Frames {
  import opened Bytes
  import opened Ext2Bytes
  import opened Ext2Device
  import opened Ext2Disk
  import opened Ext2Map
  import opened Ext2Files

  function SectorsPerBlock(g: Geometry): (r: nat)
    ensures GeometryOk(g) ==> 2 <= r
  {
    g.blockSize / 512
  }

  function FileSize(n: seq<Byte>): int {
    Word(n, SIZE_WORD)
  }

  /** How many blocks the inode has. */
  function Count(g: Geometry, n: seq<Byte>): nat
    requires GeometryOk(g)
  {
    Row(Word(n, SECTORS_WORD), SectorsPerBlock(g))
  }

  /** Every block of the file is there, and the file's own. */
  ghost predicate Mapped(g: Geometry, s: State, f: int, n: seq<Byte>)
    requires GeometryOk(g)
  {
    forall i: nat | i < Count(g, n) :: Owned(s.own, Lookup(g, s.disk, n, i), Data(f, i))
  }

  ghost predicate FileOk(g: Geometry, s: State, f: int, n: seq<Byte>)
    requires GeometryOk(g)
  {
    TablesOk(g, s, f, n) && Count(g, n) <= MaxBlocks(g) && Mapped(g, s, f, n)
  }

  /** The block belongs to another file. */
  predicate Foreign(o: Owner, f: int) {
    match o
    case Data(h, _) => h != f
    case Single(h) => h != f
    case Double(h) => h != f
    case Inner(h, _) => h != f
    case _ => false
  }

  ghost predicate SameInode(g: Geometry, s: State, s': State, h: int) {
    Placed(g, s, h) && Placed(g, s', h) && InodeAt(g, s', h) == InodeAt(g, s, h)
  }

  /** Files other than `f`, their inodes and the use of blocks are left alone. */
  ghost predicate Elsewhere(g: Geometry, s: State, s': State, files: set<int>, f: int) {
    && (forall x | x in s.own :: Owned(s'.own, x, s.own[x]))
    && (forall x | x in s.own && Foreign(s.own[x], f) :: Block(s'.disk, x) == Block(s.disk, x))
    && (forall h | h in files && h != f :: SameInode(g, s, s', h))
    && (forall h | h in files :: Placed(g, s', h))
  }

  /** The contents of the blocks of `f` are left alone. */
  ghost predicate SameData(s: State, s': State, f: int) {
    forall x | x in s.own && s.own[x].Data? && s.own[x].f == f :: Block(s'.disk, x) == Block(s.disk, x)
  }

  /** All is well except perhaps for `f`. */
  ghost predicate Others(g: Geometry, s: State, files: set<int>, f: int) {
    && AllocOk(g, s)
    && (forall h | h in files :: Placed(g, s, h))
    && (forall h | h in files && h != f :: OneFileOk(g, s, h))
  }

  ghost predicate OneFileOk(g: Geometry, s: State, h: int) {
    Placed(g, s, h) && FileOk(g, s, h, InodeAt(g, s, h))
  }

  ghost predicate FsOk(g: Geometry, s: State, files: set<int>) {
    AllocOk(g, s) && forall h | h in files :: OneFileOk(g, s, h)
  }

  /** The content of block `i` of a file; blocks it does not have read as zeros. */
  function Content(g: Geometry, disk: Disk, n: seq<Byte>, i: nat): seq<Byte>
    requires GeometryOk(g)
  {
    if i < Count(g, n) then Block(disk, Lookup(g, disk, n, i)) else Zeros(g.blockSize)
  }

  lemma OneFileKept(g: Geometry, s: State, s': State, files: set<int>, f: int, h: int)
    requires Elsewhere(g, s, s', files, f) && h in files && h != f && OneFileOk(g, s, h)
    ensures OneFileOk(g, s', h) && InodeAt(g, s', h) == InodeAt(g, s, h)
    ensures forall i: nat :: Content(g, s'.disk, InodeAt(g, s, h), i) == Content(g, s.disk, InodeAt(g, s, h), i)
  {
    assert SameInode(g, s, s', h);
    var n := InodeAt(g, s, h);
    MapFrame(g, s, s', h, n);
    forall i: nat | i < Count(g, n)
      ensures Lookup(g, s'.disk, n, i) == Lookup(g, s.disk, n, i)
      ensures Owned(s'.own, Lookup(g, s'.disk, n, i), Data(h, i))
      ensures Content(g, s'.disk, n, i) == Content(g, s.disk, n, i)
    {
      SlotsDiffer(g, i, i);
      assert Owned(s.own, Lookup(g, s.disk, n, i), Data(h, i));
    }
  }

  lemma OthersKept(g: Geometry, s: State, s': State, files: set<int>, f: int)
    requires Others(g, s, files, f) && AllocOk(g, s') && Elsewhere(g, s, s', files, f)
    ensures Others(g, s', files, f)
  {
    forall h | h in files && h != f ensures OneFileOk(g, s', h) {
      OneFileKept(g, s, s', files, f, h);
    }
  }

  lemma ElsewhereTwice(g: Geometry, s0: State, s1: State, s2: State, files: set<int>, f: int)
    requires Elsewhere(g, s0, s1, files, f) && Elsewhere(g, s1, s2, files, f)
    ensures Elsewhere(g, s0, s2, files, f)
  {
    forall x | x in s0.own ensures Owned(s2.own, x, s0.own[x]) {
      assert Owned(s1.own, x, s0.own[x]);
    }
    forall x | x in s0.own && Foreign(s0.own[x], f) ensures Block(s2.disk, x) == Block(s0.disk, x) {
      assert Owned(s1.own, x, s0.own[x]);
    }
    forall h | h in files && h != f ensures SameInode(g, s0, s2, h) {
      assert SameInode(g, s0, s1, h) && SameInode(g, s1, s2, h);
    }
  }

  lemma SameDataTwice(s0: State, s1: State, s2: State, f: int)
    requires forall x | x in s0.own :: Owned(s1.own, x, s0.own[x])
    requires SameData(s0, s1, f) && SameData(s1, s2, f)
    ensures SameData(s0, s2, f)
  {
    forall x | x in s0.own && s0.own[x].Data? && s0.own[x].f == f ensures Block(s2.disk, x) == Block(s0.disk, x) {
      assert Owned(s1.own, x, s0.own[x]);
    }
  }

  // ---------- One store ----------

  /** Only block `x` has another content. */
  ghost predicate OneBlock(g: Geometry, s: State, s': State, x: int) {
    && s'.own == s.own && s'.table == s.table && s'.super == s.super
    && x in s.own && |Block(s'.disk, x)| == g.blockSize
    && (forall y | y != x :: Block(s'.disk, y) == Block(s.disk, y) && (y in s'.disk <==> y in s.disk))
  }

  /** The allocator's books do not depend on the contents of other blocks. */
  lemma BooksKept(g: Geometry, s: State, s': State, x: int)
    requires AllocOk(g, s) && OneBlock(g, s, s', x) && !Bookkeeping(s.own[x])
    ensures AllocOk(g, s')
  {
    forall i: nat | i < g.groups ensures GroupOk(g, s', i) {
      assert GroupOk(g, s, i);
    }
    forall j | 0 <= j < g.span ensures Block(s'.disk, PartBlock(g, j)) == Part(g, s'.table, j) {
      assert Owned(s.own, PartBlock(g, j), Descriptors(j));
    }
  }

  lemma InodesElsewhere(g: Geometry, s: State, s': State, x: int, h: int)
    requires Placed(g, s, h) && OneBlock(g, s, s', x) && !s.own[x].Inodes?
    ensures SameInode(g, s, s', h)
  {
  }

  /** A store into a block of `f`. */
  lemma FileBlockStored(g: Geometry, s: State, s': State, files: set<int>, f: int, x: int)
    requires Others(g, s, files, f) && OneBlock(g, s, s', x)
    requires !Bookkeeping(s.own[x]) && !s.own[x].Inodes? && !Foreign(s.own[x], f)
    ensures AllocOk(g, s') && Elsewhere(g, s, s', files, f) && Others(g, s', files, f)
    ensures f in files ==> SameInode(g, s, s', f)
  {
    BooksKept(g, s, s', x);
    forall h | h in files ensures SameInode(g, s, s', h) {
      InodesElsewhere(g, s, s', x, h);
    }
    OthersKept(g, s, s', files, f);
  }

  /** Writing the inode of `f`. */
  lemma InodeStored(g: Geometry, s: State, files: set<int>, f: int, n: seq<Byte>)
    requires Others(g, s, files, f) && f in files && |n| == g.inodeSize
    ensures Placed(g, s, f) && |Block(s.disk, InodeBlock(g, s.table, f))| == g.blockSize
    ensures var s' := WithInode(g, s, f, n);
      && Others(g, s', files, f) && Elsewhere(g, s, s', files, f) && SameData(s, s', f) && TablesSame(s, s', f)
      && Placed(g, s', f) && InodeAt(g, s', f) == n
  {
    InodeWritten(g, s, f, n, f);
    var s', x := WithInode(g, s, f, n), InodeBlock(g, s.table, f);
    InodeInside(g, f);
    assert OneBlock(g, s, s', x);
    BooksKept(g, s, s', x);
    forall h | h in files ensures Placed(g, s', h) && (h != f ==> SameInode(g, s, s', h)) {
      InodeWritten(g, s, f, n, h);
    }
    OthersKept(g, s, s', files, f);
  }

  /** An allocation leaves all files alone. */
  lemma AllocElsewhere(g: Geometry, s: State, s': State, files: set<int>, f: int, b: int, o: Owner)
    requires Others(g, s, files, f) && NewBlock(g, s, s', b, o)
    ensures Elsewhere(g, s, s', files, f) && Others(g, s', files, f) && SameData(s, s', f) && TablesSame(s, s', f)
    ensures f in files ==> SameInode(g, s, s', f)
  {
    forall h | h in files ensures SameInode(g, s, s', h) {
      AllocInode(g, s, s', b, o, h);
    }
    OthersKept(g, s, s', files, f);
  }

  lemma AllocInode(g: Geometry, s: State, s': State, b: int, o: Owner, h: int)
    requires NewBlock(g, s, s', b, o) && Placed(g, s, h)
    ensures SameInode(g, s, s', h)
  {
    assert InodesNo(s'.table, InodeGroup(g, h)) == InodesNo(s.table, InodeGroup(g, h));
  }
}
