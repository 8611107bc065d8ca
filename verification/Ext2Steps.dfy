/**
 The steps in which a block number is entered into the map of a file.
 */
module Ext2Steps {
  import opened Bytes
  import opened Ext2Bytes
  import opened Ext2Device
  import opened Ext2Disk
  import opened Ext2Map
  import opened Ext2Files
  import opened Ext2Frames

  /** Work on the map of `f`: nothing but tables of `f`, its inode and the allocator's books may have changed. */
  ghost predicate Progress(g: Geometry, s: State, s': State, files: set<int>, f: int, n: seq<Byte>, n': seq<Byte>) {
    && Others(g, s', files, f) && TablesOk(g, s', f, n')
    && Elsewhere(g, s, s', files, f) && SameData(s, s', f) && NewTables(s, s', f)
    && Word(n', SIZE_WORD) == Word(n, SIZE_WORD) && Word(n', SECTORS_WORD) == Word(n, SECTORS_WORD)
  }

  /** Only tables of `f` have come into use. */
  ghost predicate NewTables(s: State, s': State, f: int) {
    forall x | x in s'.own && x !in s.own :: IsTable(s'.own[x], f)
  }

  lemma NoProgress(g: Geometry, s: State, files: set<int>, f: int, n: seq<Byte>)
    requires Others(g, s, files, f) && TablesOk(g, s, f, n)
    ensures Progress(g, s, s, files, f, n, n) && SameMap(g, s.disk, n, s.disk, n)
  {
  }

  lemma ProgressTwice(g: Geometry, s0: State, s1: State, s2: State, files: set<int>, f: int, n0: seq<Byte>,
      n1: seq<Byte>, n2: seq<Byte>)
    requires Progress(g, s0, s1, files, f, n0, n1) && Progress(g, s1, s2, files, f, n1, n2)
    ensures Progress(g, s0, s2, files, f, n0, n2) && Others(g, s2, files, f) && TablesOk(g, s2, f, n2)
  {
    ElsewhereTwice(g, s0, s1, s2, files, f);
    SameDataTwice(s0, s1, s2, f);
    forall x | x in s2.own && x !in s0.own ensures IsTable(s2.own[x], f) {
      if x in s1.own {
        assert Owned(s2.own, x, s1.own[x]);
      }
    }
  }

  lemma SameMapTwice(g: Geometry, d0: Disk, n0: seq<Byte>, d1: Disk, n1: seq<Byte>, d2: Disk, n2: seq<Byte>)
    requires SameMap(g, d0, n0, d1, n1) && SameMap(g, d1, n1, d2, n2)
    ensures SameMap(g, d0, n0, d2, n2)
  {
    forall t | SlotOk(g, t) ensures At(d2, n2, t) == At(d0, n0, t) {
      assert At(d1, n1, t) == At(d0, n0, t);
    }
  }

  /** A block for a table of `f` is allocated. */
  lemma TableAllocated(g: Geometry, s: State, s': State, files: set<int>, f: int, n: seq<Byte>, b: int, o: Owner)
    requires Others(g, s, files, f) && TablesOk(g, s, f, n) && NewBlock(g, s, s', b, o) && IsTable(o, f)
    ensures Progress(g, s, s', files, f, n, n) && SameMap(g, s.disk, n, s'.disk, n)
    ensures Others(g, s', files, f) && TablesOk(g, s', f, n)
    ensures forall row: nat | row < PerBlock(g) :: InnerTable(s'.disk, n, row) == InnerTable(s.disk, n, row)
  {
    AllocElsewhere(g, s, s', files, f, b, o);
    MapFrame(g, s, s', f, n);
  }

  /** The inode of `f` is written, perhaps with a new pointer. */
  lemma PointerWritten(g: Geometry, s: State, files: set<int>, f: int, n: seq<Byte>)
    requires Others(g, s, files, f) && TablesOk(g, s, f, n) && f in files
    ensures Placed(g, s, f) && |Block(s.disk, InodeBlock(g, s.table, f))| == g.blockSize
    ensures Progress(g, s, WithInode(g, s, f, n), files, f, n, n) &&
      SameMap(g, s.disk, n, WithInode(g, s, f, n).disk, n)
    ensures InodeAt(g, WithInode(g, s, f, n), f) == n
  {
    InodeStored(g, s, files, f, n);
    MapFrame(g, s, WithInode(g, s, f, n), f, n);
  }

  /** The inode in memory has got a pointer to a table. */
  lemma PointerSet(g: Geometry, s: State, files: set<int>, f: int, n: seq<Byte>, j: nat, b: int)
    requires Others(g, s, files, f) && j < 15 && 128 <= |n| && 0 <= b < WORD_LIMIT && TablesOk(g, s, f, SetPtr(n, j, b))
    ensures Progress(g, s, s, files, f, n, SetPtr(n, j, b))
  {
    PtrStored(n, j, b, j);
  }

  /** A word of a table of `f` is stored. */
  lemma TableStored(g: Geometry, s: State, files: set<int>, f: int, n: seq<Byte>, x: int, k: nat, v: int)
    requires Others(g, s, files, f) && x in s.own && IsTable(s.own[x], f)
    requires 4 * k + 4 <= |Block(s.disk, x)| && 0 <= v < WORD_LIMIT && TablesOk(g, Stored(s, x, k, v), f, n)
    ensures Progress(g, s, Stored(s, x, k, v), files, f, n, n)
  {
    assert OneBlock(g, s, Stored(s, x, k, v), x);
    FileBlockStored(g, s, Stored(s, x, k, v), files, f, x);
  }

  /** How many tables are missing for a block to be entered. */
  function TablesNeeded(g: Geometry, disk: Disk, n: seq<Byte>, i: nat): nat
    requires GeometryOk(g)
  {
    match SlotOf(g, i)
    case Direct(_) => 0
    case InSingle(_) => if Ptr(n, DIRECT_BLOCKS) == 0 then 1 else 0
    case InDouble(row, _) => if Ptr(n, DIRECT_BLOCKS + 1) == 0 then 2 else if InnerTable(disk, n, row) == 0 then 1
      else 0
  }

  /** The map after block `t` has been entered: `v` there, everything else as before. */
  ghost predicate Entered(g: Geometry, disk: Disk, n: seq<Byte>, disk': Disk, n': seq<Byte>, t: Slot, v: int) {
    At(disk', n', t) == v && forall u | SlotOk(g, u) && u != t :: At(disk', n', u) == At(disk, n, u)
  }

  lemma EnteredAfter(g: Geometry, d0: Disk, n0: seq<Byte>, d1: Disk, n1: seq<Byte>, d2: Disk, n2: seq<Byte>, t: Slot,
      v: int)
    requires SameMap(g, d0, n0, d1, n1) && Entered(g, d1, n1, d2, n2, t, v)
    ensures Entered(g, d0, n0, d2, n2, t, v)
  {
    forall u | SlotOk(g, u) && u != t ensures At(d2, n2, u) == At(d0, n0, u) {
      assert At(d1, n1, u) == At(d0, n0, u);
    }
  }
}
