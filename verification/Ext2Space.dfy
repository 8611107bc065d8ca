/**
 The blocks a file needs to grow: its data, and the tables of its map that are not there yet
 (src/modules/fs/ext2.cpp:789-801 and 874-980).
 */
module Ext2Space {
  import opened Bytes
  import opened Ext2Device
  import opened Ext2Disk
  import opened Ext2Map
  import opened Ext2Frames
  import opened Ext2Steps

  /** The tables of a map: the single one, the one of tables, and its rows. */
  datatype Table = SingleTable | DoubleTable | RowTable(row: nat)

  predicate TableOk(g: Geometry, t: Table) {
    t.RowTable? ==> t.row < PerBlock(g)
  }

  predicate Has(disk: Disk, n: seq<Byte>, t: Table) {
    match t
    case SingleTable => Ptr(n, DIRECT_BLOCKS) != 0
    case DoubleTable => Ptr(n, DIRECT_BLOCKS + 1) != 0
    case RowTable(row) => InnerTable(disk, n, row) != 0
  }

  /** The tables on the way to block `i`. */
  function Path(g: Geometry, i: nat): set<Table>
    requires GeometryOk(g)
  {
    match SlotOf(g, i)
    case Direct(_) => {}
    case InSingle(_) => {SingleTable}
    case InDouble(row, _) => {DoubleTable, RowTable(row)}
  }

  function Absent(g: Geometry, disk: Disk, n: seq<Byte>, i: nat): set<Table>
    requires GeometryOk(g)
  {
    set t | t in Path(g, i) && !Has(disk, n, t)
  }

  /** The tables that the blocks from `from` up to `to` need and that are not there. */
  function Missing(g: Geometry, disk: Disk, n: seq<Byte>, from: nat, to: nat): set<Table>
    requires GeometryOk(g)
    decreases if from < to then to - from else 0
  {
    if from >= to then {} else Absent(g, disk, n, from) + Missing(g, disk, n, from + 1, to)
  }

  /** How many free blocks it takes to grow from `from` to `to` blocks. */
  function Space(g: Geometry, disk: Disk, n: seq<Byte>, from: nat, to: nat): nat
    requires GeometryOk(g)
  {
    if from >= to then 0 else to - from + |Missing(g, disk, n, from, to)|
  }

  /** Exactly the tables `ts` have come to the map. */
  ghost predicate Attached(g: Geometry, d: Disk, n: seq<Byte>, d': Disk, n': seq<Byte>, ts: set<Table>) {
    forall t | TableOk(g, t) :: Has(d', n', t) <==> Has(d, n, t) || t in ts
  }

  lemma AttachedTwice(g: Geometry, d0: Disk, n0: seq<Byte>, d1: Disk, n1: seq<Byte>, d2: Disk, n2: seq<Byte>,
      ts: set<Table>, us: set<Table>)
    requires Attached(g, d0, n0, d1, n1, ts) && Attached(g, d1, n1, d2, n2, us)
    ensures Attached(g, d0, n0, d2, n2, ts + us)
  {
    forall t | TableOk(g, t) ensures Has(d2, n2, t) <==> Has(d0, n0, t) || t in ts + us {
      assert Has(d1, n1, t) <==> Has(d0, n0, t) || t in ts;
    }
  }

  lemma NoneAttached(g: Geometry, d: Disk, n: seq<Byte>, d': Disk, n': seq<Byte>)
    requires Ptr(n', DIRECT_BLOCKS) == Ptr(n, DIRECT_BLOCKS) && Ptr(n', DIRECT_BLOCKS + 1) == Ptr(n, DIRECT_BLOCKS + 1)
    requires forall row: nat | row < PerBlock(g) :: InnerTable(d', n', row) == InnerTable(d, n, row)
    ensures Attached(g, d, n, d', n', {})
  {
  }

  /** As many tables are absent on the way to a block as have to be allocated for it. */
  lemma AbsentIsNeeded(g: Geometry, disk: Disk, n: seq<Byte>, i: nat)
    requires GeometryOk(g)
    ensures |Absent(g, disk, n, i)| == TablesNeeded(g, disk, n, i)
  {
    match SlotOf(g, i)
    case Direct(_) =>
      assert Absent(g, disk, n, i) == {};
    case InSingle(_) =>
      assert Absent(g, disk, n, i) == if Has(disk, n, SingleTable) then {} else {SingleTable};
    case InDouble(row, _) =>
      var top := if Has(disk, n, DoubleTable) then {} else {DoubleTable};
      var inner := if Has(disk, n, RowTable(row)) then {} else {RowTable(row)};
      assert Absent(g, disk, n, i) == top + inner;
  }

  /** Some of the blocks needs the table. */
  ghost predicate OnTheWay(g: Geometry, from: nat, to: nat, t: Table)
    requires GeometryOk(g)
  {
    exists i: nat | from <= i < to :: t in Path(g, i)
  }

  lemma {:induction false} MissingIs(g: Geometry, disk: Disk, n: seq<Byte>, from: nat, to: nat, t: Table)
    requires GeometryOk(g)
    ensures t in Missing(g, disk, n, from, to) <==> !Has(disk, n, t) && OnTheWay(g, from, to, t)
    decreases if from < to then to - from else 0
  {
    if from < to {
      MissingIs(g, disk, n, from + 1, to, t);
      if t in Absent(g, disk, n, from) {
        assert t in Path(g, from);
      }
    }
  }

  lemma PathOk(g: Geometry, i: nat)
    requires GeometryOk(g) && i < MaxBlocks(g)
    ensures forall t | t in Path(g, i) :: TableOk(g, t)
  {
    SlotsDiffer(g, i, i);
  }

  lemma SubsetIsSmaller<T>(a: set<T>, b: set<T>)
    requires a <= b
    ensures |a| <= |b|
  {
    assert b == a + (b - a);
  }

  /** A longer file needs more. */
  lemma SpaceGrows(g: Geometry, disk: Disk, n: seq<Byte>, from: nat, mid: nat, to: nat)
    requires GeometryOk(g) && mid <= to
    ensures Space(g, disk, n, from, mid) <= Space(g, disk, n, from, to)
    ensures from <= mid < to ==> Space(g, disk, n, from, mid) < Space(g, disk, n, from, to)
  {
    forall t | t in Missing(g, disk, n, from, mid) ensures t in Missing(g, disk, n, from, to) {
      MissingIs(g, disk, n, from, mid, t);
      MissingIs(g, disk, n, from, to, t);
    }
    SubsetIsSmaller(Missing(g, disk, n, from, mid), Missing(g, disk, n, from, to));
  }

  /** One block. */
  lemma SpaceOfOne(g: Geometry, disk: Disk, n: seq<Byte>, i: nat)
    requires GeometryOk(g)
    ensures Space(g, disk, n, i, i) == 0 && Space(g, disk, n, i, i + 1) == 1 + TablesNeeded(g, disk, n, i)
  {
    AbsentIsNeeded(g, disk, n, i);
    assert Missing(g, disk, n, i, i + 1) == Absent(g, disk, n, i);
  }

  /** A block with its tables has come to the file: that much less is needed for the rest. */
  lemma SpaceStep(g: Geometry, d: Disk, n: seq<Byte>, d': Disk, n': seq<Byte>, i: nat, to: nat)
    requires GeometryOk(g) && i < to <= MaxBlocks(g) && Attached(g, d, n, d', n', Path(g, i))
    ensures Space(g, d, n, i, to) == 1 + TablesNeeded(g, d, n, i) + Space(g, d', n', i + 1, to)
  {
    var all, now, rest := Missing(g, d, n, i, to), Absent(g, d, n, i), Missing(g, d', n', i + 1, to);
    forall t ensures t in all <==> t in now + rest && !(t in now && t in rest) {
      MissingStep(g, d, n, d', n', i, to, t);
    }
    forall t ensures !(t in now && t in rest) {
      MissingStep(g, d, n, d', n', i, to, t);
    }
    assert all == now + rest && now !! rest;
    assert |now + rest| == |now| + |rest|;
    AbsentIsNeeded(g, d, n, i);
  }

  lemma MissingStep(g: Geometry, d: Disk, n: seq<Byte>, d': Disk, n': seq<Byte>, i: nat, to: nat, t: Table)
    requires GeometryOk(g) && i < to <= MaxBlocks(g) && Attached(g, d, n, d', n', Path(g, i))
    ensures t in Missing(g, d, n, i, to) <==> t in Absent(g, d, n, i) || t in Missing(g, d', n', i + 1, to)
    ensures !(t in Absent(g, d, n, i) && t in Missing(g, d', n', i + 1, to))
  {
    MissingIs(g, d, n, i, to, t);
    MissingIs(g, d', n', i + 1, to, t);
    PathOk(g, i);
    if k: nat :| i <= k < to && t in Path(g, k) {
      PathOk(g, k);
      assert k > i ==> i + 1 <= k;
      assert Has(d', n', t) <==> Has(d, n, t) || t in Path(g, i);
    }
  }

  /** The need depends on which tables there are, and on nothing else. */
  lemma {:induction false} SameSpace(g: Geometry, d: Disk, n: seq<Byte>, d': Disk, n': seq<Byte>, from: nat, to: nat)
    requires GeometryOk(g) && to <= MaxBlocks(g) && Attached(g, d, n, d', n', {})
    ensures Space(g, d', n', from, to) == Space(g, d, n, from, to)
    ensures Missing(g, d', n', from, to) == Missing(g, d, n, from, to)
    decreases if from < to then to - from else 0
  {
    hide Attached, Absent;
    if from < to {
      SameSpace(g, d, n, d', n', from + 1, to);
      SameAbsent(g, d, n, d', n', from);
    }
  }

  lemma SameAbsent(g: Geometry, d: Disk, n: seq<Byte>, d': Disk, n': seq<Byte>, i: nat)
    requires GeometryOk(g) && i < MaxBlocks(g) && Attached(g, d, n, d', n', {})
    ensures Absent(g, d', n', i) == Absent(g, d, n, i)
  {
    PathOk(g, i);
  }

  // ---------- Free blocks and space ----------

  /** What has gone from the free blocks is what the file needs less, whatever length it is to get. */
  ghost predicate SpaceSpent(g: Geometry, s: State, n: seq<Byte>, s': State, n': seq<Byte>)
    requires GeometryOk(g) && 32 * g.groups <= |s.table| && 32 * g.groups <= |s'.table|
  {
    && Count(g, n) <= Count(g, n')
    && forall to: nat | Count(g, n') <= to <= MaxBlocks(g) ::
         SumFree(s'.table, g.groups) - Space(g, s'.disk, n', Count(g, n'), to)
           == SumFree(s.table, g.groups) - Space(g, s.disk, n, Count(g, n), to)
  }

  lemma SpentTwice(g: Geometry, s0: State, n0: seq<Byte>, s1: State, n1: seq<Byte>, s2: State, n2: seq<Byte>)
    requires GeometryOk(g) && 32 * g.groups <= |s0.table| && 32 * g.groups <= |s1.table| && 32 * g.groups <= |s2.table|
    requires SpaceSpent(g, s0, n0, s1, n1) && SpaceSpent(g, s1, n1, s2, n2)
    ensures SpaceSpent(g, s0, n0, s2, n2)
  {
  }

  lemma NothingSpent(g: Geometry, s: State, n: seq<Byte>, s': State, n': seq<Byte>)
    requires GeometryOk(g) && 32 * g.groups <= |s.table| && s'.table == s.table
    requires Count(g, n') == Count(g, n) && Attached(g, s.disk, n, s'.disk, n', {})
    ensures SpaceSpent(g, s, n, s', n')
  {
    forall to: nat | Count(g, n) <= to <= MaxBlocks(g)
      ensures Space(g, s'.disk, n', Count(g, n'), to) == Space(g, s.disk, n, Count(g, n), to)
    {
      SameSpace(g, s.disk, n, s'.disk, n', Count(g, n), to);
    }
  }

  /** A block has come to the file. */
  lemma OneSpent(g: Geometry, s: State, n: seq<Byte>, s': State, n': seq<Byte>)
    requires GeometryOk(g) && 32 * g.groups <= |s.table| && 32 * g.groups <= |s'.table|
    requires Count(g, n') == Count(g, n) + 1 && Attached(g, s.disk, n, s'.disk, n', Path(g, Count(g, n)))
    requires SumFree(s'.table, g.groups) == SumFree(s.table, g.groups) - 1 - TablesNeeded(g, s.disk, n, Count(g, n))
    ensures SpaceSpent(g, s, n, s', n')
  {
    forall to: nat | Count(g, n') <= to <= MaxBlocks(g)
      ensures Space(g, s.disk, n, Count(g, n), to)
        == 1 + TablesNeeded(g, s.disk, n, Count(g, n)) + Space(g, s'.disk, n', Count(g, n'), to)
    {
      SpaceStep(g, s.disk, n, s'.disk, n', Count(g, n), to);
    }
  }
}
