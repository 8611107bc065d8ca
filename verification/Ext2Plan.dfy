/**
 How much of a device several files will need: with so many free blocks none of them is ever
 refused one.
 */
module Ext2Plan {
  import opened Ext2Disk
  import opened Ext2Map
  import opened Ext2Files
  import opened Ext2Frames
  import opened Ext2Space

  /** The free blocks file `f` takes to get to its planned length. */
  ghost function FileSpace(g: Geometry, s: State, f: int, to: nat): nat
    requires GeometryOk(g) && Placed(g, s, f)
  {
    var n := InodeAt(g, s, f);
    Space(g, s.disk, n, Count(g, n), to)
  }

  /** The free blocks all of the files take to get to their planned lengths. */
  ghost function Planned(g: Geometry, s: State, order: seq<int>, plan: map<int, nat>): nat
    requires GeometryOk(g) && forall i | 0 <= i < |order| :: order[i] in plan && Placed(g, s, order[i])
  {
    if order == [] then 0 else FileSpace(g, s, order[0], plan[order[0]]) + Planned(g, s, order[1..], plan)
  }

  /** The files in some order, each once. */
  ghost predicate Enumerates(order: seq<int>, files: set<int>) {
    (forall f :: f in files <==> f in order) && forall i, j | 0 <= i < j < |order| :: order[i] != order[j]
  }

  /** Every file has a planned length that it has not exceeded, and there are enough free blocks for all. */
  ghost predicate Provided(g: Geometry, s: State, files: set<int>, order: seq<int>, plan: map<int, nat>) {
    && GeometryOk(g) && 32 * g.groups <= |s.table| && Enumerates(order, files)
    && (forall i | 0 <= i < |order| ::
          && order[i] in plan && Placed(g, s, order[i])
          && Count(g, InodeAt(g, s, order[i])) <= plan[order[i]] <= MaxBlocks(g))
    && Planned(g, s, order, plan) <= SumFree(s.table, g.groups)
  }

  /** An operation on `f` has taken what it needed from the free blocks, and left other files alone. */
  ghost predicate Spent(g: Geometry, s: State, s': State, files: set<int>, f: int, bound: nat) {
    && GeometryOk(g) && 32 * g.groups <= |s.table| && 32 * g.groups <= |s'.table|
    && Elsewhere(g, s, s', files, f) && Placed(g, s, f) && Placed(g, s', f)
    && SpaceSpent(g, s, InodeAt(g, s, f), s', InodeAt(g, s', f))
    && (Count(g, InodeAt(g, s', f)) <= bound || Count(g, InodeAt(g, s', f)) <= Count(g, InodeAt(g, s, f)))
  }

  /** Another file needs what it needed. */
  lemma OtherSpace(g: Geometry, s: State, s': State, files: set<int>, f: int, h: int, to: nat)
    requires GeometryOk(g) && Elsewhere(g, s, s', files, f) && h in files && h != f && OneFileOk(g, s, h)
    requires to <= MaxBlocks(g)
    ensures Placed(g, s', h) && InodeAt(g, s', h) == InodeAt(g, s, h) &&
      FileSpace(g, s', h, to) == FileSpace(g, s, h, to)
  {
    OneFileKept(g, s, s', files, f, h);
    var n := InodeAt(g, s, h);
    MapFrame(g, s, s', h, n);
    NoneAttached(g, s.disk, n, s'.disk, n);
    SameSpace(g, s.disk, n, s'.disk, n, Count(g, n), to);
  }

  /** One part is at most the sum. */
  lemma {:induction false} PartOfPlan(g: Geometry, s: State, order: seq<int>, plan: map<int, nat>, f: int)
    requires GeometryOk(g) && forall i | 0 <= i < |order| :: order[i] in plan && Placed(g, s, order[i])
    requires f in order
    ensures f in plan && Placed(g, s, f) && FileSpace(g, s, f, plan[f]) <= Planned(g, s, order, plan)
  {
    if order[0] != f {
      PartOfPlan(g, s, order[1..], plan, f);
    }
  }

  /** The sum changes as the part of the file does. */
  lemma {:induction false} PlanAfter(g: Geometry, s: State, s': State, files: set<int>, order: seq<int>,
      plan: map<int, nat>, f: int)
    requires GeometryOk(g) && Elsewhere(g, s, s', files, f) && Placed(g, s, f) && Placed(g, s', f) && f in plan
    requires forall i | 0 <= i < |order| ::
      && order[i] in plan && plan[order[i]] <= MaxBlocks(g) && order[i] in files
      && Placed(g, s, order[i]) && Placed(g, s', order[i]) && OneFileOk(g, s, order[i])
    requires forall i, j | 0 <= i < j < |order| :: order[i] != order[j]
    ensures Planned(g, s', order, plan) == Planned(g, s, order, plan) +
      if f in order then FileSpace(g, s', f, plan[f]) - FileSpace(g, s, f, plan[f]) else 0
  {
    hide Elsewhere, OneFileOk, FileSpace, InodeAt, Placed;
    if order != [] {
      PlanAfter(g, s, s', files, order[1..], plan, f);
      assert order == [order[0]] + order[1..];
      if order[0] != f {
        OtherSpace(g, s, s', files, f, order[0], plan[order[0]]);
      } else {
        assert f !in order[1..];
      }
    }
  }

  /** What was provided for the rest of a run still is. */
  lemma StillProvided(g: Geometry, s: State, s': State, files: set<int>, order: seq<int>, plan: map<int, nat>, f: int,
      bound: nat)
    requires FsOk(g, s, files) && Provided(g, s, files, order, plan) && f in files
    requires Spent(g, s, s', files, f, bound) && f in plan && bound <= plan[f]
    ensures Provided(g, s', files, order, plan)
  {
    hide SpaceSpent, FileSpace, OneFileOk, AllocOk, Space;
    forall i | 0 <= i < |order|
      ensures order[i] in files && OneFileOk(g, s, order[i]) && Placed(g, s', order[i])
      ensures Count(g, InodeAt(g, s', order[i])) <= plan[order[i]]
    {
      assert order[i] in order;
      if order[i] != f {
        OtherSpace(g, s, s', files, f, order[i], plan[order[i]]);
      }
    }
    PlanAfter(g, s, s', files, order, plan, f);
    SpentOfFile(g, s, s', files, f, bound, plan[f]);
  }

  lemma SpentOfFile(g: Geometry, s: State, s': State, files: set<int>, f: int, bound: nat, to: nat)
    requires Spent(g, s, s', files, f, bound) && Count(g, InodeAt(g, s', f)) <= to <= MaxBlocks(g)
    ensures SumFree(s'.table, g.groups) - FileSpace(g, s', f, to) == SumFree(s.table, g.groups) - FileSpace(g, s, f, to)
  {
  }

  /** There is enough for a write within the planned length. */
  lemma ProvidedFor(g: Geometry, s: State, files: set<int>, order: seq<int>, plan: map<int, nat>, f: int, reach: nat)
    requires Provided(g, s, files, order, plan) && f in files
    ensures f in plan && Placed(g, s, f)
    ensures reach <= plan[f] ==>
      reach <= MaxBlocks(g) && FileSpace(g, s, f, reach) <= SumFree(s.table, g.groups)
  {
    hide Placed, InodeAt, SumFree, Count;
    PartOfPlan(g, s, order, plan, f);
    if reach <= plan[f] {
      var n := InodeAt(g, s, f);
      SpaceGrows(g, s.disk, n, Count(g, n), reach, plan[f]);
      var i :| 0 <= i < |order| && order[i] == f;
    }
  }
}
