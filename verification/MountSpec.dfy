/**
 The tree of mount points (src/vfs.cpp:59-141 and 540-581) as a map from paths to files.
 */
module MountSpec {
  import opened Paths
  import opened TreeSpec
  import opened ProcessTree

  /** The entries: what the nodes are called, and what is mounted at them; 0 is no file. */
  datatype Entries = Entries(name: map<int, Name>, file: map<int, int>)

  function NameOf(e: Entries, n: int): Name {
    if n in e.name then e.name[n] else []
  }

  function FileOf(e: Entries, n: int): int {
    if n in e.file then e.file[n] else 0
  }

  /** The first node of a list with a name, 0 if there is none. */
  function ChildNamed(e: Entries, l: seq<int>, x: Name): int {
    if l == [] then 0 else if NameOf(e, l[0]) == x then l[0] else ChildNamed(e, l[1..], x)
  }

  /** Children of a node have different names. */
  ghost predicate NamesDiffer(t: Tree, e: Entries, n: int) {
    forall i, j | 0 <= i < j < |Kids(t, n)| :: NameOf(e, Kids(t, n)[i]) != NameOf(e, Kids(t, n)[j])
  }

  ghost predicate MountsOk(t: Tree, e: Entries, rank: map<int, int>, bound: int) {
    && TreeOk(t, rank, bound) && e.name.Keys == t.kids.Keys && e.file.Keys == t.kids.Keys
    && forall n | n in t.kids :: NamesDiffer(t, e, n)
  }

  /** Where a path leads, 0 if nowhere. */
  function Walk(t: Tree, e: Entries, n: int, path: seq<Name>): int
    decreases |path|
  {
    if path == [] || n == 0 then n else Walk(t, e, ChildNamed(e, Kids(t, n), path[0]), path[1..])
  }

  lemma RootWalk(t: Tree, e: Entries)
    ensures Walk(t, e, t.root, []) == t.root
  {
  }

  /** What is mounted at a path. */
  function Mounted(t: Tree, e: Entries, path: seq<Name>): int {
    FileOf(e, Walk(t, e, t.root, path))
  }

  lemma {:induction false} ChildNamedIs(e: Entries, l: seq<int>, x: Name)
    requires 0 !in l
    ensures var c := ChildNamed(e, l, x);
      if c == 0 then forall i | 0 <= i < |l| :: NameOf(e, l[i]) != x else c in l && NameOf(e, c) == x
  {
    if l != [] && NameOf(e, l[0]) != x {
      ChildNamedIs(e, l[1..], x);
    }
  }

  lemma {:induction false} ChildNamedAppend(e: Entries, l: seq<int>, c: int, x: Name)
    requires 0 !in l
    ensures ChildNamed(e, l + [c], x) == if ChildNamed(e, l, x) != 0 then ChildNamed(e, l, x)
      else if NameOf(e, c) == x then c else 0
  {
    if l == [] {
      assert l + [c] == [c];
      assert [c][1..] == [];
    } else {
      assert (l + [c])[1..] == l[1..] + [c];
      ChildNamedAppend(e, l[1..], c, x);
    }
  }

  lemma {:induction false} ChildNamedSame(e: Entries, e': Entries, l: seq<int>, x: Name)
    requires forall n | n in l :: NameOf(e', n) == NameOf(e, n)
    ensures ChildNamed(e', l, x) == ChildNamed(e, l, x)
  {
    if l != [] {
      ChildNamedSame(e, e', l[1..], x);
    }
  }

  lemma NoZero(t: Tree, e: Entries, rank: map<int, int>, bound: int)
    requires MountsOk(t, e, rank, bound)
    ensures 0 !in t.kids && t.root in t.kids && e.file.Keys == t.kids.Keys
  {
  }

  /** The last step of a walk. */
  lemma {:induction false} WalkOn(t: Tree, e: Entries, n: int, path: seq<Name>, x: Name)
    ensures Walk(t, e, n, path + [x]) == if Walk(t, e, n, path) == 0 then 0
      else ChildNamed(e, Kids(t, Walk(t, e, n, path)), x)
    decreases |path|
  {
    if n == 0 {
    } else if path == [] {
      assert path + [x] == [x];
      assert [x][1..] == [];
    } else {
      assert (path + [x])[1..] == path[1..] + [x];
      WalkOn(t, e, ChildNamed(e, Kids(t, n), path[0]), path[1..], x);
    }
  }

  /** The child a walk takes. */
  lemma StepIs(t: Tree, e: Entries, rank: map<int, int>, bound: int, m: int, x: Name)
    requires MountsOk(t, e, rank, bound) && m in t.kids
    ensures var c := ChildNamed(e, Kids(t, m), x);
      c != 0 ==> c in t.kids && c in Kids(t, m) && NameOf(e, c) == x && Parent(t, c) == m && c != t.root
    ensures 0 !in Kids(t, m)
  {
    NodeFacts(t, rank, bound, m);
    ChildNamedIs(e, Kids(t, m), x);
  }

  lemma {:induction false} WalkIsNode(t: Tree, e: Entries, rank: map<int, int>, bound: int, path: seq<Name>)
    requires MountsOk(t, e, rank, bound)
    ensures Walk(t, e, t.root, path) == 0 || Walk(t, e, t.root, path) in t.kids
    ensures path != [] ==> Walk(t, e, t.root, path) != t.root
    decreases |path|
  {
    if path != [] {
      var front, x := path[..|path| - 1], path[|path| - 1];
      assert path == front + [x];
      WalkIsNode(t, e, rank, bound, front);
      WalkOn(t, e, t.root, front, x);
      if Walk(t, e, t.root, front) != 0 {
        StepIs(t, e, rank, bound, Walk(t, e, t.root, front), x);
      }
    }
  }

  /** Where a walk ends tells where it came from. */
  lemma WalkCameFrom(t: Tree, e: Entries, rank: map<int, int>, bound: int, p: seq<Name>)
    requires MountsOk(t, e, rank, bound) && p != [] && Walk(t, e, t.root, p) != 0
    ensures var n := Walk(t, e, t.root, p);
      n != t.root && Walk(t, e, t.root, p[..|p| - 1]) == Parent(t, n) != 0 && NameOf(e, n) == p[|p| - 1]
  {
    hide MountsOk, ChildNamed, Kids, Parent, NameOf;
    NoZero(t, e, rank, bound);
    var p0, x := p[..|p| - 1], p[|p| - 1];
    assert p == p0 + [x];
    WalkOn(t, e, t.root, p0, x);
    WalkIsNode(t, e, rank, bound, p0);
    StepIs(t, e, rank, bound, Walk(t, e, t.root, p0), x);
  }

  /** Different paths lead to different nodes. */
  lemma {:induction false} WalkIsInjective(t: Tree, e: Entries, rank: map<int, int>, bound: int, p: seq<Name>,
      q: seq<Name>)
    requires MountsOk(t, e, rank, bound) && Walk(t, e, t.root, p) == Walk(t, e, t.root, q) != 0
    ensures p == q
    decreases |p|
  {
    hide MountsOk, Parent, NameOf;
    if p == [] {
      if q != [] {
        WalkCameFrom(t, e, rank, bound, q);
      }
    } else {
      WalkCameFrom(t, e, rank, bound, p);
      if q != [] {
        WalkCameFrom(t, e, rank, bound, q);
        WalkIsInjective(t, e, rank, bound, p[..|p| - 1], q[..|q| - 1]);
        assert p == p[..|p| - 1] + [p[|p| - 1]] && q == q[..|q| - 1] + [q[|q| - 1]];
      }
    }
  }

  // ---------- A new directory ----------

  function WithEntry(e: Entries, id: int, x: Name): Entries {
    Entries(e.name[id := x], e.file[id := 0])
  }

  /** A new node adds one path and mounts nothing. */
  lemma {:induction false} DirectoryWalk(t: Tree, e: Entries, rank: map<int, int>, bound: int, m: int, x: Name, id: int,
      q: seq<Name>)
    requires MountsOk(t, e, rank, bound) && m in t.kids && id !in t.kids && id != 0 && ChildNamed(e, Kids(t, m), x) == 0
    ensures Walk(Inserted(t, m, id), WithEntry(e, id, x), t.root, q) ==
      if q != [] && Walk(t, e, t.root, q[..|q| - 1]) == m && q[|q| - 1] == x then id else Walk(t, e, t.root, q)
    decreases |q|
  {
    hide MountsOk, Inserted, WithEntry, ChildNamed;
    NoZero(t, e, rank, bound);
    var t', e' := Inserted(t, m, id), WithEntry(e, id, x);
    if q != [] {
      var q0, y := q[..|q| - 1], q[|q| - 1];
      assert q == q0 + [y];
      DirectoryWalk(t, e, rank, bound, m, x, id, q0);
      WalkOn(t, e, t.root, q0, y);
      WalkOn(t', e', t.root, q0, y);
      WalkIsNode(t, e, rank, bound, q0);
      var n := Walk(t, e, t.root, q0);
      if Walk(t', e', t.root, q0) == id {
        NoPathYet(t, e, q0, m, x);
        NewNodeIsLeaf(t, e, m, x, id, y);
      } else if n != 0 {
        DirectoryStep(t, e, rank, bound, m, x, id, n, y);
      }
    }
  }

  lemma NoPathYet(t: Tree, e: Entries, q: seq<Name>, m: int, x: Name)
    requires ChildNamed(e, Kids(t, m), x) == 0
    ensures q != [] && Walk(t, e, t.root, q[..|q| - 1]) == m && q[|q| - 1] == x ==> Walk(t, e, t.root, q) == 0
  {
    if q != [] {
      WalkOn(t, e, t.root, q[..|q| - 1], q[|q| - 1]);
      assert q == q[..|q| - 1] + [q[|q| - 1]];
    }
  }

  lemma NewNodeIsLeaf(t: Tree, e: Entries, m: int, x: Name, id: int, y: Name)
    requires m in t.kids && id !in t.kids
    ensures ChildNamed(WithEntry(e, id, x), Kids(Inserted(t, m, id), id), y) == 0
  {
  }

  /** The steps from the nodes that were there. */
  lemma DirectoryStep(t: Tree, e: Entries, rank: map<int, int>, bound: int, m: int, x: Name, id: int, n: int, y: Name)
    requires MountsOk(t, e, rank, bound) && m in t.kids && n in t.kids && id !in t.kids && id != 0 &&
      ChildNamed(e, Kids(t, m), x) == 0
    ensures ChildNamed(WithEntry(e, id, x), Kids(Inserted(t, m, id), n), y) ==
      if n == m && y == x then id else ChildNamed(e, Kids(t, n), y)
  {
    var e' := WithEntry(e, id, x);
    StepIs(t, e, rank, bound, n, y);
    NodeFacts(t, rank, bound, n);
    forall c | c in Kids(t, n) ensures NameOf(e', c) == NameOf(e, c) {
    }
    ChildNamedSame(e, e', Kids(t, n), y);
    KidsInserted(t, m, id, n);
    if n == m {
      ChildNamedAppend(e', Kids(t, m), id, y);
    }
  }

  lemma DirectoryOk(t: Tree, e: Entries, rank: map<int, int>, rank': map<int, int>, bound: int, m: int, x: Name,
      id: int)
    requires MountsOk(t, e, rank, bound) && m in t.kids && id !in t.kids && id != 0 && ChildNamed(e, Kids(t, m), x) == 0
    requires m in rank && rank' == rank[id := rank[m] + 1]
    ensures MountsOk(Inserted(t, m, id), WithEntry(e, id, x), rank', bound + 1)
  {
    var t', e' := Inserted(t, m, id), WithEntry(e, id, x);
    InsertedOk(t, rank, rank', bound, m, id);
    forall n | n in t'.kids ensures NamesDiffer(t', e', n) {
      if n != id {
        NamesStillDiffer(t, e, rank, bound, m, x, id, n);
      }
    }
  }

  lemma NamesStillDiffer(t: Tree, e: Entries, rank: map<int, int>, bound: int, m: int, x: Name, id: int, n: int)
    requires MountsOk(t, e, rank, bound) && m in t.kids && n in t.kids && id !in t.kids && id != 0 &&
      ChildNamed(e, Kids(t, m), x) == 0
    ensures NamesDiffer(Inserted(t, m, id), WithEntry(e, id, x), n)
  {
    assert NamesDiffer(t, e, n);
    NodeFacts(t, rank, bound, n);
    StepIs(t, e, rank, bound, m, x);
    ChildNamedIs(e, Kids(t, m), x);
    KidsInserted(t, m, id, n);
  }

  /** Nothing is mounted or unmounted by a new directory. */
  lemma DirectoryMounts(t: Tree, e: Entries, rank: map<int, int>, bound: int, m: int, x: Name, id: int, q: seq<Name>)
    requires MountsOk(t, e, rank, bound) && m in t.kids && id !in t.kids && id != 0 && ChildNamed(e, Kids(t, m), x) == 0
    ensures Mounted(Inserted(t, m, id), WithEntry(e, id, x), q) == Mounted(t, e, q)
  {
    hide MountsOk, Inserted, Walk, ChildNamed;
    DirectoryWalk(t, e, rank, bound, m, x, id, q);
    WalkIsNode(t, e, rank, bound, q);
    NoPathYet(t, e, q, m, x);
    NoZero(t, e, rank, bound);
    RootIsNode(t, m, id);
  }

  lemma RootIsNode(t: Tree, m: int, id: int)
    ensures Inserted(t, m, id).root == t.root
  {
  }

  /** Setting the file of a node changes what is mounted at its path, and only there. */
  lemma FileSet(t: Tree, e: Entries, rank: map<int, int>, bound: int, p: seq<Name>, file: int, q: seq<Name>)
    requires MountsOk(t, e, rank, bound) && Walk(t, e, t.root, p) != 0
    ensures var n := Walk(t, e, t.root, p); var e' := e.(file := e.file[n := file]);
      && n in t.kids && MountsOk(t, e', rank, bound)
      && Mounted(t, e', q) == (if q == p then file else Mounted(t, e, q)) &&
        Walk(t, e', t.root, q) == Walk(t, e, t.root, q)
  {
    var n := Walk(t, e, t.root, p);
    var e' := e.(file := e.file[n := file]);
    WalkIsNode(t, e, rank, bound, p);
    SameNames(t, e, e', t.root, q);
    forall m | m in t.kids ensures NamesDiffer(t, e', m) {
      assert NamesDiffer(t, e, m);
    }
    if Walk(t, e, t.root, q) == n {
      WalkIsInjective(t, e, rank, bound, p, q);
    }
  }

  lemma {:induction false} SameNames(t: Tree, e: Entries, e': Entries, n: int, q: seq<Name>)
    requires e'.name == e.name
    ensures Walk(t, e', n, q) == Walk(t, e, n, q)
    decreases |q|
  {
    if q != [] && n != 0 {
      ChildNamedSame(e, e', Kids(t, n), q[0]);
      SameNames(t, e, e', ChildNamed(e, Kids(t, n), q[0]), q[1..]);
    }
  }
}
