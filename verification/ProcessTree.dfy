/**
 The tree of processes (src/libc/data_struct/tree.cpp:57-156).
 */
module ProcessTree {
  import opened TreeSpec

  /** `tree_count_children`: children, and the children of children. */
  function CountChildren(t: Tree, n: int, ghost rank: map<int, int>, ghost bound: int): nat
    requires TreeOk(t, rank, bound) && n in t.kids
    decreases bound - (if n in rank then rank[n] else 0), 1, 0
  {
    assert KidsOk(t, n);
    |Kids(t, n)| + SumChildren(t, n, |Kids(t, n)|, rank, bound)
  }

  /** The counts of the first `k` children. */
  function SumChildren(t: Tree, n: int, k: nat, ghost rank: map<int, int>, ghost bound: int): nat
    requires TreeOk(t, rank, bound) && n in t.kids && k <= |Kids(t, n)|
    decreases bound - (if n in rank then rank[n] else 0), 0, k
  {
    if k == 0 then 0 else
      assert KidsOk(t, n);
      assert ParentOk(t, rank, bound, Kids(t, n)[k - 1]);
      SumChildren(t, n, k - 1, rank, bound) + CountChildren(t, Kids(t, n)[k - 1], rank, bound)
  }

  /** The count is the number of nodes below. */
  lemma {:induction false} CountIsDescendants(t: Tree, rank: map<int, int>, bound: int, n: int)
    requires TreeOk(t, rank, bound) && n in t.kids
    ensures CountChildren(t, n, rank, bound) == |Descendants(t, rank, bound, n)|
    decreases bound - (if n in rank then rank[n] else 0), 1, 0
  {
    AllThrough(t, rank, bound, n);
    SumIsThrough(t, rank, bound, n, |Kids(t, n)|);
  }

  lemma {:induction false} SumIsThrough(t: Tree, rank: map<int, int>, bound: int, n: int, k: nat)
    requires TreeOk(t, rank, bound) && n in t.kids && k <= |Kids(t, n)|
    ensures k + SumChildren(t, n, k, rank, bound) == |Through(t, rank, bound, n, k)|
    decreases bound - (if n in rank then rank[n] else 0), 0, k
  {
    hide TreeOk, Through, Descendants, KidsOk, ListOk, ParentOk, SumChildren, CountChildren, Kids;
    if k == 0 {
      AllThrough(t, rank, bound, n);
      SumStarts(t, rank, bound, n);
    } else {
      ChildRank(t, rank, bound, n, k - 1);
      SumUnfolds(t, rank, bound, n, k);
      SumIsThrough(t, rank, bound, n, k - 1);
      CountIsDescendants(t, rank, bound, Kids(t, n)[k - 1]);
      OneChildMore(t, rank, bound, n, k - 1);
    }
  }

  lemma ChildRank(t: Tree, rank: map<int, int>, bound: int, n: int, k: nat)
    requires TreeOk(t, rank, bound) && n in t.kids && k < |Kids(t, n)|
    ensures var c := Kids(t, n)[k]; c in t.kids && n in rank && c in rank && rank[n] < rank[c] < bound
  {
    NodeFacts(t, rank, bound, n);
    NodeFacts(t, rank, bound, Kids(t, n)[k]);
    ChildIs(t, n, k);
  }

  lemma SumStarts(t: Tree, rank: map<int, int>, bound: int, n: int)
    requires TreeOk(t, rank, bound) && n in t.kids
    ensures SumChildren(t, n, 0, rank, bound) == 0
  {
  }

  lemma SumUnfolds(t: Tree, rank: map<int, int>, bound: int, n: int, k: nat)
    requires TreeOk(t, rank, bound) && n in t.kids && 0 < k <= |Kids(t, n)|
    ensures Kids(t, n)[k - 1] in t.kids
    ensures SumChildren(t, n, k, rank, bound) ==
      SumChildren(t, n, k - 1, rank, bound) + CountChildren(t, Kids(t, n)[k - 1], rank, bound)
  {
    ChildRank(t, rank, bound, n, k - 1);
    hide TreeOk;
  }

  /** Counting from the root reaches every node but the root itself. */
  lemma CountFromRoot(t: Tree, rank: map<int, int>, bound: int)
    requires TreeOk(t, rank, bound)
    ensures CountChildren(t, t.root, rank, bound) + 1 == |t.kids|
  {
    CountIsDescendants(t, rank, bound, t.root);
    var d := Descendants(t, rank, bound, t.root);
    forall m | m in t.kids ensures m in d <==> m != t.root {
      if m != t.root {
        AllBelowRoot(t, rank, bound, m);
      }
    }
    assert t.kids.Keys == d + {t.root};
    assert |t.kids| == |t.kids.Keys|;
  }

  // ---------- Taking a node out of a list ----------

  /** A list without the element at `i`. */
  function Without(s: seq<int>, i: nat): seq<int>
    requires i < |s|
  {
    s[..i] + s[i + 1..]
  }

  /** `list_find` */
  method Find(s: seq<int>, x: int) returns (i: nat)
    requires x in s
    ensures i < |s| && s[i] == x && x !in s[..i]
  {
    i := 0;
    while s[i] != x
      invariant i < |s| && x !in s[..i] && x in s
      decreases |s| - i
    {
      assert s == s[..i + 1] + s[i + 1..];
      i := i + 1;
    }
  }

  /** The tree after `node` is gone and its children hang under `target`. */
  function Moved(t: Tree, node: int, i: nat, target: int): Tree
    requires i < |Kids(t, Parent(t, node))|
  {
    var parent := Parent(t, node);
    var k1 := t.kids[parent := Without(Kids(t, parent), i)];
    var k2 := k1[target := (if target in k1 then k1[target] else []) + Kids(t, node)];
    var p1 := AllReassigned(t.parent, Kids(t, node), target);
    Tree(t.root, k2 - {node}, p1 - {node})
  }

  /** The parent links when the given children have got a new parent. */
  function AllReassigned(parents: map<int, int>, children: seq<int>, target: int): map<int, int> {
    map m | m in parents :: if m in children then target else parents[m]
  }

  lemma OneReassigned(parents: map<int, int>, children: seq<int>, j: nat, target: int)
    requires j < |children| && children[j] in parents
    ensures AllReassigned(parents, children[..j + 1], target) ==
      AllReassigned(parents, children[..j], target)[children[j] := target]
  {
    assert children[..j + 1] == children[..j] + [children[j]];
  }

  /** The tree after `list_delete`, the loop, `list_merge` and `free`. */
  lemma StoresAreMove(t: Tree, node: int, i: nat, target: int)
    requires MoveOk(t, node, i, target)
    ensures var parent := Parent(t, node);
      var t1 := t.(kids := t.kids[parent := Without(Kids(t, parent), i)]);
      var t2 := t1.(parent := AllReassigned(t1.parent, Kids(t1, node), target));
      var t3 := t2.(kids := t2.kids[target := Kids(t2, target) + Kids(t1, node)]);
      t3.(kids := t3.kids - {node}, parent := t3.parent - {node}) == Moved(t, node, i, target)
  {
  }

  /** The removed node, its parent and the new parent of its children. */
  ghost predicate MoveOk(t: Tree, node: int, i: nat, target: int) {
    && node in t.kids && node != t.root && Parent(t, node) in t.kids && target in t.kids && t.parent.Keys == t.kids.Keys
    && i < |Kids(t, Parent(t, node))| && Kids(t, Parent(t, node))[i] == node
    && target != node && Parent(t, node) != node && (target == t.root || target == Parent(t, node))
  }

  lemma MoveIsOk(t: Tree, rank: map<int, int>, bound: int, node: int, i: nat, target: int)
    requires TreeOk(t, rank, bound) && node in t.kids && node != t.root
    requires i < |Kids(t, Parent(t, node))| && Kids(t, Parent(t, node))[i] == node
    requires target == t.root || target == Parent(t, node)
    ensures MoveOk(t, node, i, target)
  {
    NodeFacts(t, rank, bound, node);
  }

  /** The tree has become the other one by moving the children of `node`, which was child `i` of its parent. */
  predicate IsMove(t: Tree, t': Tree, node: int, i: nat, target: int) {
    i < |Kids(t, Parent(t, node))| && Kids(t, Parent(t, node))[i] == node && t' == Moved(t, node, i, target)
  }

  /** Who is whose child afterwards. */
  lemma MovedKids(t: Tree, node: int, i: nat, target: int, n: int)
    requires MoveOk(t, node, i, target) && n in t.kids && n != node
    ensures n in Moved(t, node, i, target).kids
    ensures Kids(Moved(t, node, i, target), n) ==
      (if n == Parent(t, node) then Without(Kids(t, n), i) else Kids(t, n)) + if n == target then Kids(t, node) else []
    ensures Parent(Moved(t, node, i, target), n) == if n in Kids(t, node) then target else Parent(t, n)
  {
  }

  /**
   The children lists afterwards: the removed node leaves its place and the others keep their
   order, its children come behind those of the target, and all other lists are as they were.
   */
  lemma MovedLists(t: Tree, node: int, i: nat, target: int, n: int)
    requires MoveOk(t, node, i, target) && n in t.kids && n != node
    ensures var t', own := Moved(t, node, i, target),
        if n == Parent(t, node) then Kids(t, n)[..i] + Kids(t, n)[i + 1..] else Kids(t, n);
      && t'.root == t.root && n in t'.kids && node !in t'.kids && node !in t'.parent
      && Kids(t', n) == (if n == target then own + Kids(t, node) else own)
      && Parent(t', n) == if n in Kids(t, node) then target else Parent(t, n)
    ensures n == Parent(t, node) ==> Kids(t, n) == Kids(t, n)[..i] + [node] + Kids(t, n)[i + 1..]
  {
    MovedKids(t, node, i, target, n);
  }

  lemma ListsJoin(t: Tree, n: int, a: seq<int>, b: seq<int>)
    requires ListOk(t, n, a) && ListOk(t, n, b) && forall x | x in b :: x !in a
    ensures ListOk(t, n, a + b)
  {
    forall i, j | 0 <= i < j < |a + b| ensures (a + b)[i] != (a + b)[j] {
      if i < |a| <= j {
        assert b[j - |a|] in b;
      }
    }
  }

  lemma ListWithout(t: Tree, n: int, l: seq<int>, i: nat)
    requires ListOk(t, n, l) && i < |l|
    ensures ListOk(t, n, Without(l, i)) && l[i] !in Without(l, i)
  {
  }

  /** What `n` keeps of its own children. */
  function Own(t: Tree, node: int, i: nat, n: int): seq<int>
    requires i < |Kids(t, Parent(t, node))|
  {
    if n == Parent(t, node) then Without(Kids(t, n), i) else Kids(t, n)
  }

  lemma OwnKids(t: Tree, node: int, i: nat, n: int)
    requires n in t.kids && n != node && KidsOk(t, n) && KidsOk(t, node)
    requires i < |Kids(t, Parent(t, node))| && Kids(t, Parent(t, node))[i] == node
    requires node in t.kids ==> node in Kids(t, Parent(t, node))
    ensures ListOk(t, n, Own(t, node, i, n)) && node !in Own(t, node, i, n)
    ensures forall x | x in Kids(t, node) :: x !in Own(t, node, i, n)
  {
    if n == Parent(t, node) {
      ListWithout(t, n, Kids(t, n), i);
    }
  }

  /** The nodes of a list get their new parent, or keep the old one. */
  lemma ListMoved(t: Tree, node: int, i: nat, target: int, n: int, l: seq<int>, n': int)
    requires MoveOk(t, node, i, target) && ListOk(t, n, l) && node !in l
    requires n' == (if l == [] then n' else if l[0] in Kids(t, node) then target else n)
    requires forall x | x in l :: x in Kids(t, node) <==> l[0] in Kids(t, node)
    ensures ListOk(Moved(t, node, i, target), n', l)
  {
    SameRoot(t, node, i, target);
    forall j | 0 <= j < |l|
      ensures l[j] in Moved(t, node, i, target).kids && l[j] != t.root && Parent(Moved(t, node, i, target), l[j]) == n'
    {
      assert l[j] in l;
      MovedKids(t, node, i, target, l[j]);
    }
  }

  lemma MovedKidsOk(t: Tree, rank: map<int, int>, bound: int, node: int, i: nat, target: int, n: int)
    requires TreeOk(t, rank, bound) && MoveOk(t, node, i, target) && n in t.kids && n != node
    ensures KidsOk(Moved(t, node, i, target), n)
  {
    NodeFacts(t, rank, bound, n);
    NodeFacts(t, rank, bound, node);
    hide TreeOk, ListOk, KidsOk, Moved, MoveOk, Kids, Parent;
    MovedKidsAt(t, node, i, target, n);
  }

  lemma MovedKidsAt(t: Tree, node: int, i: nat, target: int, n: int)
    requires MoveOk(t, node, i, target) && n in t.kids && n != node
    requires KidsOk(t, n) && KidsOk(t, node) && node !in Kids(t, node)
    ensures KidsOk(Moved(t, node, i, target), n)
  {
    SameRoot(t, node, i, target);
    hide Moved, MoveOk, Kids, Parent, Own, Without, ListOk;
    var own := Own(t, node, i, n);
    OwnKids(t, node, i, n);
    ListMoved(t, node, i, target, n, own, n);
    MovedKids(t, node, i, target, n);
    OwnIs(t, node, i, n);
    if n == target {
      ListMoved(t, node, i, target, node, Kids(t, node), n);
      ListsJoin(Moved(t, node, i, target), n, own, Kids(t, node));
    } else {
      assert own + [] == own;
    }
  }

  lemma OwnIs(t: Tree, node: int, i: nat, n: int)
    requires i < |Kids(t, Parent(t, node))|
    ensures Own(t, node, i, n) == if n == Parent(t, node) then Without(Kids(t, n), i) else Kids(t, n)
  {
  }

  lemma SameRoot(t: Tree, node: int, i: nat, target: int)
    requires MoveOk(t, node, i, target)
    ensures Moved(t, node, i, target).root == t.root && node in t.kids && target in t.kids && target != node &&
      Parent(t, node) != node
    ensures i < |Kids(t, Parent(t, node))| && Kids(t, Parent(t, node))[i] == node &&
      (target == t.root || target == Parent(t, node))
  {
  }

  lemma MovedParentOk(t: Tree, rank: map<int, int>, bound: int, node: int, i: nat, target: int, n: int)
    requires TreeOk(t, rank, bound) && MoveOk(t, node, i, target) && n in t.kids && n != node
    ensures ParentOk(Moved(t, node, i, target), rank, bound, n)
  {
    NodeFacts(t, rank, bound, n);
    NodeFacts(t, rank, bound, node);
    SameRoot(t, node, i, target);
    MovedKids(t, node, i, target, n);
    if n in Kids(t, node) {
      ChildMoved(t, rank, bound, node, i, target, n);
    } else if n != t.root {
      OtherStays(t, rank, bound, node, i, target, n);
    }
  }

  lemma ChildMoved(t: Tree, rank: map<int, int>, bound: int, node: int, i: nat, target: int, n: int)
    requires MoveOk(t, node, i, target) && n in Kids(t, node) && n in t.kids && n != node && n != t.root
    requires ParentOk(t, rank, bound, n) && ParentOk(t, rank, bound, node) && Parent(t, n) == node
    ensures ParentOk(Moved(t, node, i, target), rank, bound, n)
  {
    SameRoot(t, node, i, target);
    MovedKids(t, node, i, target, n);
    MovedKids(t, node, i, target, target);
    hide Moved, MoveOk, Kids, Parent, Without;
    assert n in Kids(Moved(t, node, i, target), target);
  }

  lemma OtherStays(t: Tree, rank: map<int, int>, bound: int, node: int, i: nat, target: int, n: int)
    requires MoveOk(t, node, i, target) && n !in Kids(t, node) && n in t.kids && n != node && n != t.root
    requires ParentOk(t, rank, bound, n)
    ensures ParentOk(Moved(t, node, i, target), rank, bound, n)
  {
    SameRoot(t, node, i, target);
    MovedKids(t, node, i, target, n);
    MovedKids(t, node, i, target, Parent(t, n));
    WithoutKeeps(Kids(t, Parent(t, n)), n, i, node, Parent(t, n) == Parent(t, node));
    hide Moved, MoveOk, Kids, Parent, Without;
    assert n in Kids(Moved(t, node, i, target), Parent(t, n));
  }

  lemma WithoutKeeps(l: seq<int>, x: int, i: nat, node: int, here: bool)
    requires x in l && x != node && (here ==> i < |l| && l[i] == node)
    ensures here ==> x in Without(l, i)
  {
    if here {
      var j :| 0 <= j < |l| && l[j] == x;
      assert Without(l, i)[if j < i then j else j - 1] == x;
    }
  }

  /** The tree stays a tree. */
  lemma MovedOk(t: Tree, rank: map<int, int>, bound: int, node: int, i: nat, target: int)
    requires TreeOk(t, rank, bound) && node in t.kids && node != t.root
    requires i < |Kids(t, Parent(t, node))| && Kids(t, Parent(t, node))[i] == node
    requires target == t.root || target == Parent(t, node)
    ensures TreeOk(Moved(t, node, i, target), rank, bound)
    ensures Moved(t, node, i, target).kids.Keys == t.kids.Keys - {node}
    ensures |Moved(t, node, i, target).kids| == |t.kids| - 1
  {
    var t' := Moved(t, node, i, target);
    MoveIsOk(t, rank, bound, node, i, target);
    assert t'.kids.Keys == t.kids.Keys - {node};
    assert |t'.kids| == |t'.kids.Keys| && |t.kids| == |t.kids.Keys|;
    forall n | n in t'.kids ensures KidsOk(t', n) && ParentOk(t', rank, bound, n) {
      MovedKidsOk(t, rank, bound, node, i, target, n);
      MovedParentOk(t, rank, bound, node, i, target, n);
    }
  }

  /**
   Subtrees stay intact: below a node that is neither above the removed one nor the new parent,
   there is what was there.
   */
  lemma {:induction false} SubtreeIntact(t: Tree, rank: map<int, int>, bound: int, node: int, i: nat, target: int,
      m: int, c: int)
    requires TreeOk(t, rank, bound) && node in t.kids && node != t.root
    requires i < |Kids(t, Parent(t, node))| && Kids(t, Parent(t, node))[i] == node
    requires target == t.root || target == Parent(t, node)
    requires TreeOk(Moved(t, node, i, target), rank, bound)
    requires m in t.kids && m != node && c in t.kids && c != node && c != target && c != t.root &&
      !Below(t, rank, bound, node, c)
    ensures m in Moved(t, node, i, target).kids
    ensures Below(Moved(t, node, i, target), rank, bound, m, c) <==> Below(t, rank, bound, m, c)
    decreases if m in rank then rank[m] else 0
  {
    var t' := Moved(t, node, i, target);
    MoveIsOk(t, rank, bound, node, i, target);
    MovedKids(t, node, i, target, m);
    assert ParentOk(t, rank, bound, m) && ParentOk(t', rank, bound, m) && ParentOk(t, rank, bound, node);
    if m != t.root {
      if m in Kids(t, node) {
        assert KidsOk(t, node);
        TargetIsAbove(t, rank, bound, node, target, c);
        assert ParentOk(t, rank, bound, target);
        SubtreeIntact(t, rank, bound, node, i, target, target, c);
      } else if Parent(t, m) != c {
        assert Parent(t, m) != node;
        assert ParentOk(t, rank, bound, Parent(t, m));
        SubtreeIntact(t, rank, bound, node, i, target, Parent(t, m), c);
      }
    }
  }

  /** What is not above the removed node is not above the new parent of its children either. */
  lemma TargetIsAbove(t: Tree, rank: map<int, int>, bound: int, node: int, target: int, c: int)
    requires TreeOk(t, rank, bound) && node in t.kids && node != t.root
    requires target == t.root || target == Parent(t, node)
    requires !Below(t, rank, bound, node, c)
    ensures target in t.kids && !Below(t, rank, bound, target, c)
  {
    assert ParentOk(t, rank, bound, node);
  }

  // ---------- A new child ----------

  function Inserted(t: Tree, parent: int, id: int): Tree {
    Tree(t.root, t.kids[parent := Kids(t, parent) + [id]][id := []], t.parent[id := parent])
  }

  lemma InsertedOk(t: Tree, rank: map<int, int>, rank': map<int, int>, bound: int, parent: int, id: int)
    requires TreeOk(t, rank, bound) && parent in t.kids && id !in t.kids && id != 0
    requires parent in rank && rank' == rank[id := rank[parent] + 1]
    ensures TreeOk(Inserted(t, parent, id), rank', bound + 1)
    ensures |Inserted(t, parent, id).kids| == |t.kids| + 1
  {
    var t' := Inserted(t, parent, id);
    hide KidsOk, ParentOk, Inserted;
    KeysInserted(t, parent, id);
    forall n | n in t'.kids ensures KidsOk(t', n) && ParentOk(t', rank', bound + 1, n) {
      if n == id {
        NewKid(t, rank, rank', bound, parent, id);
      } else {
        OldKidsOk(t, rank, bound, parent, id, n);
        OldParentOk(t, rank, rank', bound, parent, id, n);
      }
    }
  }

  lemma KeysInserted(t: Tree, parent: int, id: int)
    requires t.root in t.kids && 0 !in t.kids && t.parent.Keys == t.kids.Keys && parent in t.kids && id !in t.kids &&
      id != 0
    ensures var t' := Inserted(t, parent, id);
      t'.root == t.root && t'.kids.Keys == t'.parent.Keys == t.kids.Keys + {id} && |t'.kids| == |t.kids| + 1
  {
    var t' := Inserted(t, parent, id);
    assert t'.kids.Keys == t.kids.Keys + {id};
    assert |t'.kids| == |t'.kids.Keys| && |t.kids| == |t.kids.Keys|;
  }

  lemma ListOkEmpty(t: Tree, n: int)
    ensures ListOk(t, n, [])
  {
  }

  lemma NewKid(t: Tree, rank: map<int, int>, rank': map<int, int>, bound: int, parent: int, id: int)
    requires TreeOk(t, rank, bound) && parent in t.kids && id !in t.kids && id != 0
    requires parent in rank && rank' == rank[id := rank[parent] + 1]
    ensures KidsOk(Inserted(t, parent, id), id) && ParentOk(Inserted(t, parent, id), rank', bound + 1, id)
  {
    NodeFacts(t, rank, bound, parent);
    NodeFacts(t, rank, bound, t.root);
    hide TreeOk, ListOk;
    ListOkEmpty(Inserted(t, parent, id), id);
    KidsInserted(t, parent, id, parent);
    assert (Kids(t, parent) + [id])[|Kids(t, parent)|] == id;
  }

  lemma ListInserted(t: Tree, parent: int, id: int, n: int, l: seq<int>)
    requires ListOk(t, n, l) && id !in t.kids
    ensures ListOk(Inserted(t, parent, id), n, l) && id !in l
  {
  }

  lemma OldKidsOk(t: Tree, rank: map<int, int>, bound: int, parent: int, id: int, n: int)
    requires TreeOk(t, rank, bound) && parent in t.kids && id !in t.kids && id != 0 && n in t.kids
    ensures KidsOk(Inserted(t, parent, id), n)
  {
    hide TreeOk, ListOk, ParentOk;
    NodeFacts(t, rank, bound, n);
    ListInserted(t, parent, id, n, Kids(t, n));
    KidsInserted(t, parent, id, n);
    if n == parent {
      RootStays(t, rank, bound, parent, id);
      ListsJoin(Inserted(t, parent, id), n, Kids(t, n), [id]);
    }
  }

  lemma KidsInserted(t: Tree, parent: int, id: int, n: int)
    requires n in t.kids && id !in t.kids && parent in t.kids
    ensures Kids(Inserted(t, parent, id), n) == if n == parent then Kids(t, n) + [id] else Kids(t, n)
  {
  }

  /** The lists and parents with a new child: it comes last. */
  lemma InsertedLists(t: Tree, parent: int, id: int, n: int)
    requires id !in t.kids && parent in t.kids && n in t.kids
    ensures var t' := Inserted(t, parent, id);
      && t'.root == t.root && t'.kids.Keys == t.kids.Keys + {id}
      && Kids(t', id) == [] && Parent(t', id) == parent
      && Kids(t', n) == (if n == parent then Kids(t, n) + [id] else Kids(t, n)) && Parent(t', n) == Parent(t, n)
  {
    KidsInserted(t, parent, id, n);
  }

  lemma RootStays(t: Tree, rank: map<int, int>, bound: int, parent: int, id: int)
    requires TreeOk(t, rank, bound) && parent in t.kids && id !in t.kids
    ensures ListOk(Inserted(t, parent, id), parent, [id])
  {
  }

  lemma OldParentOk(t: Tree, rank: map<int, int>, rank': map<int, int>, bound: int, parent: int, id: int, n: int)
    requires TreeOk(t, rank, bound) && parent in t.kids && id !in t.kids && id != 0 && n in t.kids
    requires parent in rank && rank' == rank[id := rank[parent] + 1]
    ensures ParentOk(Inserted(t, parent, id), rank', bound + 1, n)
  {
    var t' := Inserted(t, parent, id);
    NodeFacts(t, rank, bound, n);
    hide TreeOk, KidsOk;
    if n != t.root {
      var p := Parent(t, n);
      assert Kids(t', p) == if p == parent then Kids(t, p) + [id] else Kids(t, p);
    }
  }

  // ---------- A whole branch goes ----------

  /** The nodes `tree_node_free` frees: a node and everything below it. */
  function Branch(t: Tree, n: int, ghost rank: map<int, int>, ghost bound: int): set<int>
    requires TreeOk(t, rank, bound) && n in t.kids
    decreases bound - (if n in rank then rank[n] else 0), 1, 0
  {
    {n} + Branches(t, n, |Kids(t, n)|, rank, bound)
  }

  function Branches(t: Tree, n: int, k: nat, ghost rank: map<int, int>, ghost bound: int): set<int>
    requires TreeOk(t, rank, bound) && n in t.kids && k <= |Kids(t, n)|
    decreases bound - (if n in rank then rank[n] else 0), 0, k
  {
    if k == 0 then {} else
      ChildRank(t, rank, bound, n, k - 1);
      Branches(t, n, k - 1, rank, bound) + Branch(t, Kids(t, n)[k - 1], rank, bound)
  }

  lemma {:induction false} BranchIs(t: Tree, rank: map<int, int>, bound: int, n: int)
    requires TreeOk(t, rank, bound) && n in t.kids
    ensures Branch(t, n, rank, bound) == {n} + Descendants(t, rank, bound, n)
    decreases bound - (if n in rank then rank[n] else 0), 1, 0
  {
    AllThrough(t, rank, bound, n);
    BranchesAre(t, rank, bound, n, |Kids(t, n)|);
  }

  lemma {:induction false} BranchesAre(t: Tree, rank: map<int, int>, bound: int, n: int, k: nat)
    requires TreeOk(t, rank, bound) && n in t.kids && k <= |Kids(t, n)|
    ensures Branches(t, n, k, rank, bound) == Through(t, rank, bound, n, k)
    decreases bound - (if n in rank then rank[n] else 0), 0, k
  {
    hide TreeOk, Through, Descendants, KidsOk, ListOk, ParentOk, Branch, Branches, Kids;
    BranchesUnfold(t, rank, bound, n, k);
    if k == 0 {
      AllThrough(t, rank, bound, n);
    } else {
      ChildRank(t, rank, bound, n, k - 1);
      BranchesAre(t, rank, bound, n, k - 1);
      BranchIs(t, rank, bound, Kids(t, n)[k - 1]);
      OneChildMore(t, rank, bound, n, k - 1);
    }
  }

  lemma BranchesUnfold(t: Tree, rank: map<int, int>, bound: int, n: int, k: nat)
    requires TreeOk(t, rank, bound) && n in t.kids && k <= |Kids(t, n)|
    ensures Branches(t, n, 0, rank, bound) == {}
    ensures k > 0 ==> Kids(t, n)[k - 1] in t.kids
    ensures k > 0 ==>
      Branches(t, n, k, rank, bound) == Branches(t, n, k - 1, rank, bound) + Branch(t, Kids(t, n)[k - 1], rank, bound)
  {
    if k > 0 {
      ChildRank(t, rank, bound, n, k - 1);
    }
  }

  /** The tree without a branch. */
  function Pruned(t: Tree, node: int, i: nat, gone: set<int>): Tree
    requires i < |Kids(t, Parent(t, node))|
  {
    var parent := Parent(t, node);
    Tree(t.root, t.kids[parent := Without(Kids(t, parent), i)] - gone, t.parent - gone)
  }

  /** Everything that is left keeps its parent and its children, but for the one that is gone. */
  lemma PrunedAt(t: Tree, rank: map<int, int>, bound: int, node: int, i: nat, n: int)
    requires TreeOk(t, rank, bound) && node in t.kids && node != t.root
    requires i < |Kids(t, Parent(t, node))| && Kids(t, Parent(t, node))[i] == node
    requires n in t.kids && n != node && !Below(t, rank, bound, n, node)
    ensures var t' := Pruned(t, node, i, {node} + Descendants(t, rank, bound, node));
      KidsOk(t', n) && ParentOk(t', rank, bound, n)
  {
    var gone := {node} + Descendants(t, rank, bound, node);
    NodeFacts(t, rank, bound, n);
    NodeFacts(t, rank, bound, node);
    OwnKids(t, node, i, n);
    assert n !in gone;
    hide TreeOk, Pruned, Own, Without, Below, ListOk, Descendants, ParentOk, KidsOk;
    forall c | c in Own(t, node, i, n) ensures c in t.kids && c !in gone {
      NotGone(t, rank, bound, node, i, n, c);
    }
    PrunedKids(t, node, i, n, gone);
    if n != t.root {
      var p := Parent(t, n);
      ListedByParent(t, rank, bound, n);
      WithoutKeeps(Kids(t, p), n, i, node, p == Parent(t, node));
      ParentNotGone(t, rank, bound, node, n);
      PrunedParent(t, rank, bound, node, i, n, gone);
    }
  }

  lemma ListedByParent(t: Tree, rank: map<int, int>, bound: int, n: int)
    requires ParentOk(t, rank, bound, n) && n != t.root
    ensures n in Kids(t, Parent(t, n))
  {
  }

  lemma NotGone(t: Tree, rank: map<int, int>, bound: int, node: int, i: nat, n: int, c: int)
    requires TreeOk(t, rank, bound) && node in t.kids && n in t.kids && n != node && !Below(t, rank, bound, n, node)
    requires KidsOk(t, n) && i < |Kids(t, Parent(t, node))| && c in Own(t, node, i, n) && node !in Own(t, node, i, n)
    ensures c in t.kids && c !in {node} + Descendants(t, rank, bound, node)
  {
    assert c in Kids(t, n);
    NodeFacts(t, rank, bound, c);
  }

  lemma ParentNotGone(t: Tree, rank: map<int, int>, bound: int, node: int, n: int)
    requires TreeOk(t, rank, bound) && n in t.kids && n != t.root && !Below(t, rank, bound, n, node)
    ensures Parent(t, n) in t.kids && Parent(t, n) !in {node} + Descendants(t, rank, bound, node)
  {
    NodeFacts(t, rank, bound, n);
  }

  lemma PrunedKids(t: Tree, node: int, i: nat, n: int, gone: set<int>)
    requires n in t.kids && n !in gone && i < |Kids(t, Parent(t, node))| && t.parent.Keys == t.kids.Keys
    requires ListOk(t, n, Own(t, node, i, n)) && forall c | c in Own(t, node, i, n) :: c in t.kids && c !in gone
    ensures KidsOk(Pruned(t, node, i, gone), n)
  {
    var t', own := Pruned(t, node, i, gone), Own(t, node, i, n);
    assert Kids(t', n) == own;
    forall j | 0 <= j < |own| ensures own[j] in t'.kids && own[j] != t'.root && Parent(t', own[j]) == n {
      assert own[j] in own;
    }
  }

  lemma PrunedParent(t: Tree, rank: map<int, int>, bound: int, node: int, i: nat, n: int, gone: set<int>)
    requires n in t.kids && n !in gone && n != t.root && i < |Kids(t, Parent(t, node))| && t.parent.Keys == t.kids.Keys
    requires ParentOk(t, rank, bound, n) && Parent(t, n) in t.kids && Parent(t, n) !in gone
    requires Parent(t, n) == Parent(t, node) ==> n in Without(Kids(t, Parent(t, n)), i)
    ensures ParentOk(Pruned(t, node, i, gone), rank, bound, n)
  {
  }

  /** Who is left keeps parent and children, but for the root of the branch, whose place in its list closes. */
  lemma PrunedLists(t: Tree, node: int, i: nat, gone: set<int>, n: int)
    requires i < |Kids(t, Parent(t, node))| && Kids(t, Parent(t, node))[i] == node && t.parent.Keys == t.kids.Keys
    requires n in t.kids && Parent(t, node) in t.kids
    ensures var t' := Pruned(t, node, i, gone);
      && t'.root == t.root && (n in t'.kids <==> n !in gone) && (n in t'.parent <==> n !in gone)
      && (n !in gone ==>
            && Kids(t', n) == (if n == Parent(t, node) then Kids(t, n)[..i] + Kids(t, n)[i + 1..] else Kids(t, n))
            && Parent(t', n) == Parent(t, n))
  {
  }

  lemma PrunedOk(t: Tree, rank: map<int, int>, bound: int, node: int, i: nat)
    requires TreeOk(t, rank, bound) && node in t.kids && node != t.root
    requires i < |Kids(t, Parent(t, node))| && Kids(t, Parent(t, node))[i] == node
    ensures var t' := Pruned(t, node, i, {node} + Descendants(t, rank, bound, node));
      TreeOk(t', rank, bound) && |t'.kids| == |t.kids| - 1 - |Descendants(t, rank, bound, node)|
  {
    var d := Descendants(t, rank, bound, node);
    var gone := {node} + d;
    var t' := Pruned(t, node, i, gone);
    NodeFacts(t, rank, bound, node);
    NodeFacts(t, rank, bound, t.root);
    NotBelowItself(t, rank, bound, node);
    assert t'.kids.Keys == t.kids.Keys - gone;
    assert |gone| == 1 + |d|;
    Difference(t.kids.Keys, gone);
    assert |t'.kids| == |t'.kids.Keys| && |t.kids| == |t.kids.Keys|;
    forall n | n in t'.kids ensures KidsOk(t', n) && ParentOk(t', rank, bound, n) {
      PrunedAt(t, rank, bound, node, i, n);
    }
  }

  lemma Difference(a: set<int>, b: set<int>)
    requires b <= a
    ensures |a - b| == |a| - |b|
  {
    assert a == (a - b) + b;
  }

  /** The tree of the kernel, with its count of nodes. */
  class Processes {
    var tree: Tree
    var nodes: int
    ghost var rank: map<int, int>
    ghost var bound: int

    /** The tree is one, and the count is that of all nodes there are; all of them are below the root. */
    ghost predicate Valid()
      reads this
    {
      TreeOk(tree, rank, bound) && nodes == |tree.kids|
    }

    /** `tree_create` and `tree_set_root` */
    constructor (root: int)
      requires root != 0
      ensures Valid() && tree == Tree(root, map[root := []], map[root := 0])
    {
      tree := Tree(root, map[root := []], map[root := 0]);
      nodes := 1;
      rank := map[root := 0];
      bound := 1;
    }

    /** `tree_node_insert_child` of a fresh node. */
    method InsertChild(parent: int, id: int)
      requires Valid() && parent in tree.kids && id !in tree.kids && id != 0
      modifies this
      ensures Valid() && tree == Inserted(old(tree), parent, id)
    {
      hide TreeOk, Inserted;
      NodeFacts(tree, rank, bound, parent);
      InsertedOk(tree, rank, rank[id := rank[parent] + 1], bound, parent, id);
      tree := Inserted(tree, parent, id);
      nodes := nodes + 1;
      rank := rank[id := rank[parent] + 1];
      bound := bound + 1;
    }

    /** The loop over the children of the removed node. */
    method Reassign(children: seq<int>, target: int)
      requires forall j | 0 <= j < |children| :: children[j] in tree.parent
      modifies `tree
      ensures tree == old(tree).(parent := AllReassigned(old(tree).parent, children, target))
    {
      ghost var parents := tree.parent;
      var j := 0;
      while j < |children|
        invariant 0 <= j <= |children| && tree == old(tree).(parent := tree.parent)
        invariant tree.parent == AllReassigned(parents, children[..j], target)
      {
        OneReassigned(parents, children, j, target);
        tree := tree.(parent := tree.parent[children[j] := target]);
        j := j + 1;
      }
      assert children[..j] == children;
    }

    /** `list_delete`, the loop, `list_merge` and `free`. */
    method MoveChildren(node: int, parent: int, i: nat, target: int)
      requires MoveOk(tree, node, i, target) && KidsOk(tree, node) && parent == Parent(tree, node)
      modifies `tree
      ensures i < |Kids(old(tree), parent)| && tree == Moved(old(tree), node, i, target)
    {
      StoresAreMove(tree, node, i, target);
      tree := tree.(kids := tree.kids[parent := Without(Kids(tree, parent), i)]);
      var children := Kids(tree, node);
      Reassign(children, target);
      tree := tree.(kids := tree.kids[target := Kids(tree, target) + children]);
      tree := tree.(kids := tree.kids - {node}, parent := tree.parent - {node});
    }

    /** The stores of `tree_remove` and `tree_remove_reparent_root`, which differ in where the children go. */
    method Unlink(node: int, target: int) returns (ghost i: nat)
      requires Valid() && node in tree.kids && node != tree.root
      requires target == tree.root || target == Parent(tree, node)
      modifies `tree, `nodes
      ensures Valid()
      ensures i < |Kids(old(tree), Parent(old(tree), node))| && Kids(old(tree), Parent(old(tree), node))[i] == node
      ensures tree == Moved(old(tree), node, i, target)
    {
      NodeFacts(tree, rank, bound, node);
      var parent := Parent(tree, node);
      var k := Find(Kids(tree, parent), node);
      i := k;
      MoveIsOk(tree, rank, bound, node, k, target);
      MovedOk(tree, rank, bound, node, k, target);
      hide TreeOk, MoveOk, Moved;
      nodes := nodes - 1;
      MoveChildren(node, parent, k, target);
    }

    /** `tree_remove_reparent_root`: exactly the node goes, and its children come to the root. */
    method RemoveReparentRoot(node: int) returns (ghost i: nat)
      requires Valid() && node in tree.kids
      modifies this
      ensures Valid()
      ensures node == old(tree).root ==> tree == old(tree)
      ensures node != old(tree).root ==> IsMove(old(tree), tree, node, i, old(tree).root)
    {
      NodeFacts(tree, rank, bound, node);
      i := 0;
      if Parent(tree, node) == 0 {
        return;
      }
      i := Unlink(node, tree.root);
    }

    /** `tree_remove`: exactly the node goes, and its children come to its parent. */
    method Remove(node: int) returns (ghost i: nat)
      requires Valid() && node in tree.kids
      modifies this
      ensures Valid()
      ensures node == old(tree).root ==> tree == old(tree)
      ensures node != old(tree).root ==> IsMove(old(tree), tree, node, i, Parent(old(tree), node))
    {
      NodeFacts(tree, rank, bound, node);
      i := 0;
      if Parent(tree, node) == 0 {
        return;
      }
      i := Unlink(node, Parent(tree, node));
    }

    /** `tree_node_parent_remove`: the node goes with everything below it. */
    method RemoveBranch(node: int) returns (ghost i: nat)
      requires Valid() && node in tree.kids && node != tree.root
      modifies this
      ensures Valid()
      ensures i < |Kids(old(tree), Parent(old(tree), node))| && Kids(old(tree), Parent(old(tree), node))[i] == node
      ensures tree == Pruned(old(tree), node, i, {node} + Descendants(old(tree), old(rank), old(bound), node))
    {
      hide TreeOk, Branch, CountChildren, Pruned, Descendants;
      NodeFacts(tree, rank, bound, node);
      CountIsDescendants(tree, rank, bound, node);
      BranchIs(tree, rank, bound, node);
      nodes := nodes - (CountChildren(tree, node, rank, bound) + 1);
      var k := Find(Kids(tree, Parent(tree, node)), node);
      PrunedOk(tree, rank, bound, node, k);
      tree := Pruned(tree, node, k, Branch(tree, node, rank, bound));
      i := k;
    }
  }
}
