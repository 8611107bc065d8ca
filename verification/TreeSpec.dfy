/**
 What a process tree is (src/libc/data_struct/tree.cpp): children lists and parent links that
 match, no cycle, and everything below the root.
 */
module TreeSpec {
  /** Nodes by number; `kids` are the children lists, which are sequences by the list operations. */
  datatype Tree = Tree(root: int, kids: map<int, seq<int>>, parent: map<int, int>)

  function Kids(t: Tree, n: int): seq<int> {
    if n in t.kids then t.kids[n] else []
  }

  function Parent(t: Tree, n: int): int {
    if n in t.parent then t.parent[n] else 0
  }

  /** The nodes of a list name `n` as their parent, and are listed once. */
  ghost predicate ListOk(t: Tree, n: int, l: seq<int>) {
    && (forall i | 0 <= i < |l| :: l[i] in t.kids && l[i] != t.root && Parent(t, l[i]) == n)
    && (forall i, j | 0 <= i < j < |l| :: l[i] != l[j])
  }

  ghost predicate KidsOk(t: Tree, n: int) {
    ListOk(t, n, Kids(t, n))
  }

  /** Every node but the root is listed by its parent, which is nearer to the root: `rank` rules out cycles. */
  ghost predicate ParentOk(t: Tree, rank: map<int, int>, bound: int, n: int) {
    && n in rank && 0 <= rank[n] < bound
    && if n == t.root then Parent(t, n) == 0
       else Parent(t, n) in t.kids && n in Kids(t, Parent(t, n)) && Parent(t, n) in rank && rank[Parent(t, n)] < rank[n]
              && t.root in rank && rank[t.root] < rank[n]
  }

  ghost predicate TreeOk(t: Tree, rank: map<int, int>, bound: int) {
    && t.root in t.kids && 0 !in t.kids && t.parent.Keys == t.kids.Keys
    && (forall n | n in t.kids :: KidsOk(t, n))
    && (forall n | n in t.kids :: ParentOk(t, rank, bound, n))
  }

  /** `n` is a proper ancestor of `m`. */
  ghost predicate Below(t: Tree, rank: map<int, int>, bound: int, m: int, n: int)
    requires TreeOk(t, rank, bound) && m in t.kids
    decreases rank[m]
  {
    assert ParentOk(t, rank, bound, m);
    m != t.root && (Parent(t, m) == n || (assert ParentOk(t, rank, bound, Parent(t, m)); Below(t, rank, bound,
      Parent(t, m), n)))
  }

  /** The child of `n` on the way to `m`. */
  ghost function Toward(t: Tree, rank: map<int, int>, bound: int, m: int, n: int): int
    requires TreeOk(t, rank, bound) && m in t.kids && Below(t, rank, bound, m, n)
    decreases rank[m]
  {
    assert ParentOk(t, rank, bound, m);
    if Parent(t, m) == n then m else (assert ParentOk(t, rank, bound, Parent(t, m)); Toward(t, rank, bound,
      Parent(t, m), n))
  }

  /** Every node is below the root. */
  lemma {:induction false} AllBelowRoot(t: Tree, rank: map<int, int>, bound: int, m: int)
    requires TreeOk(t, rank, bound) && m in t.kids && m != t.root
    ensures Below(t, rank, bound, m, t.root)
    decreases if m in rank then rank[m] else 0
  {
    assert ParentOk(t, rank, bound, m);
    if Parent(t, m) != t.root {
      assert ParentOk(t, rank, bound, Parent(t, m));
      AllBelowRoot(t, rank, bound, Parent(t, m));
    }
  }

  /** No node is below itself: there is no cycle. */
  lemma {:induction false} RankGrows(t: Tree, rank: map<int, int>, bound: int, m: int, n: int)
    requires TreeOk(t, rank, bound) && m in t.kids && Below(t, rank, bound, m, n)
    ensures n in t.kids && n in rank && m in rank && rank[n] < rank[m]
    decreases if m in rank then rank[m] else 0
  {
    assert ParentOk(t, rank, bound, m);
    if Parent(t, m) != n {
      assert ParentOk(t, rank, bound, Parent(t, m));
      RankGrows(t, rank, bound, Parent(t, m), n);
    } else {
      assert ParentOk(t, rank, bound, n);
    }
  }

  /** The subtree of a child `c` of `n` is the part of the nodes below `n` that is reached through `c`. */
  lemma {:induction false} ThroughChild(t: Tree, rank: map<int, int>, bound: int, m: int, n: int, c: int)
    requires TreeOk(t, rank, bound) && m in t.kids && c in t.kids && c != t.root && Parent(t, c) == n
    ensures Below(t, rank, bound, m, n) && Toward(t, rank, bound, m, n) == c <==> m == c || Below(t, rank, bound, m, c)
    decreases if m in rank then rank[m] else 0
  {
    assert ParentOk(t, rank, bound, m) && ParentOk(t, rank, bound, c);
    if m != t.root {
      assert ParentOk(t, rank, bound, Parent(t, m));
      if m == c {
      } else if Parent(t, m) == n {
        if Below(t, rank, bound, m, c) {
          if n != c {
            RankGrows(t, rank, bound, n, c);
          }
        }
      } else {
        ThroughChild(t, rank, bound, Parent(t, m), n, c);
      }
    }
  }

  ghost function Descendants(t: Tree, rank: map<int, int>, bound: int, n: int): set<int>
    requires TreeOk(t, rank, bound)
  {
    set m | m in t.kids && Below(t, rank, bound, m, n)
  }

  /** The nodes below `n` reached through one of its first `k` children. */
  ghost function Through(t: Tree, rank: map<int, int>, bound: int, n: int, k: nat): set<int>
    requires TreeOk(t, rank, bound) && k <= |Kids(t, n)|
  {
    set m | m in t.kids && Below(t, rank, bound, m, n) && Toward(t, rank, bound, m, n) in Kids(t, n)[..k]
  }

  /** One child more adds that child and its descendants. */
  lemma OneChildMore(t: Tree, rank: map<int, int>, bound: int, n: int, k: nat)
    requires TreeOk(t, rank, bound) && n in t.kids && k < |Kids(t, n)|
    ensures Kids(t, n)[k] in t.kids
    ensures var c := Kids(t, n)[k];
      Through(t, rank, bound, n, k + 1) == Through(t, rank, bound, n, k) + ({c} + Descendants(t, rank, bound, c))
    ensures |Through(t, rank, bound, n, k + 1)| ==
      |Through(t, rank, bound, n, k)| + 1 + |Descendants(t, rank, bound, Kids(t, n)[k])|
  {
    NodeFacts(t, rank, bound, n);
    var c := Kids(t, n)[k];
    NodeFacts(t, rank, bound, c);
    var d, a, a' := Descendants(t, rank, bound, c), Through(t, rank, bound, n, k), Through(t, rank, bound, n, k + 1);
    forall m | m in t.kids ensures (m in a' <==> m in a || m == c || m in d) && (m == c || m in d ==> m !in a) {
      OnTheWay(t, rank, bound, n, k, m);
    }
    NotBelowItself(t, rank, bound, c);
    assert c !in d && a <= t.kids.Keys && a' <= t.kids.Keys && d <= t.kids.Keys;
    OneMore(t.kids.Keys, a', a, c, d);
  }

  lemma OneMore(all: set<int>, a': set<int>, a: set<int>, c: int, d: set<int>)
    requires a <= all && a' <= all && d <= all && c in all && c !in d
    requires forall m | m in all :: (m in a' <==> m in a || m == c || m in d) && (m == c || m in d ==> m !in a)
    ensures a' == a + ({c} + d) && |a'| == |a| + 1 + |d|
  {
    forall m ensures m in a' <==> m in a + ({c} + d) {
      assert m in a' + a + {c} + d ==> m in all;
    }
    forall m | m in {c} + d ensures m !in a {
      assert m in all;
    }
    assert |{c} + d| == 1 + |d|;
    assert a !! {c} + d && |a + ({c} + d)| == |a| + |{c} + d|;
  }

  lemma OnTheWay(t: Tree, rank: map<int, int>, bound: int, n: int, k: nat, m: int)
    requires TreeOk(t, rank, bound) && n in t.kids && k < |Kids(t, n)| && m in t.kids && Kids(t, n)[k] in t.kids
    ensures var c, a := Kids(t, n)[k], Through(t, rank, bound, n, k);
      && (m in Through(t, rank, bound, n, k + 1) <==> m in a || m == c || m in Descendants(t, rank, bound, c))
      && (m == c || m in Descendants(t, rank, bound, c) ==> m !in a)
  {
    NodeFacts(t, rank, bound, n);
    ChildIs(t, n, k);
    ThroughChild(t, rank, bound, m, n, Kids(t, n)[k]);
  }

  lemma NotBelowItself(t: Tree, rank: map<int, int>, bound: int, c: int)
    requires TreeOk(t, rank, bound) && c in t.kids
    ensures !Below(t, rank, bound, c, c)
  {
    if Below(t, rank, bound, c, c) {
      RankGrows(t, rank, bound, c, c);
    }
  }

  lemma ChildIs(t: Tree, n: int, k: nat)
    requires KidsOk(t, n) && k < |Kids(t, n)|
    ensures var c := Kids(t, n)[k];
      c != t.root && Parent(t, c) == n && Kids(t, n)[..k + 1] == Kids(t, n)[..k] + [c] && c !in Kids(t, n)[..k]
  {
  }

  /** All children together lead to all descendants. */
  lemma AllThrough(t: Tree, rank: map<int, int>, bound: int, n: int)
    requires TreeOk(t, rank, bound) && n in t.kids
    ensures Through(t, rank, bound, n, |Kids(t, n)|) == Descendants(t, rank, bound, n)
    ensures Through(t, rank, bound, n, 0) == {}
  {
    forall m | m in t.kids && Below(t, rank, bound, m, n) ensures Toward(t, rank, bound, m, n) in Kids(t, n) {
      TowardIsChild(t, rank, bound, m, n);
    }
    assert Kids(t, n)[..|Kids(t, n)|] == Kids(t, n);
  }

  lemma {:induction false} TowardIsChild(t: Tree, rank: map<int, int>, bound: int, m: int, n: int)
    requires TreeOk(t, rank, bound) && m in t.kids && Below(t, rank, bound, m, n)
    ensures Toward(t, rank, bound, m, n) in Kids(t, n)
    decreases if m in rank then rank[m] else 0
  {
    assert ParentOk(t, rank, bound, m);
    if Parent(t, m) != n {
      assert ParentOk(t, rank, bound, Parent(t, m));
      TowardIsChild(t, rank, bound, Parent(t, m), n);
    }
  }

  /** What the invariant says of one node. */
  lemma NodeFacts(t: Tree, rank: map<int, int>, bound: int, n: int)
    requires TreeOk(t, rank, bound) && n in t.kids
    ensures KidsOk(t, n) && ParentOk(t, rank, bound, n) && t.parent.Keys == t.kids.Keys && t.root in t.kids
    ensures Parent(t, n) != n && n !in Kids(t, n) && forall i | 0 <= i < |Kids(t, n)| :: Kids(t, n)[i] in t.kids
  {
    assert ParentOk(t, rank, bound, n);
    forall i | 0 <= i < |Kids(t, n)| ensures Kids(t, n)[i] != n {
      assert KidsOk(t, n);
      assert ParentOk(t, rank, bound, Kids(t, n)[i]);
    }
  }
}
