/**
 The skip list of free big bins (src/memory/alloc.cpp:292-499) as it lies in memory: every
 node is the header at the start of a page, with its size and seven forward pointers.
 */
module SkipSpec {
  /** Memory by word address; words never written are zero. */
  type Mem = map<int, int>

  const PAGE_SIZE: int := 0x1000
  const SKIP_MAX_LEVEL: int := 6

  // Offsets in klmalloc_big_bin_header.
  const NEXT: int := 0
  const STACK: int := 4
  const SIZE: int := 8
  const MAGIC: int := 12
  const PREV: int := 16
  const FORWARD: int := 20
  const BIG_HEADER: int := 48

  /** The page of the static list head `klmalloc_big_bins.head`; the heap lies above it. */
  const HEAD: int := 1

  function Load(m: Mem, a: int): int {
    if a in m then m[a] else 0
  }

  function Addr(page: int): int {
    PAGE_SIZE * page
  }

  function Fwd(m: Mem, page: int, i: int): int {
    Load(m, Addr(page) + FORWARD + 4 * i)
  }

  function SetFwd(m: Mem, page: int, i: int, v: int): Mem {
    m[Addr(page) + FORWARD + 4 * i := v]
  }

  /** A node of the list: its page, the size of the bin and the highest level it is linked on. */
  datatype SkipNode = SkipNode(page: int, size: int, top: int)

  ghost predicate IsNext(c: seq<SkipNode>, j: nat, i: int, k: nat) {
    j <= k <= |c| && (k < |c| ==> i <= c[k].top) && forall t | j <= t < k :: c[t].top < i
  }

  lemma NextExists(c: seq<SkipNode>, j: nat, i: int)
    requires j <= |c|
    ensures exists k: nat :: IsNext(c, j, i, k)
    decreases |c| - j
  {
    if j == |c| || i <= c[j].top {
      assert IsNext(c, j, i, j);
    } else {
      NextExists(c, j + 1, i);
      var k: nat :| IsNext(c, j + 1, i, k);
      assert IsNext(c, j, i, k);
    }
  }

  /** The first position from `j` on that is linked on level `i`. */
  ghost function NextAt(c: seq<SkipNode>, j: nat, i: int): (k: nat)
    requires j <= |c|
    ensures IsNext(c, j, i, k)
  {
    NextExists(c, j, i);
    var k: nat :| IsNext(c, j, i, k);
    k
  }

  ghost predicate IsPrev(c: seq<SkipNode>, x: nat, i: int, k: int) {
    -1 <= k < x <= |c| && (0 <= k ==> i <= c[k].top) && forall t | k < t < x :: c[t].top < i
  }

  lemma PrevExists(c: seq<SkipNode>, x: nat, i: int)
    requires x <= |c|
    ensures exists k :: IsPrev(c, x, i, k)
  {
    if x == 0 || i <= c[x - 1].top {
      assert IsPrev(c, x, i, x as int - 1);
    } else {
      PrevExists(c, x - 1, i);
      var k :| IsPrev(c, x - 1, i, k);
      assert IsPrev(c, x, i, k);
    }
  }

  /** The last position before `x` that is linked on level `i`; -1 is the list head. */
  ghost function PrevAt(c: seq<SkipNode>, x: nat, i: int): (k: int)
    requires x <= |c|
    ensures IsPrev(c, x, i, k)
  {
    PrevExists(c, x, i);
    var k :| IsPrev(c, x, i, k);
    k
  }

  function PageAt(c: seq<SkipNode>, k: int): int
    requires k < |c|
  {
    if k < 0 then HEAD else c[k].page
  }

  /** The pointer to position `k`, null past the end. */
  function Pointer(c: seq<SkipNode>, k: nat): int {
    if k < |c| then Addr(c[k].page) else 0
  }

  /** The link of position `t` on level `i`, if it has one, points to the next position on that level. */
  ghost predicate NodeOk(m: Mem, c: seq<SkipNode>, i: int, t: int)
    requires -1 <= t < |c|
  {
    t == -1 || i <= c[t].top ==> Fwd(m, PageAt(c, t), i) == Pointer(c, NextAt(c, t + 1, i))
  }

  ghost predicate LevelOk(m: Mem, c: seq<SkipNode>, i: int) {
    forall t | -1 <= t < |c| :: NodeOk(m, c, i, t)
  }

  /** The list as such: ordered by size, each page once. */
  ghost predicate ChainOk(c: seq<SkipNode>) {
    && (forall j | 0 <= j < |c| :: HEAD < c[j].page && 0 <= c[j].top <= SKIP_MAX_LEVEL)
    && (forall j, k | 0 <= j < k < |c| :: c[j].page != c[k].page)
    && (forall j, k | 0 <= j <= k < |c| :: c[j].size <= c[k].size)
  }

  ghost predicate SizesOk(m: Mem, c: seq<SkipNode>) {
    forall j | 0 <= j < |c| :: Load(m, Addr(c[j].page) + SIZE) == c[j].size
  }

  ghost predicate SkipOk(m: Mem, level: int, c: seq<SkipNode>) {
    && ChainOk(c) && SizesOk(m, c) && 0 <= level <= SKIP_MAX_LEVEL
    && (forall i | 0 <= i <= SKIP_MAX_LEVEL :: LevelOk(m, c, i))
    && (forall j | 0 <= j < |c| :: c[j].top <= level)
    && (level > 0 ==> exists j :: 0 <= j < |c| && c[j].top == level)
  }

  /** The list on level `i` alone. */
  function Level(c: seq<SkipNode>, i: int): seq<SkipNode> {
    if c == [] then [] else (if i <= c[0].top then [c[0]] else []) + Level(c[1..], i)
  }

  ghost predicate IsPlace(c: seq<SkipNode>, size: int, x: nat) {
    x <= |c| && (forall j | 0 <= j < x :: c[j].size < size) && (x < |c| ==> size <= c[x].size)
  }

  lemma PlaceExists(c: seq<SkipNode>, size: int, x: nat)
    requires x <= |c| && forall j | 0 <= j < x :: c[j].size < size
    ensures exists y: nat :: IsPlace(c, size, y)
    decreases |c| - x
  {
    if x == |c| || size <= c[x].size {
      assert IsPlace(c, size, x);
    } else {
      PlaceExists(c, size, x + 1);
    }
  }

  /** Where a size belongs: before everything that is at least as large. */
  ghost function Place(c: seq<SkipNode>, size: int): (x: nat)
    ensures IsPlace(c, size, x)
  {
    PlaceExists(c, size, 0);
    var x: nat :| IsPlace(c, size, x);
    x
  }

  function InsertAt(c: seq<SkipNode>, x: nat, n: SkipNode): seq<SkipNode>
    requires x <= |c|
  {
    c[..x] + [n] + c[x..]
  }

  function RemoveAt(c: seq<SkipNode>, x: nat): seq<SkipNode>
    requires x < |c|
  {
    c[..x] + c[x + 1..]
  }

  lemma NextIsUnique(c: seq<SkipNode>, j: nat, i: int, k: nat)
    requires j <= k <= |c| && (k < |c| ==> i <= c[k].top)
    requires forall t | j <= t < k :: c[t].top < i
    ensures NextAt(c, j, i) == k
  {
  }

  lemma NextInserted(c: seq<SkipNode>, x: nat, n: SkipNode, j: nat, i: int)
    requires x <= |c| && j <= |c| + 1
    ensures var d := InsertAt(c, x, n);
      Pointer(d, NextAt(d, j, i)) ==
      if j > x then Pointer(c, NextAt(c, j - 1, i))
      else if NextAt(c, j, i) < x || n.top < i then Pointer(c, NextAt(c, j, i))
      else Addr(n.page)
  {
    var d := InsertAt(c, x, n);
    if j > x {
      NextIsUnique(d, j, i, NextAt(c, j - 1, i) + 1);
    } else {
      var k := NextAt(c, j, i);
      NextIsUnique(d, j, i, if k < x then k else if i <= n.top then x else k + 1);
    }
  }

  /** Only the last node before `x` points across `x`. */
  lemma CrossesFromPrev(c: seq<SkipNode>, x: nat, i: int, j: int)
    requires x <= |c| && -1 <= j < |c| && (0 <= j ==> i <= c[j].top)
    ensures j < x ==> (x <= NextAt(c, j + 1, i) <==> j == PrevAt(c, x, i))
  {
  }

  ghost predicate Fresh(c: seq<SkipNode>, n: SkipNode) {
    HEAD < n.page && 0 <= n.top <= SKIP_MAX_LEVEL && forall j | 0 <= j < |c| :: c[j].page != n.page
  }

  ghost function LinkedMem(m: Mem, c: seq<SkipNode>, x: nat, n: SkipNode, i: int): Mem
    requires x <= |c|
  {
    var pred := PageAt(c, PrevAt(c, x, i));
    SetFwd(SetFwd(m, n.page, i, Fwd(m, pred, i)), pred, i, Addr(n.page))
  }

  lemma PagesDistinct(c: seq<SkipNode>, j: int, k: int)
    requires ChainOk(c) && -1 <= j < |c| && -1 <= k < |c|
    ensures PageAt(c, j) == PageAt(c, k) <==> j == k
  {
  }

  /** What the two stores of one level do to the links of that level. */
  lemma LinkStores(m: Mem, c: seq<SkipNode>, x: nat, n: SkipNode, i: int, page: int)
    requires x <= |c| && PageAt(c, PrevAt(c, x, i)) != n.page
    ensures var m', pred := LinkedMem(m, c, x, n, i), PageAt(c, PrevAt(c, x, i));
      Fwd(m', page, i) == if page == pred then Addr(n.page) else if page == n.page then Fwd(m, pred, i)
        else Fwd(m, page, i)
  {
  }

  lemma LinkBefore(m: Mem, m': Mem, c: seq<SkipNode>, x: nat, n: SkipNode, i: int, t: int)
    requires x <= |c| && i <= n.top && -1 <= t < x && NodeOk(m, c, i, t)
    requires Fwd(m', PageAt(c, t), i) == if t == PrevAt(c, x, i) then Addr(n.page) else Fwd(m, PageAt(c, t), i)
    ensures NodeOk(m', InsertAt(c, x, n), i, t)
  {
    NextInserted(c, x, n, t + 1, i);
    if t == -1 || i <= c[t].top {
      CrossesFromPrev(c, x, i, t);
    }
  }

  lemma NextFromPrev(c: seq<SkipNode>, x: nat, i: int)
    requires x <= |c|
    ensures NextAt(c, PrevAt(c, x, i) + 1, i) == NextAt(c, x, i)
  {
    NextIsUnique(c, PrevAt(c, x, i) + 1, i, NextAt(c, x, i));
  }

  lemma LinkNew(m: Mem, m': Mem, c: seq<SkipNode>, x: nat, n: SkipNode, i: int)
    requires x <= |c| && i <= n.top && NodeOk(m, c, i, PrevAt(c, x, i))
    requires Fwd(m', n.page, i) == Fwd(m, PageAt(c, PrevAt(c, x, i)), i)
    ensures NodeOk(m', InsertAt(c, x, n), i, x)
  {
    var d := InsertAt(c, x, n);
    assert d[x] == n;
    NextInserted(c, x, n, x + 1, i);
    NextFromPrev(c, x, i);
    assert Pointer(d, NextAt(d, x + 1, i)) == Pointer(c, NextAt(c, x, i));
  }

  lemma LinkAfter(m: Mem, m': Mem, c: seq<SkipNode>, x: nat, n: SkipNode, i: int, t: int)
    requires x <= t < |c| && NodeOk(m, c, i, t)
    requires Fwd(m', c[t].page, i) == Fwd(m, c[t].page, i)
    ensures NodeOk(m', InsertAt(c, x, n), i, t + 1)
  {
    NextInserted(c, x, n, t + 2, i);
  }

  /** One level of an insertion: the predecessor on that level is relinked. */
  lemma LinkLevel(m: Mem, c: seq<SkipNode>, x: nat, n: SkipNode, i: int)
    requires ChainOk(c) && x <= |c| && Fresh(c, n) && i <= n.top && LevelOk(m, c, i)
    ensures LevelOk(LinkedMem(m, c, x, n, i), InsertAt(c, x, n), i)
  {
    var m', d, p := LinkedMem(m, c, x, n, i), InsertAt(c, x, n), PrevAt(c, x, i);
    assert NodeOk(m, c, i, p);
    forall t | -1 <= t < |d| ensures NodeOk(m', d, i, t) {
      LinkNode(m, m', c, x, n, i, t);
    }
  }

  lemma LinkNode(m: Mem, m': Mem, c: seq<SkipNode>, x: nat, n: SkipNode, i: int, t: int)
    requires ChainOk(c) && x <= |c| && Fresh(c, n) && i <= n.top && LevelOk(m, c, i)
    requires m' == LinkedMem(m, c, x, n, i) && -1 <= t <= |c|
    ensures NodeOk(m', InsertAt(c, x, n), i, t)
  {
    var p := PrevAt(c, x, i);
    if t < x {
      PagesDistinct(c, p, t);
      LinkStores(m, c, x, n, i, PageAt(c, t));
      assert NodeOk(m, c, i, t);
      LinkBefore(m, m', c, x, n, i, t);
    } else if t == x {
      LinkStores(m, c, x, n, i, n.page);
      assert NodeOk(m, c, i, p);
      LinkNew(m, m', c, x, n, i);
    } else {
      PagesDistinct(c, p, t - 1);
      LinkStores(m, c, x, n, i, PageAt(c, t - 1));
      assert NodeOk(m, c, i, t - 1);
      LinkAfter(m, m', c, x, n, i, t - 1);
    }
  }

  lemma NodeInserted(m: Mem, c: seq<SkipNode>, x: nat, n: SkipNode, i: int, t: int)
    requires x <= |c| && n.top < i && -1 <= t <= |c|
    requires t != x ==> NodeOk(m, c, i, if t < x then t else t - 1)
    ensures NodeOk(m, InsertAt(c, x, n), i, t)
  {
    NextInserted(c, x, n, t + 1, i);
  }

  /** A level the new node is not on keeps its links. */
  lemma LevelInserted(m: Mem, c: seq<SkipNode>, x: nat, n: SkipNode, i: int)
    requires x <= |c| && n.top < i && LevelOk(m, c, i)
    ensures LevelOk(m, InsertAt(c, x, n), i)
  {
    var d := InsertAt(c, x, n);
    forall t | -1 <= t < |d| ensures NodeOk(m, d, i, t) {
      NodeInserted(m, c, x, n, i, t);
    }
  }

  // ---------- Deletion, the reverse ----------

  ghost function UnlinkedMem(m: Mem, c: seq<SkipNode>, x: nat, i: int): Mem
    requires x < |c|
  {
    SetFwd(m, PageAt(c, PrevAt(c, x, i)), i, Fwd(m, c[x].page, i))
  }

  lemma UnlinkStores(m: Mem, c: seq<SkipNode>, x: nat, i: int, page: int)
    requires ChainOk(c) && x < |c|
    ensures Fwd(UnlinkedMem(m, c, x, i), page, i) ==
      if page == PageAt(c, PrevAt(c, x, i)) then Fwd(m, c[x].page, i) else Fwd(m, page, i)
  {
  }

  lemma NextRemoved(c: seq<SkipNode>, x: nat, j: nat, i: int)
    requires x < |c| && j < |c|
    ensures var d := RemoveAt(c, x);
      Pointer(d, NextAt(d, j, i)) ==
      if j > x then Pointer(c, NextAt(c, j + 1, i))
      else if NextAt(c, j, i) < x then Pointer(c, NextAt(c, j, i))
      else Pointer(c, NextAt(c, x + 1, i))
  {
    var d := RemoveAt(c, x);
    if j > x {
      NextIsUnique(d, j, i, NextAt(c, j + 1, i) - 1);
    } else {
      var k := NextAt(c, j, i);
      NextIsUnique(d, j, i, if k < x then k else NextAt(c, x + 1, i) - 1);
    }
  }

  lemma UnlinkBefore(m: Mem, m': Mem, c: seq<SkipNode>, x: nat, i: int, t: int)
    requires x < |c| && i <= c[x].top && -1 <= t < x && NodeOk(m, c, i, t) && NodeOk(m, c, i, x)
    requires Fwd(m', PageAt(c, t), i) == Fwd(m, PageAt(c, if t == PrevAt(c, x, i) then x else t), i)
    ensures NodeOk(m', RemoveAt(c, x), i, t)
  {
    NextRemoved(c, x, t + 1, i);
    if t == -1 || i <= c[t].top {
      CrossesFromPrev(c, x, i, t);
    }
  }

  lemma UnlinkAfter(m: Mem, m': Mem, c: seq<SkipNode>, x: nat, i: int, t: int)
    requires x < t < |c| && NodeOk(m, c, i, t)
    requires Fwd(m', c[t].page, i) == Fwd(m, c[t].page, i)
    ensures NodeOk(m', RemoveAt(c, x), i, t - 1)
  {
    if t + 1 < |c| {
      NextRemoved(c, x, t, i);
    }
  }

  lemma UnlinkNode(m: Mem, m': Mem, c: seq<SkipNode>, x: nat, i: int, t: int)
    requires ChainOk(c) && x < |c| && i <= c[x].top && LevelOk(m, c, i)
    requires m' == UnlinkedMem(m, c, x, i) && -1 <= t < |c| - 1
    ensures NodeOk(m', RemoveAt(c, x), i, t)
  {
    var j := if t < x then t else t + 1;
    PagesDistinct(c, PrevAt(c, x, i), j);
    UnlinkStores(m, c, x, i, PageAt(c, j));
    assert NodeOk(m, c, i, j);
    if t < x {
      assert NodeOk(m, c, i, x);
      UnlinkBefore(m, m', c, x, i, t);
    } else {
      UnlinkAfter(m, m', c, x, i, j);
    }
  }

  /** One level of a deletion. */
  lemma UnlinkLevel(m: Mem, c: seq<SkipNode>, x: nat, i: int)
    requires ChainOk(c) && x < |c| && i <= c[x].top && LevelOk(m, c, i)
    ensures LevelOk(UnlinkedMem(m, c, x, i), RemoveAt(c, x), i)
  {
    var m', d := UnlinkedMem(m, c, x, i), RemoveAt(c, x);
    forall t | -1 <= t < |d| ensures NodeOk(m', d, i, t) {
      UnlinkNode(m, m', c, x, i, t);
    }
  }

  lemma NextPassesOver(c: seq<SkipNode>, x: nat, j: nat, i: int)
    requires j <= x < |c| && c[x].top < i && x <= NextAt(c, j, i)
    ensures NextAt(c, j, i) == NextAt(c, x + 1, i)
  {
    NextIsUnique(c, j, i, NextAt(c, x + 1, i));
  }

  lemma PassedBefore(m: Mem, c: seq<SkipNode>, x: nat, i: int, t: int)
    requires x < |c| && c[x].top < i && -1 <= t < x && NodeOk(m, c, i, t)
    ensures NodeOk(m, RemoveAt(c, x), i, t)
  {
    NextRemoved(c, x, t + 1, i);
    if x <= NextAt(c, t + 1, i) {
      NextPassesOver(c, x, t + 1, i);
    }
  }

  lemma PassedAfter(m: Mem, c: seq<SkipNode>, x: nat, i: int, t: int)
    requires x < t < |c| && NodeOk(m, c, i, t)
    ensures NodeOk(m, RemoveAt(c, x), i, t - 1)
  {
    NextRemoved(c, x, t, i);
  }

  /** A level the removed node is not on keeps its links. */
  lemma LevelRemoved(m: Mem, c: seq<SkipNode>, x: nat, i: int)
    requires x < |c| && c[x].top < i && LevelOk(m, c, i)
    ensures LevelOk(m, RemoveAt(c, x), i)
  {
    var d := RemoveAt(c, x);
    forall t | -1 <= t < |d| ensures NodeOk(m, d, i, t) {
      if t < x {
        assert NodeOk(m, c, i, t);
        PassedBefore(m, c, x, i, t);
      } else {
        assert NodeOk(m, c, i, t + 1);
        PassedAfter(m, c, x, i, t + 1);
      }
    }
  }

  // ---------- What the levels are ----------

  /** Each level is a subsequence of the one below: `Level(i + 1)` filters `Level(i)`. */
  lemma {:induction false} LevelsNest(c: seq<SkipNode>, i: int)
    ensures Level(Level(c, i), i + 1) == Level(c, i + 1)
  {
    if c != [] {
      LevelsNest(c[1..], i);
      var l := Level(c, i);
      if i <= c[0].top {
        assert l == [c[0]] + Level(c[1..], i);
        assert l[1..] == Level(c[1..], i);
      } else {
        assert l == Level(c[1..], i);
      }
    }
  }

  /** Levels above the current one are empty. */
  lemma {:induction false} LevelEmpty(c: seq<SkipNode>, i: int)
    requires forall j | 0 <= j < |c| :: c[j].top < i
    ensures Level(c, i) == []
  {
    if c != [] {
      LevelEmpty(c[1..], i);
    }
  }
}
