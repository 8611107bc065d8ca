/**
 The skip-list operations of src/memory/alloc.cpp:338-499 on memory.  `c` names the nodes
 that the list holds; the random level of an insertion is a parameter.
 */
module SkipList {
  import opened SkipSpec

  /** Only forward pointers of the list head and of the given nodes may differ. */
  ghost predicate OnlyLinksChange(m: Mem, m': Mem, c: seq<SkipNode>) {
    forall a | !IsLink(HEAD, a) && (forall j | 0 <= j < |c| :: !IsLink(c[j].page, a)) :: Load(m', a) == Load(m, a)
  }

  predicate IsLink(page: int, a: int) {
    Addr(page) + FORWARD <= a < Addr(page) + BIG_HEADER
  }

  /** One look to the right on level `i`. */
  lemma LookRight(m: Mem, level: int, c: seq<SkipNode>, size: int, i: int, pos: int)
    requires SkipOk(m, level, c) && 0 <= i <= SKIP_MAX_LEVEL
    requires -1 <= pos < Place(c, size) && (0 <= pos ==> i <= c[pos].top)
    ensures var k, next := NextAt(c, pos + 1, i), Fwd(m, PageAt(c, pos), i);
      && next == Pointer(c, k)
      && (next != 0 <==> k < |c|)
      && (k < |c| ==> Load(m, next + SIZE) == c[k].size && (c[k].size < size <==> k < Place(c, size)))
      && (k >= Place(c, size) ==> pos == PrevAt(c, Place(c, size), i))
  {
    assert LevelOk(m, c, i);
    assert NodeOk(m, c, i, pos);
    CrossesFromPrev(c, Place(c, size), i, pos);
  }

  /** Every node is on level 0, where the search ends right before the place of `size`. */
  lemma BottomNext(m: Mem, level: int, c: seq<SkipNode>, size: int)
    requires SkipOk(m, level, c)
    ensures var x := Place(c, size); PrevAt(c, x, 0) == x - 1 && Fwd(m, PageAt(c, x - 1), 0) == Pointer(c, x)
  {
    var x: int := Place(c, size);
    assert LevelOk(m, c, 0);
    assert NodeOk(m, c, 0, x - 1);
    NextIsUnique(c, x, 0, x);
  }

  /** The inner loop of all three searches: right on level `i` while the next bin is smaller. */
  method Walk(m: Mem, ghost level: int, size: int, i: int, node0: int, ghost pos0: int, ghost c: seq<SkipNode>)
      returns (node: int)
    requires SkipOk(m, level, c) && 0 <= i <= SKIP_MAX_LEVEL
    requires -1 <= pos0 < Place(c, size) && (0 <= pos0 ==> i <= c[pos0].top)
    requires node0 == Addr(PageAt(c, pos0))
    ensures node == Addr(PageAt(c, PrevAt(c, Place(c, size), i)))
  {
    node := node0;
    ghost var pos := pos0;
    LookRight(m, level, c, size, i, pos);
    var next := Load(m, node + FORWARD + 4 * i);
    while next != 0 && Load(m, next + SIZE) < size
      invariant -1 <= pos < Place(c, size) && (0 <= pos ==> i <= c[pos].top)
      invariant node == Addr(PageAt(c, pos)) && next == Fwd(m, PageAt(c, pos), i)
      invariant var k := NextAt(c, pos + 1, i);
        && next == Pointer(c, k)
        && (next != 0 <==> k < |c|)
        && (k < |c| ==> Load(m, next + SIZE) == c[k].size && (c[k].size < size <==> k < Place(c, size)))
        && (k >= Place(c, size) ==> pos == PrevAt(c, Place(c, size), i))
      decreases Place(c, size) - pos
    {
      node := next;
      pos := NextAt(c, pos + 1, i);
      LookRight(m, level, c, size, i, pos);
      next := Load(m, node + FORWARD + 4 * i);
    }
  }

  /** `findbest`: the smallest free bin that fits, the first one of that size. */
  method FindBest(m: Mem, level: int, size: int, ghost c: seq<SkipNode>) returns (node: int)
    requires SkipOk(m, level, c)
    ensures node == Pointer(c, Place(c, size))
  {
    node := Addr(HEAD);
    ghost var pos := -1;
    var i := level;
    while i >= 0
      invariant -1 <= i <= level
      invariant -1 <= pos < Place(c, size) && node == Addr(PageAt(c, pos))
      invariant 0 <= pos ==> i <= c[pos].top
      invariant i < level ==> pos == PrevAt(c, Place(c, size), i + 1)
    {
      node := Walk(m, level, size, i, node, pos, c);
      pos := PrevAt(c, Place(c, size), i);
      i := i - 1;
    }
    BottomNext(m, level, c, size);
    node := Load(m, node + FORWARD);
  }

  /**
   The search of `insert` and `delete`: the predecessors on all levels in use, and the first node
   that is not smaller.
   */
  method Search(m: Mem, level: int, size: int, ghost c: seq<SkipNode>) returns (update: seq<int>, node: int)
    requires SkipOk(m, level, c)
    ensures |update| == SKIP_MAX_LEVEL + 1
    ensures forall i | 0 <= i <= level :: update[i] == Before(c, size, i)
    ensures node == Pointer(c, Place(c, size))
  {
    update := seq(SKIP_MAX_LEVEL + 1, _ => 0);
    node := Addr(HEAD);
    ghost var pos := -1;
    var i := level;
    while i >= 0
      invariant -1 <= i <= level && |update| == SKIP_MAX_LEVEL + 1
      invariant -1 <= pos < Place(c, size) && node == Addr(PageAt(c, pos))
      invariant 0 <= pos ==> i <= c[pos].top
      invariant i < level ==> pos == PrevAt(c, Place(c, size), i + 1)
      invariant forall k | i < k <= level :: update[k] == Before(c, size, k)
    {
      node := Walk(m, level, size, i, node, pos, c);
      update := update[i := node];
      pos := PrevAt(c, Place(c, size), i);
      i := i - 1;
    }
    BottomNext(m, level, c, size);
    node := Load(m, node + FORWARD);
  }

  /** The node after which `size` belongs on level `i`. */
  ghost function Before(c: seq<SkipNode>, size: int, i: int): int {
    Addr(PageAt(c, PrevAt(c, Place(c, size), i)))
  }

  lemma AboveLevel(c: seq<SkipNode>, level: int, x: nat, i: int)
    requires x <= |c| && level < i && forall j | 0 <= j < |c| :: c[j].top <= level
    ensures PrevAt(c, x, i) == -1
  {
  }

  lemma ChainInserted(c: seq<SkipNode>, x: nat, n: SkipNode)
    requires ChainOk(c) && Fresh(c, n) && x <= |c|
    requires (0 < x ==> c[x - 1].size <= n.size) && (x < |c| ==> n.size <= c[x].size)
    ensures ChainOk(InsertAt(c, x, n))
  {
    var d := InsertAt(c, x, n);
    forall j, k | 0 <= j < k < |d| ensures d[j].page != d[k].page && d[j].size <= d[k].size {
      var a, b := if j < x then j else j - 1, if k < x then k else k - 1;
      assert j != x ==> d[j] == c[a];
      assert k != x ==> d[k] == c[b];
    }
  }

  lemma ChainRemoved(c: seq<SkipNode>, x: nat)
    requires ChainOk(c) && x < |c|
    ensures ChainOk(RemoveAt(c, x))
  {
  }

  /** After the loop has linked levels `0` to `k - 1`. */
  ghost predicate Linking(m0: Mem, m: Mem, c: seq<SkipNode>, x: nat, n: SkipNode, k: int)
    requires x <= |c|
  {
    var d := InsertAt(c, x, n);
    && (forall i | 0 <= i < k :: LevelOk(m, d, i))
    && (forall i | k <= i <= SKIP_MAX_LEVEL :: LevelOk(m, c, i))
    && OnlyLinksChange(m0, m, d)
  }

  /** Links of different levels do not share memory. */
  lemma LinkedOtherLevel(m: Mem, c: seq<SkipNode>, x: nat, n: SkipNode, k: int, page: int, i: int)
    requires x <= |c| && 0 <= i <= SKIP_MAX_LEVEL && 0 <= k <= SKIP_MAX_LEVEL && i != k
    ensures Fwd(LinkedMem(m, c, x, n, k), page, i) == Fwd(m, page, i)
  {
  }

  lemma OtherLevelKept(m: Mem, c: seq<SkipNode>, x: nat, n: SkipNode, k: int, d: seq<SkipNode>, i: int)
    requires x <= |c| && 0 <= i <= SKIP_MAX_LEVEL && 0 <= k <= SKIP_MAX_LEVEL && i != k
    requires LevelOk(m, d, i)
    ensures LevelOk(LinkedMem(m, c, x, n, k), d, i)
  {
    var m' := LinkedMem(m, c, x, n, k);
    forall t | -1 <= t < |d| ensures NodeOk(m', d, i, t) {
      assert NodeOk(m, d, i, t);
      LinkedOtherLevel(m, c, x, n, k, PageAt(d, t), i);
    }
  }

  lemma LinkedOnlyLinks(m0: Mem, m: Mem, c: seq<SkipNode>, x: nat, n: SkipNode, k: int)
    requires x <= |c| && 0 <= k <= SKIP_MAX_LEVEL
    requires OnlyLinksChange(m0, m, InsertAt(c, x, n))
    ensures OnlyLinksChange(m0, LinkedMem(m, c, x, n, k), InsertAt(c, x, n))
  {
    var d, p := InsertAt(c, x, n), PrevAt(c, x, k);
    assert p == -1 || d[p] == c[p];
    assert d[x] == n;
  }

  lemma LinkOneLevel(m0: Mem, m: Mem, c: seq<SkipNode>, x: nat, n: SkipNode, k: int)
    requires ChainOk(c) && x <= |c| && Fresh(c, n) && 0 <= k <= n.top
    requires Linking(m0, m, c, x, n, k)
    ensures Linking(m0, LinkedMem(m, c, x, n, k), c, x, n, k + 1)
  {
    assert n.top <= SKIP_MAX_LEVEL;
    var m', d := LinkedMem(m, c, x, n, k), InsertAt(c, x, n);
    hide ChainOk, Fresh, LevelOk, OnlyLinksChange, LinkedMem, InsertAt;
    LinkLevel(m, c, x, n, k);
    LinkedOnlyLinks(m0, m, c, x, n, k);
    forall i | 0 <= i < k ensures LevelOk(m', d, i) {
      OtherLevelKept(m, c, x, n, k, d, i);
    }
    forall i | k < i <= SKIP_MAX_LEVEL ensures LevelOk(m', c, i) {
      OtherLevelKept(m, c, x, n, k, c, i);
    }
  }

  lemma SizesKept(m0: Mem, m: Mem, c: seq<SkipNode>, d: seq<SkipNode>)
    requires OnlyLinksChange(m0, m, d) && SizesOk(m0, c)
    ensures SizesOk(m, c)
  {
  }

  lemma SizesInserted(m: Mem, c: seq<SkipNode>, x: nat, n: SkipNode)
    requires SizesOk(m, c) && x <= |c| && Load(m, Addr(n.page) + SIZE) == n.size
    ensures SizesOk(m, InsertAt(c, x, n))
  {
  }

  lemma TopsInserted(c: seq<SkipNode>, x: nat, n: SkipNode, level0: int)
    requires x <= |c| && 0 <= level0
    requires forall j | 0 <= j < |c| :: c[j].top <= level0
    requires level0 > 0 ==> exists j :: 0 <= j < |c| && c[j].top == level0
    ensures var d, level := InsertAt(c, x, n), if n.top > level0 then n.top else level0;
      && (forall j | 0 <= j < |d| :: d[j].top <= level)
      && (level > 0 ==> exists j :: 0 <= j < |d| && d[j].top == level)
  {
    var d := InsertAt(c, x, n);
    assert d[x] == n;
    if level0 > 0 {
      var j :| 0 <= j < |c| && c[j].top == level0;
      assert d[if j < x then j else j + 1] == c[j];
    }
  }

  lemma Inserted(m0: Mem, level0: int, m: Mem, c: seq<SkipNode>, n: SkipNode)
    requires SkipOk(m0, level0, c) && Fresh(c, n) && Load(m0, Addr(n.page) + SIZE) == n.size
    requires Linking(m0, m, c, Place(c, n.size), n, n.top + 1)
    ensures SkipOk(m, if n.top > level0 then n.top else level0, InsertAt(c, Place(c, n.size), n))
  {
    var x := Place(c, n.size);
    var d := InsertAt(c, x, n);
    ChainInserted(c, x, n);
    SizesInserted(m0, c, x, n);
    SizesKept(m0, m, d, d);
    TopsInserted(c, x, n, level0);
    forall i | n.top < i <= SKIP_MAX_LEVEL ensures LevelOk(m, d, i) {
      LevelInserted(m, c, x, n, i);
    }
  }

  /** The new node starts on levels that were empty so far: their predecessor is the list head. */
  method RaiseLevel(update0: seq<int>, level0: int, random: int, ghost size: int, ghost c: seq<SkipNode>)
      returns (update: seq<int>, level: int)
    requires |update0| == SKIP_MAX_LEVEL + 1 && 0 <= level0 <= SKIP_MAX_LEVEL && random <= SKIP_MAX_LEVEL
    requires forall i | 0 <= i <= level0 :: update0[i] == Before(c, size, i)
    requires forall j | 0 <= j < |c| :: c[j].top <= level0
    ensures |update| == SKIP_MAX_LEVEL + 1 && level == if random > level0 then random else level0
    ensures forall i | 0 <= i <= random :: update[i] == Before(c, size, i)
  {
    update, level := update0, level0;
    if random > level {
      var i := level + 1;
      while i <= random
        invariant level < i <= random + 1 && |update| == SKIP_MAX_LEVEL + 1
        invariant forall k | 0 <= k < i :: update[k] == Before(c, size, k)
      {
        AboveLevel(c, level, Place(c, size), i);
        update := update[i := Addr(HEAD)];
        i := i + 1;
      }
      level := random;
    }
  }

  /** The stores of an insertion, level by level. */
  method LinkAll(m0: Mem, update: seq<int>, value: int, random: int, ghost n: SkipNode, ghost c: seq<SkipNode>)
      returns (m: Mem)
    requires ChainOk(c) && Fresh(c, n) && n.top == random && value == Addr(n.page)
    requires forall i | 0 <= i <= SKIP_MAX_LEVEL :: LevelOk(m0, c, i)
    requires |update| == SKIP_MAX_LEVEL + 1
    requires forall i | 0 <= i <= random :: update[i] == Before(c, n.size, i)
    ensures Linking(m0, m, c, Place(c, n.size), n, random + 1)
  {
    m := m0;
    var i := 0;
    while i <= random
      invariant 0 <= i <= random + 1
      invariant Linking(m0, m, c, Place(c, n.size), n, i)
    {
      LinkOneLevel(m0, m, c, Place(c, n.size), n, i);
      m := m[value + FORWARD + 4 * i := Load(m, update[i] + FORWARD + 4 * i)];
      m := m[update[i] + FORWARD + 4 * i := value];
      i := i + 1;
    }
  }

  /**
   `insert`, at a random level: the node goes before all others of its size.
   */
  method Insert(m0: Mem, level0: int, value: int, random: int, ghost n: SkipNode, ghost c: seq<SkipNode>)
      returns (m: Mem, level: int)
    requires SkipOk(m0, level0, c) && Fresh(c, n) && n.top == random
    requires value == Addr(n.page) && Load(m0, value + SIZE) == n.size
    ensures SkipOk(m, level, InsertAt(c, Place(c, n.size), n))
    ensures OnlyLinksChange(m0, m, InsertAt(c, Place(c, n.size), n))
  {
    m, level := m0, level0;
    var update, node := Search(m, level, Load(m, value + SIZE), c);
    assert node != value;
    if node != value {
      update, level := RaiseLevel(update, level, random, n.size, c);
      m := LinkAll(m, update, value, random, n, c);
      Inserted(m0, level0, m, c, n);
    }
  }

  // ---------- Deletion ----------

  ghost predicate Unlinking(m0: Mem, m: Mem, c: seq<SkipNode>, x: nat, k: int)
    requires x < |c|
  {
    && (forall i | 0 <= i < k :: LevelOk(m, RemoveAt(c, x), i))
    && (forall i | k <= i <= SKIP_MAX_LEVEL :: LevelOk(m, c, i))
    && OnlyLinksChange(m0, m, c)
  }

  lemma UnlinkOneLevel(m0: Mem, m: Mem, c: seq<SkipNode>, x: nat, k: int)
    requires ChainOk(c) && x < |c| && 0 <= k <= c[x].top && Unlinking(m0, m, c, x, k)
    ensures Unlinking(m0, UnlinkedMem(m, c, x, k), c, x, k + 1)
  {
    var m', d := UnlinkedMem(m, c, x, k), RemoveAt(c, x);
    UnlinkLevel(m, c, x, k);
    forall i | 0 <= i < k ensures LevelOk(m', d, i) {
      UnlinkOtherKept(m, c, x, k, d, i);
    }
    forall i | k < i <= SKIP_MAX_LEVEL ensures LevelOk(m', c, i) {
      UnlinkOtherKept(m, c, x, k, c, i);
    }
  }

  lemma UnlinkOtherKept(m: Mem, c: seq<SkipNode>, x: nat, k: int, d: seq<SkipNode>, i: int)
    requires x < |c| && 0 <= i <= SKIP_MAX_LEVEL && 0 <= k <= SKIP_MAX_LEVEL && i != k
    requires LevelOk(m, d, i)
    ensures LevelOk(UnlinkedMem(m, c, x, k), d, i)
  {
    var m' := UnlinkedMem(m, c, x, k);
    forall t | -1 <= t < |d| ensures NodeOk(m', d, i, t) {
      assert NodeOk(m, d, i, t);
    }
  }

  /**
   The predecessor on level `i` points to the node at `v` only if that is the first of its size,
   and only on its levels.
   */
  lemma PointsToValue(m: Mem, c: seq<SkipNode>, x: nat, v: nat, i: int)
    requires ChainOk(c) && x <= v < |c| && 0 <= i && LevelOk(m, c, i)
    ensures Fwd(m, PageAt(c, PrevAt(c, x, i)), i) == Addr(c[v].page) <==> NextAt(c, x, i) == v
    ensures v == x ==> (NextAt(c, x, i) == v <==> i <= c[v].top)
    ensures v > x && i == 0 ==> NextAt(c, x, i) != v
  {
    assert NodeOk(m, c, i, PrevAt(c, x, i));
    NextFromPrev(c, x, i);
    var k := NextAt(c, x, i);
    if k < |c| {
      PagesDistinct(c, k, v);
    }
    if i <= c[x].top {
      NextIsUnique(c, x, i, x);
    }
  }

  /** Memory once the node at `x` is unlinked from the levels below `k`. */
  ghost function UnlinkedBelow(m: Mem, c: seq<SkipNode>, x: nat, k: nat): Mem
    requires x < |c|
  {
    if k == 0 then m else UnlinkedMem(UnlinkedBelow(m, c, x, k - 1), c, x, k - 1)
  }

  lemma {:induction false} UnlinkedLevels(m: Mem, c: seq<SkipNode>, x: nat, k: nat)
    requires ChainOk(c) && x < |c| && k <= c[x].top + 1
    requires forall i | 0 <= i <= SKIP_MAX_LEVEL :: LevelOk(m, c, i)
    ensures Unlinking(m, UnlinkedBelow(m, c, x, k), c, x, k)
  {
    if k > 0 {
      hide ChainOk, LevelOk, OnlyLinksChange, UnlinkedMem, RemoveAt;
      UnlinkedLevels(m, c, x, k - 1);
      UnlinkOneLevel(m, UnlinkedBelow(m, c, x, k - 1), c, x, k - 1);
    }
  }

  /** The deletion continues on level `i` exactly if the first node of its size is on that level. */
  lemma DeletionContinues(m: Mem, c: seq<SkipNode>, v: nat, i: nat)
    requires ChainOk(c) && v < |c| && i <= SKIP_MAX_LEVEL && i <= c[v].top + 1 && v == Place(c, c[v].size)
    requires forall k | 0 <= k <= SKIP_MAX_LEVEL :: LevelOk(m, c, k)
    ensures Fwd(UnlinkedBelow(m, c, v, i), PageAt(c, PrevAt(c, v, i)), i) == Addr(c[v].page) <==> i <= c[v].top
  {
    UnlinkedLevels(m, c, v, i);
    PointsToValue(UnlinkedBelow(m, c, v, i), c, v, v, i);
  }

  lemma DeletionStops(m: Mem, c: seq<SkipNode>, v: nat)
    requires ChainOk(c) && v < |c| && LevelOk(m, c, 0)
    requires Place(c, c[v].size) < v
    ensures Fwd(m, PageAt(c, PrevAt(c, Place(c, c[v].size), 0)), 0) != Addr(c[v].page)
  {
    PointsToValue(m, c, Place(c, c[v].size), v, 0);
  }

  /** The stores of a deletion; they stop at the first level whose predecessor does not point to the node. */
  method UnlinkAll(m0: Mem, update: seq<int>, level: int, value: int, ghost v: nat, ghost c: seq<SkipNode>)
      returns (m: Mem)
    requires ChainOk(c) && v < |c| && value == Addr(c[v].page) && c[v].top <= level <= SKIP_MAX_LEVEL
    requires forall i | 0 <= i <= SKIP_MAX_LEVEL :: LevelOk(m0, c, i)
    requires |update| == SKIP_MAX_LEVEL + 1
    requires forall i | 0 <= i <= level :: update[i] == Before(c, c[v].size, i)
    ensures m == if v == Place(c, c[v].size) then UnlinkedBelow(m0, c, v, c[v].top + 1) else m0
  {
    hide LevelOk, OnlyLinksChange;
    m := m0;
    ghost var first := v == Place(c, c[v].size);
    var i := 0;
    while i <= level
      invariant 0 <= i <= level + 1
      invariant if first then i <= c[v].top + 1 && m == UnlinkedBelow(m0, c, v, i) else i == 0 && m == m0
    {
      if first {
        DeletionContinues(m0, c, v, i);
      } else {
        DeletionStops(m, c, v);
      }
      if Load(m, update[i] + FORWARD + 4 * i) != value {
        break;
      }
      m := m[update[i] + FORWARD + 4 * i := Load(m, value + FORWARD + 4 * i)];
      i := i + 1;
    }
  }

  /** Levels that have become empty are given up. */
  method LowerLevel(m: Mem, level0: int, ghost d: seq<SkipNode>) returns (level: int)
    requires ChainOk(d) && 0 <= level0 <= SKIP_MAX_LEVEL
    requires forall i | 0 <= i <= SKIP_MAX_LEVEL :: LevelOk(m, d, i)
    requires forall j | 0 <= j < |d| :: d[j].top <= level0
    ensures 0 <= level <= level0
    ensures forall j | 0 <= j < |d| :: d[j].top <= level
    ensures level > 0 ==> exists j :: 0 <= j < |d| && d[j].top == level
  {
    level := level0;
    while level > 0 && Load(m, Addr(HEAD) + FORWARD + 4 * level) == 0
      invariant 0 <= level <= level0
      invariant forall j | 0 <= j < |d| :: d[j].top <= level
    {
      HeadPointer(m, d, level);
      level := level - 1;
    }
    if level > 0 {
      HeadPointer(m, d, level);
    }
  }

  lemma HeadPointer(m: Mem, d: seq<SkipNode>, i: int)
    requires ChainOk(d) && LevelOk(m, d, i)
    requires forall j | 0 <= j < |d| :: d[j].top <= i
    ensures Fwd(m, HEAD, i) == 0 <==> forall j | 0 <= j < |d| :: d[j].top < i
    ensures Fwd(m, HEAD, i) != 0 ==> exists j :: 0 <= j < |d| && d[j].top == i
  {
    assert NodeOk(m, d, i, -1);
  }

  /** The node at `v` is reached from the first one of its size along level 0. */
  lemma NextOnBottom(m: Mem, c: seq<SkipNode>, k: nat)
    requires ChainOk(c) && k < |c| && LevelOk(m, c, 0)
    ensures Fwd(m, c[k].page, 0) == Pointer(c, k + 1)
  {
    assert NodeOk(m, c, 0, k);
    NextIsUnique(c, k + 1, 0, k + 1);
  }

  lemma RemovedOk(m0: Mem, m: Mem, c: seq<SkipNode>, v: nat)
    requires ChainOk(c) && SizesOk(m0, c) && v < |c| && Unlinking(m0, m, c, v, c[v].top + 1)
    ensures ChainOk(RemoveAt(c, v)) && SizesOk(m, RemoveAt(c, v))
    ensures forall i | 0 <= i <= SKIP_MAX_LEVEL :: LevelOk(m, RemoveAt(c, v), i)
  {
    SizesKept(m0, m, c, c);
    ChainRemoved(c, v);
    forall i | c[v].top < i <= SKIP_MAX_LEVEL ensures LevelOk(m, RemoveAt(c, v), i) {
      LevelRemoved(m, c, v, i);
    }
  }

  /** Along level 0 from the first node that is not smaller to the node itself. */
  method FindNode(m: Mem, node0: int, value: int, ghost v: nat, ghost c: seq<SkipNode>) returns (node: int)
    requires ChainOk(c) && v < |c| && value == Addr(c[v].page) && LevelOk(m, c, 0)
    requires node0 == Pointer(c, Place(c, c[v].size))
    ensures node == value
  {
    node := node0;
    ghost var k := Place(c, c[v].size);
    while node != value
      invariant k <= v && node == Addr(c[k].page)
      decreases v - k
    {
      NextOnBottom(m, c, k);
      node := Load(m, node + FORWARD);
      k := k + 1;
    }
  }

  lemma LevelsAfter(c: seq<SkipNode>, v: nat, level0: int)
    requires v < |c| && forall j | 0 <= j < |c| :: c[j].top <= level0
    ensures forall j | 0 <= j < |c| - 1 :: RemoveAt(c, v)[j].top <= level0
  {
  }

  lemma FirstRemoved(m0: Mem, m: Mem, level0: int, c: seq<SkipNode>, v: nat)
    requires SkipOk(m0, level0, c) && v < |c| && m == UnlinkedBelow(m0, c, v, c[v].top + 1)
    ensures ChainOk(RemoveAt(c, v)) && SizesOk(m, RemoveAt(c, v)) && OnlyLinksChange(m0, m, c)
    ensures forall i | 0 <= i <= SKIP_MAX_LEVEL :: LevelOk(m, RemoveAt(c, v), i)
    ensures |RemoveAt(c, v)| == |c| - 1 && forall j | 0 <= j < |c| - 1 :: RemoveAt(c, v)[j].top <= level0
  {
    UnlinkedLevels(m0, c, v, c[v].top + 1);
    RemovedOk(m0, m, c, v);
    LevelsAfter(c, v, level0);
  }

  /**
   `delete` of the node at position `v`.  Only the first node of its size is removed; for
   any other one the list stays as it is.
   */
  method Delete(m0: Mem, level0: int, value: int, ghost v: nat, ghost c: seq<SkipNode>) returns (m: Mem, level: int)
    requires SkipOk(m0, level0, c) && v < |c| && value == Addr(c[v].page)
    ensures v == Place(c, c[v].size) ==> SkipOk(m, level, RemoveAt(c, v)) && OnlyLinksChange(m0, m, c)
    ensures v != Place(c, c[v].size) ==> m == m0 && level == level0
  {
    hide LevelOk, OnlyLinksChange, UnlinkedBelow, RemoveAt, Place;
    var update, node := Search(m0, level0, Load(m0, value + SIZE), c);
    node := FindNode(m0, node, value, v, c);
    m := UnlinkAll(m0, update, level0, node, v, c);
    ghost var first := v == Place(c, c[v].size);
    ghost var d := if first then RemoveAt(c, v) else c;
    if first {
      FirstRemoved(m0, m, level0, c, v);
    }
    level := LowerLevel(m, level0, d);
  }
}
