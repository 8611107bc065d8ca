/**
 The slab allocator (src/memory/alloc.cpp:567-949) and the page source below it
 (src/memory/mem.cpp:398-412), as operations on the kernel heap.
 */
module Kmalloc {
  import opened SkipSpec
  import SkipList
  import opened HeapSpec
  import opened HeapSmall
  import opened HeapBig
  import opened HeapKept
  import opened BinSize

  /** The end of the 32-bit address space. */
  const ADDRESS_SPACE: int := 0x1_0000_0000

  /** A free bin that can hold `size` bytes. */
  ghost predicate FreeFit(big: map<int, Big>, p: int, size: int) {
    p in big && !big[p].busy && size <= BigSize(big[p].pages)
  }

  ghost predicate NewestOk(newest: int, big: map<int, Big>) {
    newest == 0 || exists q :: q in big && newest == Addr(q)
  }

  lemma BestOnChain(big: map<int, Big>, c: seq<SkipNode>, size: int, p: int)
    requires ChainMatches(big, c) && ChainOk(c) && FreeFit(big, p, size)
    ensures Place(c, size) < |c| && c[Place(c, size)].size <= BigSize(big[p].pages)
  {
    assert OnChain(c, p);
    var j :| 0 <= j < |c| && c[j].page == p;
    assert IsFreeBig(big, c[j]);
  }

  lemma CountIsPositive(b: int)
    requires 0 <= b < BIG_BIN
    ensures 0 < CellCount(b)
  {
  }

  /** The word index arithmetic of the source reaches exactly the cells. */
  method Thread(m0: Mem, p: int, b: int) returns (m: Mem)
    requires 0 <= b < BIG_BIN
    ensures forall k: nat | k < CellCount(b) :: Threaded(m, p, b, k)
    ensures SameOutside(m0, m, Addr(p) + SMALL_HEADER, Addr(p + 1))
  {
    m := m0;
    CountIsPositive(b);
    var base := Addr(p) + SMALL_HEADER;
    var available: int := (PAGE_SIZE - SMALL_HEADER) / CellSize(b) - 1;
    var i := 0;
    while i < available
      invariant 0 <= i <= available
      invariant forall k: nat | k < i :: Threaded(m, p, b, k)
      invariant SameOutside(m0, m, Addr(p) + SMALL_HEADER, Addr(p + 1))
    {
      CellIsMultiple(p, b, i);
      CellIsMultiple(p, b, i + 1);
      ghost var m1 := m;
      m := m[base + i * CellSize(b) := base + (i + 1) * CellSize(b)];
      CellStored(m1, m, p, b, i);
      i := i + 1;
    }
    CellIsMultiple(p, b, i);
    ghost var m1 := m;
    m := m[base + i * CellSize(b) := 0];
    CellStored(m1, m, p, b, i);
  }

  /** Threading cell `i` leaves the cells before it alone. */
  lemma CellStored(m: Mem, m': Mem, p: int, b: int, i: nat)
    requires 0 <= b < BIG_BIN && i < CellCount(b)
    requires forall k: nat | k < i :: Threaded(m, p, b, k)
    requires m' == m[CellAt(p, b, i) := if i + 1 < CellCount(b) then CellAt(p, b, i + 1) else 0]
    ensures forall k: nat | k <= i :: Threaded(m', p, b, k)
    ensures Addr(p) + SMALL_HEADER <= CellAt(p, b, i) < Addr(p + 1)
  {
    assert IsCell(p, b, CellAt(p, b, i));
    CellBounds(p, b, CellAt(p, b, i));
    forall k: nat | k <= i ensures Threaded(m', p, b, k) {
      if k < i {
        assert Threaded(m, p, b, k);
        CellsAscend(p, b, k, i);
      }
    }
  }

  /** Cells written before the size field stay threaded. */
  lemma NewPageReady(m0: Mem, m: Mem, p: int, b: int)
    requires 0 <= b < BIG_BIN
    requires Load(m0, Addr(p) + MAGIC) == BIN_MAGIC && Load(m0, Addr(p) + STACK) == Addr(p) + SMALL_HEADER
    requires forall k: nat | k < CellCount(b) :: Threaded(m0, p, b, k)
    requires m == m0[Addr(p) + SIZE := b]
    ensures SmallOk(m, p, Small(b, AllCells(p, b)))
  {
    CountIsPositive(b);
    forall k: nat | k < CellCount(b) ensures Threaded(m, p, b, k) {
      assert Threaded(m0, p, b, k);
      assert IsCell(p, b, CellAt(p, b, k));
      CellBounds(p, b, CellAt(p, b, k));
    }
    NewPageOk(m, p, b);
  }

  /** The header and the stack of a new page of small cells. */
  method Format(m0: Mem, p: int, b: int, first: int) returns (m: Mem)
    requires 0 <= b < BIG_BIN
    ensures SmallOk(m, p, Small(b, AllCells(p, b))) && Load(m, Addr(p) + NEXT) == first
    ensures SameOutside(m0, m, Addr(p), Addr(p + 1))
  {
    var header := Addr(p);
    m := m0[header + MAGIC := BIN_MAGIC];
    m := m[header + STACK := header + SMALL_HEADER];
    m := m[header + NEXT := first];
    ghost var m1 := m;
    m := Thread(m, p, b);
    ghost var m2 := m;
    m := m[header + SIZE := b];
    FormatOk(m0, m1, m2, m, p, b, first);
  }

  lemma FormatOk(m0: Mem, m1: Mem, m2: Mem, m: Mem, p: int, b: int, first: int)
    requires 0 <= b < BIG_BIN
    requires m1 == m0[Addr(p) + MAGIC := BIN_MAGIC][Addr(p) + STACK := Addr(p) + SMALL_HEADER][Addr(p) + NEXT := first]
    requires SameOutside(m1, m2, Addr(p) + SMALL_HEADER, Addr(p + 1))
    requires forall k: nat | k < CellCount(b) :: Threaded(m2, p, b, k)
    requires m == m2[Addr(p) + SIZE := b]
    ensures SmallOk(m, p, Small(b, AllCells(p, b))) && Load(m, Addr(p) + NEXT) == first
    ensures SameOutside(m0, m, Addr(p), Addr(p + 1))
  {
    CountIsPositive(b);
    assert Load(m2, Addr(p) + MAGIC) == Load(m1, Addr(p) + MAGIC);
    assert Load(m2, Addr(p) + STACK) == Load(m1, Addr(p) + STACK);
    NewPageReady(m2, m, p, b);
    assert Load(m2, Addr(p) + NEXT) == Load(m1, Addr(p) + NEXT);
    forall a | a < Addr(p) || Addr(p + 1) <= a ensures Load(m, a) == Load(m0, a) {
      assert Load(m2, a) == Load(m1, a);
    }
  }

  lemma LiveAfterValloc(small: map<int, Small>, big: map<int, Big>, live: map<int, int>, p: int, size: int)
    requires LiveOk(small, big, live) && p in big && p !in small && Addr(p) + BIG_HEADER in live
    requires 0 <= size && live[Addr(p) + BIG_HEADER] == size + PAGE_SIZE - BIG_HEADER
    ensures LiveOk(small, big, (live - {Addr(p) + BIG_HEADER})[Addr(p + 1) := size])
  {
    BlocksAfterValloc(small, big, live, p, size);
    BinsAfterValloc(big, live, p, size);
    OwnerOfBig(p);
    hide BlocksOk, BinsOk, CellsOk;
    CellsAfterGive(small, live, Addr(p) + BIG_HEADER);
    CellsAfterTake(small, live - {Addr(p) + BIG_HEADER}, Addr(p + 1), size);
  }

  lemma BlocksAfterValloc(small: map<int, Small>, big: map<int, Big>, live: map<int, int>, p: int, size: int)
    requires BlocksOk(small, big, live) && p in big && p !in small && Addr(p) + BIG_HEADER in live
    requires 0 <= size && live[Addr(p) + BIG_HEADER] == size + PAGE_SIZE - BIG_HEADER
    ensures BlocksOk(small, big, (live - {Addr(p) + BIG_HEADER})[Addr(p + 1) := size])
  {
    var live' := (live - {Addr(p) + BIG_HEADER})[Addr(p + 1) := size];
    OwnerOfBig(p);
    assert BlockOk(small, big, Addr(p) + BIG_HEADER, live[Addr(p) + BIG_HEADER]);
    forall a | a in live' ensures BlockOk(small, big, a, live'[a]) {
      if a != Addr(p + 1) {
        assert BlockOk(small, big, a, live[a]);
      }
    }
  }

  lemma BinsAfterValloc(big: map<int, Big>, live: map<int, int>, p: int, size: int)
    requires BinsOk(big, live) && p in big && Addr(p) + BIG_HEADER in live
    ensures BinsOk(big, (live - {Addr(p) + BIG_HEADER})[Addr(p + 1) := size])
  {
    var live' := (live - {Addr(p) + BIG_HEADER})[Addr(p + 1) := size];
    forall q | q in big
      ensures big[q].busy <==> Addr(q) + BIG_HEADER in live' || Addr(q + 1) in live'
      ensures !(Addr(q) + BIG_HEADER in live' && Addr(q + 1) in live')
    {
      PlacesApart(p, q);
      PlacesApart(q, p);
    }
  }

  lemma PoppedKept(m: Mem, m': Mem, heads: seq<int>, level: int, tail: int, sh: Shadow, live: map<int, int>, p: int)
    requires HeapOk(m, heads, level, tail, sh, live) && p in sh.small
    requires forall a | a != Addr(p) + NEXT && a != Addr(p) + STACK :: Load(m', a) == Load(m, a)
    ensures Kept(m, m', live)
  {
    SmallHeaderChanges(m, m', tail, sh.small, sh.big, live, p);
  }

  lemma GrownKept(m: Mem, m': Mem, heads: seq<int>, level: int, tail: int, sh: Shadow, live: map<int, int>, pages: int)
    requires HeapOk(m, heads, level, tail, sh, live) && SameOutside(m, m', Addr(tail), Addr(tail + pages))
    ensures Kept(m, m', live)
  {
    NewPagesKept(m, m', tail, sh.small, sh.big, live, pages);
  }

  lemma HeapShape(m: Mem, heads: seq<int>, level: int, tail: int, sh: Shadow, live: map<int, int>)
    requires HeapOk(m, heads, level, tail, sh, live)
    ensures |heads| == |sh.lists| == BIG_BIN && HEAD < tail && tail !in sh.small && tail !in sh.big
    ensures SkipOk(m, level, sh.chain) && 0 <= level <= SKIP_MAX_LEVEL
  {
  }

  lemma NewestBelow(m: Mem, heads: seq<int>, level: int, tail: int, sh: Shadow, live: map<int, int>, newest: int)
      returns (r: int)
    requires HeapOk(m, heads, level, tail, sh, live) && NewestOk(newest, sh.big)
    ensures newest != 0 ==> r in sh.big && newest == Addr(r) && HEAD < r < tail
  {
    r := 0;
    if newest != 0 {
      r :| r in sh.big && newest == Addr(r);
    }
  }

  lemma NewestIs(newest: int, big: map<int, Big>, p: int)
    requires p in big && newest == Addr(p)
    ensures NewestOk(newest, big)
  {
  }

  /** A bin on the list has its one free block on its stack. */
  lemma OnFreeList(m: Mem, heads: seq<int>, level: int, tail: int, sh: Shadow, live: map<int, int>, x: nat)
    requires HeapOk(m, heads, level, tail, sh, live) && x < |sh.chain|
    ensures var p := sh.chain[x].page;
      && p in sh.big && Load(m, Addr(p) + STACK) == Addr(p) + BIG_HEADER && Load(m, Addr(p) + BIG_HEADER) == 0
      && sh.chain[x].size == BigSize(sh.big[p].pages)
    ensures SkipOk(m, level, sh.chain)
  {
    ChainMembers(sh.big, sh.chain);
    assert IsFreeBig(sh.big, sh.chain[x]);
    var p := sh.chain[x].page;
    assert BigOk(m, p, sh.big[p]);
  }

  /** Deleting a bin from the list does not touch its stack. */
  lemma FrontStackKept(m: Mem, m': Mem, heads: seq<int>, level: int, tail: int, sh: Shadow, live: map<int, int>, x: nat)
    requires HeapOk(m, heads, level, tail, sh, live) && x < |sh.chain| && SkipList.OnlyLinksChange(m, m', sh.chain)
    ensures var p := sh.chain[x].page;
      && Load(m', Addr(p) + STACK) == Load(m, Addr(p) + STACK) &&
        Load(m', Addr(p) + BIG_HEADER) == Load(m, Addr(p) + BIG_HEADER)
  {
    hide LiveOk, SkipOk, SmallsOk, BigsOk, ListsOk, LayoutOk, SkipList.OnlyLinksChange;
    ChainMembers(sh.big, sh.chain);
    hide ChainMatches;
    StackWordsKept(m, m', tail, sh.small, sh.big, sh.chain, sh.chain[x].page);
  }

  lemma TakenKept(m: Mem, m1: Mem, m': Mem, heads: seq<int>, level: int, tail: int, sh: Shadow, live: map<int, int>,
      x: nat)
    requires HeapOk(m, heads, level, tail, sh, live) && x < |sh.chain|
    requires SkipList.OnlyLinksChange(m, m1, sh.chain) && m' == m1[Addr(sh.chain[x].page) + STACK := 0]
    ensures Kept(m, m', live)
  {
    hide LiveOk, SkipOk, SmallsOk, BigsOk, ListsOk, LayoutOk, SkipList.OnlyLinksChange;
    ChainMembers(sh.big, sh.chain);
    hide ChainMatches;
    BinStoresHidden(m, m1, tail, sh.small, sh.big, live, sh.chain);
    BigHeaderChange(m1, m', tail, sh.small, sh.big, live, sh.chain[x].page);
  }

  lemma NewBinKept(m: Mem, m': Mem, heads: seq<int>, level: int, tail: int, sh: Shadow, live: map<int, int>, w: int,
      r: int)
    requires HeapOk(m, heads, level, tail, sh, live)
    requires NewBinStores(m, m', tail, w) && (w == 0 || (r in sh.big && w == Addr(r) + NEXT))
    ensures Kept(m, m', live)
  {
    BeyondBreakKept(m, m', tail, sh.small, sh.big, live, w, r);
  }

  /** The header of a new bin, and the link to it from the bin that was the newest so far. */
  method BinHeader(m0: Mem, header: int, pages: int, newest: int, ghost p: int) returns (m: Mem)
    requires header == Addr(p) && 0 < pages && 0 <= newest && newest + BIG_HEADER <= header
    ensures BigOk(m, p, Big(pages, true))
    ensures forall a | a < header && (newest == 0 || a != newest + NEXT) :: Load(m, a) == Load(m0, a)
  {
    m := m0[header + MAGIC := BIN_MAGIC];
    m := m[header + SIZE := pages * PAGE_SIZE - BIG_HEADER];
    m := m[header + PREV := newest];
    if newest != 0 {
      m := m[newest + NEXT := header];
    }
    m := m[header + NEXT := 0];
    m := m[header + STACK := 0];
  }

  /** Pages stay what they are: none disappears, changes its cells or its extent. */
  ghost predicate SameShape(sh: Shadow, sh': Shadow) {
    && (forall p | p in sh.small :: p in sh'.small && sh'.small[p].bucket == sh.small[p].bucket)
    && (forall p | p in sh.big :: p in sh'.big && sh'.big[p].pages == sh.big[p].pages)
    && (forall p | p in sh.big && p !in sh.small :: p !in sh'.small)
  }

  lemma KeptSame(m: Mem, live: map<int, int>)
    ensures Kept(m, m, live)
  {
  }

  lemma KeptTwice(m0: Mem, m1: Mem, m2: Mem, live: map<int, int>)
    requires Kept(m0, m1, live) && Kept(m1, m2, live)
    ensures Kept(m0, m2, live)
  {
    forall b, w | b in live && b <= w < b + live[b] ensures Load(m2, w) == Load(m0, w) {
      assert Load(m1, w) == Load(m0, w);
    }
  }

  /** What the search of the skip list finds is the smallest free bin that fits. */
  lemma BestFit(m: Mem, heads: seq<int>, level: int, tail: int, sh: Shadow, live: map<int, int>, size: int)
    requires HeapOk(m, heads, level, tail, sh, live)
    ensures var x := Place(sh.chain, size);
      && (Pointer(sh.chain, x) == 0 <==> x == |sh.chain|)
      && (forall p | FreeFit(sh.big, p, size) :: x < |sh.chain|)
      && (x < |sh.chain| ==> var q := sh.chain[x].page;
            && q in sh.big && sh.chain[x].size == BigSize(sh.big[q].pages) && FreeFit(sh.big, q, size) &&
              size <= sh.chain[x].size
            && Place(sh.chain, sh.chain[x].size) == x && Pointer(sh.chain, x) == Addr(q) && HEAD < q
            && forall p | FreeFit(sh.big, p, size) :: sh.big[q].pages <= sh.big[p].pages)
  {
    var c, x := sh.chain, Place(sh.chain, size);
    ChainMembers(sh.big, c);
    forall p | FreeFit(sh.big, p, size) ensures x < |c| && c[x].size <= BigSize(sh.big[p].pages) {
      BestOnChain(sh.big, c, size, p);
    }
    if x < |c| {
      assert IsFreeBig(sh.big, c[x]);
      SameSizeSamePlace(c, size, x);
    }
  }

  lemma SameSizeSamePlace(c: seq<SkipNode>, size: int, x: nat)
    requires ChainOk(c) && x < |c| && x == Place(c, size)
    ensures Place(c, c[x].size) == x
  {
    var y := Place(c, c[x].size);
    assert IsPlace(c, c[x].size, y) && IsPlace(c, size, x);
  }

  lemma NothingAtNull(m: Mem, heads: seq<int>, level: int, tail: int, sh: Shadow, live: map<int, int>)
    requires HeapOk(m, heads, level, tail, sh, live)
    ensures 0 !in live
  {
    assert 0 in live ==> BlockOk(sh.small, sh.big, 0, live[0]);
    assert 0 % PAGE_SIZE == 0 && (0 - 1) / PAGE_SIZE == -1;
  }

  lemma InsidePage(p: int, a: int)
    requires Addr(p) < a < Addr(p + 1)
    ensures a % PAGE_SIZE != 0
  {
  }

  lemma CellPage(m: Mem, small: map<int, Small>, p: int, a: int)
    requires SmallsOk(m, small) && p in small && IsCell(p, small[p].bucket, a)
    ensures a % PAGE_SIZE != 0 && Load(m, Addr(p) + SIZE) == small[p].bucket < BIG_BIN &&
      Load(m, Addr(p) + MAGIC) == BIN_MAGIC
  {
    CellBounds(p, small[p].bucket, a);
    InsidePage(p, a);
    assert SmallOk(m, p, small[p]);
  }

  lemma BinPage(m: Mem, big: map<int, Big>, p: int)
    requires BigsOk(m, big) && p in big
    ensures Load(m, Addr(p) + SIZE) == BigSize(big[p].pages) > NUM_BINS && Load(m, Addr(p) + MAGIC) == BIN_MAGIC
  {
    assert BigOk(m, p, big[p]);
  }

  /**
   Masking the offset in the page finds the header of a block exactly if the block is not
   page-aligned; of one that is, it finds the first word of the user.
   */
  lemma MaskFindsHeader(tail: int, small: map<int, Small>, big: map<int, Big>, live: map<int, int>, a: int)
    requires LayoutOk(tail, small, big) && LiveOk(small, big, live) && a in live
    ensures a - a % PAGE_SIZE == Addr(Owner(a)) <==> a % PAGE_SIZE != 0
    ensures a % PAGE_SIZE == 0 ==> a - a % PAGE_SIZE == a && Owner(a) in big && Addr(Owner(a)) == a - PAGE_SIZE
  {
    assert BlockOk(small, big, a, live[a]);
    BlockPlace(small, big, a, live[a]);
  }

  lemma BlockPlace(small: map<int, Small>, big: map<int, Big>, a: int, size: int)
    requires BlockOk(small, big, a, size)
    ensures a % PAGE_SIZE == 0 ==> Addr(Owner(a)) == a - PAGE_SIZE
    ensures a % PAGE_SIZE != 0 ==> Addr(Owner(a)) == a - a % PAGE_SIZE
    ensures Owner(a) in small ==> a % PAGE_SIZE != 0
    ensures Owner(a) in small || Owner(a) in big
  {
    if Owner(a) in small {
      CellBounds(Owner(a), small[Owner(a)].bucket, a);
    }
  }

  /** Masking off the page offset of a block leads to the header of its page, whose size field tells what it is. */
  lemma BlockHeader(m: Mem, heads: seq<int>, level: int, tail: int, sh: Shadow, live: map<int, int>, a: int)
    requires HeapOk(m, heads, level, tail, sh, live) && a in live
    ensures var p := Owner(a);
      && (p in sh.small || p in sh.big) && Load(m, Addr(p) + MAGIC) == BIN_MAGIC && !(p in sh.small && p in sh.big)
      && (p in sh.small ==> a % PAGE_SIZE != 0 && Load(m, Addr(p) + SIZE) == sh.small[p].bucket < BIG_BIN)
      && (p in sh.small ==> live[a] <= CellSize(sh.small[p].bucket))
      && (p in sh.big ==> Load(m, Addr(p) + SIZE) == BigSize(sh.big[p].pages) > NUM_BINS && sh.big[p].busy)
      && (p in sh.big && a % PAGE_SIZE != 0 ==> a == Addr(p) + BIG_HEADER && live[a] <= BigSize(sh.big[p].pages))
  {
    var p := Owner(a);
    assert BlockOk(sh.small, sh.big, a, live[a]);
    if p in sh.small {
      CellPage(m, sh.small, p, a);
    } else {
      BinPage(m, sh.big, p);
    }
  }

  lemma CellHeader(m: Mem, heads: seq<int>, level: int, tail: int, sh: Shadow, live: map<int, int>, p: int, a: int)
    requires HeapOk(m, heads, level, tail, sh, live) && p in sh.small && a in live && Owner(a) == p
    ensures 0 <= sh.small[p].bucket < BIG_BIN == |heads| == |sh.lists|
    ensures Load(m, Addr(p) + STACK) == 0 <==> sh.small[p].free == []
  {
    assert SmallOk(m, p, sh.small[p]);
  }

  lemma CellFreedKept(m: Mem, m': Mem, heads: seq<int>, level: int, tail: int, sh: Shadow, live: map<int, int>, p: int,
      a: int)
    requires HeapOk(m, heads, level, tail, sh, live) && p in sh.small && a in live && Owner(a) == p
    requires forall w | w != a && w != Addr(p) + NEXT && w != Addr(p) + STACK :: Load(m', w) == Load(m, w)
    ensures Kept(m, m', live - {a})
  {
    assert BlockOk(sh.small, sh.big, a, live[a]);
    forall w | !Hidden(tail, sh.small, sh.big, w) && w != a ensures Load(m', w) == Load(m, w) {
      assert p in sh.small && !(Addr(p) <= w < Addr(p) + SMALL_HEADER);
    }
    FreedChanges(m, m', tail, sh.small, sh.big, live, a, a);
  }

  lemma BinFreedKept(m: Mem, m': Mem, heads: seq<int>, level: int, tail: int, sh: Shadow, live: map<int, int>, p: int,
      a: int, x: nat, n: SkipNode)
    requires HeapOk(m, heads, level, tail, sh, live) && p in sh.big && a in live && Owner(a) == p && x <= |sh.chain| &&
      n.page == p
    requires SkipList.OnlyLinksChange(Pushed(m, p), m', InsertAt(sh.chain, x, n))
    ensures Kept(m, m', live - {a})
  {
    hide LiveOk, SkipOk, SmallsOk, BigsOk, ListsOk, LayoutOk;
    var d := InsertAt(sh.chain, x, n);
    InsertedMembers(sh.big, sh.chain, x, n);
    hide InsertAt, ChainMatches;
    assert |d| == |sh.chain| + 1 && forall j | 0 <= j < |d| :: d[j].page in sh.big;
    OpenWordsKept(m, m', tail, sh.small, sh.big, d, p);
    AlignedFreed(m, m', tail, sh.small, sh.big, live, p, a);
  }

  lemma OpenWordsKept(m: Mem, m': Mem, tail: int, small: map<int, Small>, big: map<int, Big>, d: seq<SkipNode>, p: int)
    requires SkipList.OnlyLinksChange(Pushed(m, p), m', d) && p in big && forall j | 0 <= j < |d| :: d[j].page in big
    ensures forall w | !Hidden(tail, small, big, w) && w != Addr(p) + BIG_HEADER :: Load(m', w) == Load(m, w)
  {
    forall w | !Hidden(tail, small, big, w) && w != Addr(p) + BIG_HEADER ensures Load(m', w) == Load(m, w) {
      forall j | 0 <= j < |d| ensures !SkipList.IsLink(d[j].page, w) {
        assert d[j].page in big && !(Addr(d[j].page) <= w < Addr(d[j].page) + BIG_HEADER);
      }
      assert p in big && !(Addr(p) <= w < Addr(p) + BIG_HEADER);
    }
  }

  /** A bin holds one block. */
  lemma OneBlockPerBin(small: map<int, Small>, big: map<int, Big>, live: map<int, int>, p: int, a: int, b: int)
    requires LiveOk(small, big, live) && p in big && p !in small && a in live && b in live && Owner(a) == p &&
      Owner(b) == p
    ensures a == b
  {
    assert BlockOk(small, big, a, live[a]) && BlockOk(small, big, b, live[b]);
  }

  /** The first word of the bin belongs to its one block, or, if that is page-aligned, to no block. */
  lemma AlignedFreed(m: Mem, m': Mem, tail: int, small: map<int, Small>, big: map<int, Big>, live: map<int, int>,
      p: int, a: int)
    requires LayoutOk(tail, small, big) && LiveOk(small, big, live) && a in live && p in big && Owner(a) == p
    requires forall w | !Hidden(tail, small, big, w) && w != Addr(p) + BIG_HEADER :: Load(m', w) == Load(m, w)
    ensures Kept(m, m', live - {a})
  {
    forall b, w | b in live - {a} && b <= w < b + live[b] ensures Load(m', w) == Load(m, w) {
      if Hidden(tail, small, big, w) {
        HiddenFromBlocks(tail, small, big, live, b, w);
      }
      OtherBlock(tail, small, big, live, p, a, b);
    }
  }

  lemma OtherBlock(tail: int, small: map<int, Small>, big: map<int, Big>, live: map<int, int>, p: int, a: int, b: int)
    requires LayoutOk(tail, small, big) && LiveOk(small, big, live) && a in live && p in big && Owner(a) == p &&
      b in live && b != a
    ensures !(b <= Addr(p) + BIG_HEADER < b + live[b])
  {
    if Owner(b) == p {
      OneBlockPerBin(small, big, live, p, a, b);
    }
    BlockInPages(tail, small, big, b, live[b]);
  }

  lemma LiveAligned(tail: int, small: map<int, Small>, big: map<int, Big>, live: map<int, int>, a: int, size: int)
    requires LayoutOk(tail, small, big) && LiveOk(small, big, live) && a in live && a % PAGE_SIZE != 0
    requires 0 <= size && live[a] == size + PAGE_SIZE - BIG_HEADER
    ensures a == Addr(Owner(a)) + BIG_HEADER && Addr(Owner(a) + 1) !in live
    ensures LiveOk(small, big, (live - {a})[Addr(Owner(a) + 1) := size])
  {
    hide LiveOk, LayoutOk;
    PlainBin(tail, small, big, live, Owner(a), a);
    LiveAfterValloc(small, big, live, Owner(a), size);
  }

  lemma AlignedBlock(m: Mem, heads: seq<int>, level: int, tail: int, sh: Shadow, live: map<int, int>, a: int, size: int)
    requires HeapOk(m, heads, level, tail, sh, live) && a in live && a % PAGE_SIZE != 0
    requires 0 <= size && live[a] == size + PAGE_SIZE - BIG_HEADER
    ensures var out := a + (PAGE_SIZE - BIG_HEADER);
      && out == Addr(Owner(a) + 1) && out !in live && HeapOk(m, heads, level, tail, sh, (live - {a})[out := size])
  {
    LiveAligned(tail, sh.small, sh.big, live, a, size);
    assert a + (PAGE_SIZE - BIG_HEADER) == Addr(Owner(a) + 1);
  }

  lemma PageStart(p: int)
    ensures Addr(p) % PAGE_SIZE == 0
  {
  }

  /** A block too large for a cell and not page-aligned is the whole of a big bin. */
  lemma PlainBin(tail: int, small: map<int, Small>, big: map<int, Big>, live: map<int, int>, p: int, a: int)
    requires LayoutOk(tail, small, big) && LiveOk(small, big, live)
    requires a in live && p == Owner(a) && live[a] > CellSize(BIG_BIN - 1) && a % PAGE_SIZE != 0
    ensures p !in small && p in big && a == Addr(p) + BIG_HEADER && Addr(p + 1) !in live
  {
    assert BlockOk(small, big, a, live[a]);
    PageStart(p + 1);
  }

  lemma StoreKept(m: Mem, heads: seq<int>, level: int, tail: int, sh: Shadow, live: map<int, int>, a: int, w: int,
      v: int)
    requires HeapOk(m, heads, level, tail, sh, live) && a in live && a <= w < a + live[a]
    ensures Kept(m, m[w := v], live - {a})
  {
    BlockInPages(tail, sh.small, sh.big, a, live[a]);
    forall b, u | b in live - {a} && b <= u < b + live[b] ensures Load(m[w := v], u) == Load(m, u) {
      OneBlockPerWord(tail, sh.small, sh.big, live, a, b, w);
    }
  }

  ghost function CapacityOf(small: map<int, Small>, big: map<int, Big>, a: int): int {
    BlockEnd(small, big, a) - a
  }

  /** The size field leads to the capacity of a block. */
  lemma Capacity(m: Mem, heads: seq<int>, level: int, tail: int, sh: Shadow, live: map<int, int>, a: int)
    requires HeapOk(m, heads, level, tail, sh, live) && a in live && a % PAGE_SIZE != 0
    ensures var s := Load(m, Addr(Owner(a)) + SIZE); var c := if s < BIG_BIN then CellSize(s) else s;
      c == CapacityOf(sh.small, sh.big, a) && live[a] <= c && c % 4 == 0
    ensures Owner(a) in sh.small || Owner(a) in sh.big
  {
    hide HeapOk;
    BlockHeader(m, heads, level, tail, sh, live, a);
    var p := Owner(a);
    if p in sh.small {
      WholeWords(sh.small[p].bucket, 0);
    } else {
      WholeWords(0, sh.big[p].pages);
    }
  }

  lemma WholeWords(bucket: int, pages: int)
    ensures CellSize(bucket) % 4 == 0 && BigSize(pages) % 4 == 0
  {
  }

  lemma Moved(m0: Mem, m1: Mem, m2: Mem, m3: Mem, live: map<int, int>, a: int, item: int, size: int, oldSize: int)
    requires a in live && item !in live && live[a] <= oldSize < size
    requires Kept(m0, m1, live) && Kept(m1, m2, live[item := size] - {item}) && Kept(m2, m3, live[item := size] - {a})
    requires forall i | 0 <= i < oldSize && i % 4 == 0 :: Load(m2, item + i) == Load(m1, a + i)
    ensures Kept(m0, m3, live - {a})
    ensures forall i | 0 <= i < live[a] && i < size && i % 4 == 0 :: Load(m3, item + i) == Load(m0, a + i)
  {
    forall b, w | b in live - {a} && b <= w < b + live[b] ensures Load(m3, w) == Load(m0, w) {
      assert b in live && b in live[item := size] - {item} && b in live[item := size] - {a};
    }
    forall i | 0 <= i < live[a] && i < size && i % 4 == 0 ensures Load(m3, item + i) == Load(m0, a + i) {
      assert Load(m2, item + i) == Load(m1, a + i);
      assert item in live[item := size] - {a};
      assert Load(m3, item + i) == Load(m2, item + i);
      assert Load(m1, a + i) == Load(m0, a + i);
    }
  }

  /** Even the spare room of a block does not overlap another one. */
  lemma BlocksApart(m: Mem, heads: seq<int>, level: int, tail: int, sh: Shadow, live: map<int, int>, a: int, b: int)
    requires HeapOk(m, heads, level, tail, sh, live) && a in live && b in live && a != b
    ensures BlockEnd(sh.small, sh.big, a) <= b || b + live[b] <= a
  {
    if a < b {
      LiveBlocksDisjoint(tail, sh.small, sh.big, live, a, b);
    } else {
      LiveBlocksDisjoint(tail, sh.small, sh.big, live, b, a);
    }
  }

  /** A block may be asked for any size up to the capacity of its cell or bin. */
  lemma Resized(m: Mem, heads: seq<int>, level: int, tail: int, sh: Shadow, live: map<int, int>, a: int, size: int)
    requires HeapOk(m, heads, level, tail, sh, live) && a in live && a % PAGE_SIZE != 0 && 0 <= size
    requires size <= CapacityOf(sh.small, sh.big, a)
    ensures HeapOk(m, heads, level, tail, sh, live[a := size])
  {
    assert BlockOk(sh.small, sh.big, a, live[a]);
    var live' := live[a := size];
    forall b | b in live' ensures BlockOk(sh.small, sh.big, b, live'[b]) {
      assert BlockOk(sh.small, sh.big, b, live[b]);
    }
    CellsAfterTake(sh.small, live, a, size);
  }

  // ---------- What holds at every moment ----------

  /** Two blocks handed out never overlap, and each has at least the size it was asked for. */
  lemma BlocksAreApart(m: Mem, heads: seq<int>, level: int, tail: int, sh: Shadow, live: map<int, int>, a: int, b: int)
    requires HeapOk(m, heads, level, tail, sh, live) && a in live && b in live && a != b
    ensures 0 <= live[a] && (a + live[a] <= b || b + live[b] <= a)
  {
    BlockInPages(tail, sh.small, sh.big, a, live[a]);
    BlocksApart(m, heads, level, tail, sh, live, a, b);
    BlocksApart(m, heads, level, tail, sh, live, b, a);
  }

  /** A block lies in its own page or pages below the break, behind their header, and apart from all other headers. */
  lemma BlockIsInside(m: Mem, heads: seq<int>, level: int, tail: int, sh: Shadow, live: map<int, int>, a: int, q: int)
    requires HeapOk(m, heads, level, tail, sh, live) && a in live
    ensures Owner(a) in sh.small || Owner(a) in sh.big
    ensures Addr(Owner(a)) + SMALL_HEADER <= a && a + live[a] <= Addr(tail)
    ensures Owner(a) in sh.small ==> a + live[a] <= Addr(Owner(a) + 1)
    ensures Owner(a) in sh.big ==> a + live[a] <= Addr(Owner(a) + sh.big[Owner(a)].pages)
    ensures q in sh.small ==> a + live[a] <= Addr(q) || Addr(q) + SMALL_HEADER <= a
    ensures q in sh.big ==> a + live[a] <= Addr(q) || Addr(q) + BIG_HEADER <= a
  {
    BlockInPages(tail, sh.small, sh.big, a, live[a]);
    LiveBlocksAvoidHeaders(tail, sh.small, sh.big, live, a, q);
  }

  /** Every cell is either free or handed out: none is lost, none is both. */
  lemma CellsAreConserved(m: Mem, heads: seq<int>, level: int, tail: int, sh: Shadow, live: map<int, int>, p: int,
      a: int)
    requires HeapOk(m, heads, level, tail, sh, live) && p in sh.small && IsCell(p, sh.small[p].bucket, a)
    ensures a in live <==> a !in sh.small[p].free
  {
    assert Covered(p, sh.small[p], live);
    if a in sh.small[p].free {
      FreeIsNotLive(sh.small, sh.big, live, p, a);
    }
  }

  /** A page is on the list of its bucket exactly when its stack is not empty. */
  lemma ListedIfRoom(m: Mem, heads: seq<int>, level: int, tail: int, sh: Shadow, live: map<int, int>, p: int)
    requires HeapOk(m, heads, level, tail, sh, live) && p in sh.small
    ensures 0 <= sh.small[p].bucket < |sh.lists|
    ensures p in sh.lists[sh.small[p].bucket] <==> Load(m, Addr(p) + STACK) != 0
  {
    assert SmallOk(m, p, sh.small[p]);
    var b := sh.small[p].bucket;
    assert BucketOk(m, heads[b], sh.small, sh.lists[b], b);
    if p in sh.lists[b] {
      var k :| 0 <= k < |sh.lists[b]| && sh.lists[b][k] == p;
      assert HasRoom(sh.small, b, sh.lists[b][k]);
    }
  }

  class Heap {
    var mem: Mem
    var binHead: seq<int>
    var bigLevel: int
    var newestBig: int
    var heapTail: int
    ghost var tail: int
    ghost var sh: Shadow
    /** The blocks handed out: the address and the size that was asked for. */
    ghost var live: map<int, int>

    ghost predicate Valid()
      reads this
    {
      && heapTail == Addr(tail) <= ADDRESS_SPACE
      && HeapOk(mem, binHead, bigLevel, tail, sh, live)
      && NewestOk(newestBig, sh.big)
    }

    /** The address space can take `size` more bytes, rounded up to pages. */
    predicate Room(size: int)
      reads this
    {
      heapTail + size + 2 * PAGE_SIZE <= ADDRESS_SPACE
    }

    /** `heap_install`: the heap starts at the first page boundary after the frame pointer. */
    constructor (framePtr: int)
      requires Addr(HEAD) <= framePtr < ADDRESS_SPACE - PAGE_SIZE
      ensures Valid() && live == map[]
    {
      heapTail := framePtr + PAGE_SIZE - (framePtr + PAGE_SIZE) % PAGE_SIZE;
      tail := (framePtr + PAGE_SIZE) / PAGE_SIZE;
      mem := map[];
      binHead := seq(BIG_BIN, _ => 0);
      bigLevel := 0;
      newestBig := 0;
      sh := Shadow(map[], map[], seq(BIG_BIN, _ => []), []);
      live := map[];
      new;
      forall i | 0 <= i <= SKIP_MAX_LEVEL ensures LevelOk(mem, [], i) {
        assert NodeOk(mem, [], i, -1);
      }
    }

    /** `sbrk`: fresh, zeroed pages at the break. */
    method Sbrk(pages: nat) returns (address: int)
      requires heapTail % 4 == 0
      modifies `mem, `heapTail
      ensures address == old(heapTail) && heapTail == address + PAGE_SIZE * pages
      ensures SameOutside(old(mem), mem, address, heapTail)
      ensures forall a | address <= a < heapTail && a % 4 == 0 :: Load(mem, a) == 0
    {
      address := heapTail;
      heapTail := heapTail + PAGE_SIZE * pages;
      var a := address;
      while a < heapTail
        invariant heapTail == address + PAGE_SIZE * pages
        invariant address <= a <= heapTail && a % 4 == 0 && heapTail % 4 == 0
        invariant SameOutside(old(mem), mem, address, heapTail)
        invariant forall w | address <= w < a && w % 4 == 0 :: Load(mem, w) == 0
      {
        ghost var before := mem;
        mem := mem[a := 0];
        forall w | address <= w < a + 4 && w % 4 == 0 ensures Load(mem, w) == 0 {
          assert w < a ==> Load(before, w) == 0;
          assert w >= a ==> w == a;
        }
        a := a + 4;
      }
    }

    /** A new page of small cells comes to the front of its list. */
    method NewPage(b: int) returns (header: int)
      requires Valid() && 0 <= b < BIG_BIN && Room(0)
      modifies `mem, `heapTail, `tail, `binHead, `sh
      ensures Valid() && tail == old(tail) + 1 && header == Addr(old(tail))
      ensures sh == old(sh).(small := old(sh).small[old(tail) := Small(b, AllCells(old(tail), b))],
                             lists := old(sh).lists[b := [old(tail)] + old(sh).lists[b]])
      ensures Kept(old(mem), mem, live)
    {
      hide HeapOk, Kept, SmallOk;
      ghost var p := tail;
      CountIsPositive(b);
      HeapShape(mem, binHead, bigLevel, tail, sh, live);
      header := Sbrk(1);
      assert header / PAGE_SIZE == p;
      mem := Format(mem, header / PAGE_SIZE, b, binHead[b]);
      AddPage(old(mem), mem, binHead, bigLevel, p, sh, live, b);
      GrownKept(old(mem), mem, binHead, bigLevel, p, sh, live, 1);
      binHead := binHead[b := header];
      tail := tail + 1;
      sh := sh.(small := sh.small[p := Small(b, AllCells(p, b))], lists := sh.lists[b := [p] + sh.lists[b]]);
    }

    /** The small path of `malloc`: the topmost free cell of the first page on the list. */
    method TakeCell(b: int, size: int) returns (item: int)
      requires Valid() && 0 <= b < BIG_BIN && 0 <= size <= CellSize(b) && sh.lists[b] != []
      modifies `mem, `binHead, `sh, `live
      ensures Valid() && sh.big == old(sh).big && item !in old(live) && live == old(live)[item := size]
      ensures item > 0 && item % PAGE_SIZE != 0 && SameShape(old(sh), sh)
      ensures Owner(item) in sh.small && sh.small[Owner(item)].bucket == b
      ensures Kept(old(mem), mem, old(live))
    {
      hide HeapOk, Kept;
      FirstOfList(mem, binHead, bigLevel, tail, sh, live, b);
      var header := binHead[b];
      ghost var p := sh.lists[b][0];
      ghost var sp := sh.small[p];
      item := Load(mem, header + STACK);
      InsidePage(p, item);
      mem := mem[header + STACK := Load(mem, item)];
      PoppedKept(old(mem), mem, binHead, bigLevel, tail, sh, live, p);
      if Load(mem, header + STACK) == 0 {
        binHead := binHead[b := Load(mem, header + NEXT)];
        mem := mem[header + NEXT := 0];
        PoppedKept(old(mem), mem, old(binHead), bigLevel, tail, sh, live, p);
        PopAndLeave(old(mem), mem, old(binHead), bigLevel, tail, sh, live, b, p, size);
        sh := sh.(lists := sh.lists[b := sh.lists[b][1..]]);
      } else {
        PopAndStay(old(mem), mem, old(binHead), bigLevel, tail, sh, live, b, p, size);
      }
      sh := sh.(small := sh.small[p := sp.(free := sp.free[1..])]);
      live := live[item := size];
    }

    /** The pages and the header of a new bin. */
    method WriteBin(pages: nat) returns (header: int, ghost w: int, ghost r: int)
      requires Valid() && 0 < pages
      modifies `mem, `heapTail, `newestBig
      ensures header == newestBig == Addr(tail) && heapTail == Addr(tail + pages)
      ensures NewBinStores(old(mem), mem, tail, w) && (w == 0 || (r in sh.big && w == Addr(r) + NEXT))
      ensures BigOk(mem, tail, Big(pages, true))
    {
      hide HeapOk, BigOk;
      HeapShape(mem, binHead, bigLevel, tail, sh, live);
      r := NewestBelow(mem, binHead, bigLevel, tail, sh, live, newestBig);
      hide NewestOk, SkipOk;
      w := if newestBig == 0 then 0 else newestBig + NEXT;
      header := Sbrk(pages);
      mem := BinHeader(mem, header, pages, newestBig, tail);
      newestBig := header;
    }

    /** A bin of its own at the break. */
    method NewBin(size: int) returns (item: int)
      requires Valid() && 0 <= size && Room(size)
      modifies `mem, `heapTail, `newestBig, `tail, `sh, `live
      ensures Valid() && item !in old(live) && live == old(live)[item := size] && item == Addr(old(tail)) + BIG_HEADER
      ensures sh.small == old(sh).small && sh.big == old(sh).big[old(tail) := Big(tail - old(tail), true)]
      ensures tail == old(tail) + (size + BIG_HEADER) / PAGE_SIZE + 1
      ensures Kept(old(mem), mem, old(live))
    {
      hide HeapOk, Kept, BigOk, NewestOk, NewBinStores;
      var pages := (size + BIG_HEADER) / PAGE_SIZE + 1;
      ghost var m0, p, b := mem, tail, Big(pages, true);
      var header, w, r := WriteBin(pages);
      AddBig(m0, mem, binHead, bigLevel, p, sh, live, b, w, r, size);
      NewBinKept(m0, mem, binHead, bigLevel, p, sh, live, w, r);
      tail := tail + pages;
      sh := sh.(big := sh.big[p := b]);
      NewestIs(newestBig, sh.big, p);
      item := header + BIG_HEADER;
      live := live[item := size];
    }

    /** The big path of `malloc` on the bin the search has found: the first of its size. */
    method TakeBin(header: int, ghost x: nat, size: int) returns (item: int)
      requires Valid() && x < |sh.chain| && header == Addr(sh.chain[x].page) && x == Place(sh.chain, sh.chain[x].size)
      requires 0 <= size <= sh.chain[x].size
      modifies `mem, `bigLevel, `sh, `live
      ensures Valid() && item !in old(live) && live == old(live)[item := size] && item == header + BIG_HEADER
      ensures sh.small == old(sh).small
      ensures old(sh).chain[x].page in old(sh).big
      ensures sh.big == old(sh).big[old(sh).chain[x].page := old(sh).big[old(sh).chain[x].page].(busy := true)]
      ensures Kept(old(mem), mem, old(live))
    {
      hide HeapOk, Kept, SkipOk, SkipList.OnlyLinksChange;
      ghost var p := sh.chain[x].page;
      OnFreeList(mem, binHead, bigLevel, tail, sh, live, x);
      mem, bigLevel := SkipList.Delete(mem, bigLevel, header, x, sh.chain);
      ghost var m1 := mem;
      FrontStackKept(old(mem), m1, binHead, old(bigLevel), tail, sh, live, x);
      item := Load(mem, header + STACK);
      mem := mem[header + STACK := Load(mem, item)];
      TakeBig(old(mem), m1, mem, binHead, old(bigLevel), bigLevel, tail, sh, live, x, p, size);
      TakenKept(old(mem), m1, mem, binHead, old(bigLevel), tail, sh, live, x);
      sh := sh.(big := sh.big[p := sh.big[p].(busy := true)], chain := RemoveAt(sh.chain, x));
      live := live[item := size];
    }

    /** `free` of a cell: a page that was full comes back to its list. */
    method FreeCell(header: int, bucket: int, ptr: int, ghost p: int)
      requires Valid() && p in sh.small && header == Addr(p) && ptr in live && Owner(ptr) == p &&
        bucket == sh.small[p].bucket
      modifies `mem, `binHead, `sh, `live
      ensures Valid() && live == old(live) - {ptr} && Kept(old(mem), mem, live)
    {
      hide HeapOk, Kept;
      CellHeader(mem, binHead, bigLevel, tail, sh, live, p, ptr);
      ghost var sp := sh.small[p];
      if Load(mem, header + STACK) == 0 {
        mem := mem[header + NEXT := binHead[bucket]];
        binHead := binHead[bucket := header];
        ghost var m1 := mem;
        mem := mem[ptr := Load(mem, header + STACK)];
        mem := mem[header + STACK := ptr];
        PushAndReturn(old(mem), m1, mem, old(binHead), bigLevel, tail, sh, live, bucket, p, ptr);
        CellFreedKept(old(mem), mem, old(binHead), bigLevel, tail, sh, live, p, ptr);
        sh := sh.(lists := sh.lists[bucket := [p] + sh.lists[bucket]]);
      } else {
        mem := mem[ptr := Load(mem, header + STACK)];
        mem := mem[header + STACK := ptr];
        PushAndStay(old(mem), mem, binHead, bigLevel, tail, sh, live, bucket, p, ptr);
        CellFreedKept(old(mem), mem, old(binHead), bigLevel, tail, sh, live, p, ptr);
      }
      sh := sh.(small := sh.small[p := sp.(free := [ptr] + sp.free)]);
      live := live - {ptr};
    }

    /** `free` of a block of a big bin, plain or page-aligned: the whole bin goes to the skip list. */
    method FreeBin(header: int, random: int, ghost p: int, ghost ptr: int)
      requires Valid() && p in sh.big && header == Addr(p) && ptr in live && Owner(ptr) == p
      requires 0 <= random <= SKIP_MAX_LEVEL
      modifies `mem, `bigLevel, `sh, `live
      ensures Valid() && live == old(live) - {ptr} && Kept(old(mem), mem, live)
    {
      hide HeapOk, Kept, SkipOk, Fresh, SkipList.OnlyLinksChange;
      ghost var n := SkipNode(p, BigSize(sh.big[p].pages), random);
      ghost var x := Place(sh.chain, n.size);
      PushBig(mem, binHead, bigLevel, tail, sh, live, p, ptr, random);
      mem := mem[header + BIG_HEADER := Load(mem, header + STACK)];
      mem := mem[header + STACK := header + BIG_HEADER];
      ghost var m1 := mem;
      mem, bigLevel := SkipList.Insert(mem, bigLevel, header, random, n, sh.chain);
      GiveBig(old(mem), mem, binHead, old(bigLevel), bigLevel, tail, sh, live, p, ptr, x, n);
      BinFreedKept(old(mem), mem, binHead, old(bigLevel), tail, sh, live, p, ptr, x, n);
      sh := sh.(big := sh.big[p := sh.big[p].(busy := false)], chain := InsertAt(sh.chain, x, n));
      live := live - {ptr};
    }

    /**
     `malloc`.  A block of at least `size` bytes that was not handed out, with no other block
     touched; the heap grows only if no page of the right cells has room, or no free bin is
     large enough, and of the bins that are the smallest is taken.
     */
    method Malloc(size: int) returns (item: int)
      requires Valid() && 0 <= size && Room(size)
      modifies this
      ensures Valid() && Kept(old(mem), mem, old(live)) && SameShape(old(sh), sh)
      ensures size == 0 ==> item == 0 && mem == old(mem) && live == old(live) && tail == old(tail)
      ensures size > 0 ==> item > 0 && item % PAGE_SIZE != 0 && item !in old(live) && live == old(live)[item := size]
      ensures 0 < size <= CellSize(BIG_BIN - 1) && (exists p :: HasRoom(old(sh).small, BinOf(size), p)) ==>
        tail == old(tail)
      ensures 0 < size <= CellSize(BIG_BIN - 1) ==>
        Owner(item) in sh.small && sh.small[Owner(item)].bucket == BinOf(size) && tail <= old(tail) + 1
      ensures size > CellSize(BIG_BIN - 1) && (forall p :: !FreeFit(old(sh).big, p, size)) ==>
        item == Addr(old(tail)) + BIG_HEADER && tail == old(tail) + (size + BIG_HEADER) / PAGE_SIZE + 1
      ensures forall p | size > CellSize(BIG_BIN - 1) && FreeFit(old(sh).big, p, size) ::
        tail == old(tail) && FreeFit(old(sh).big, Owner(item), size) &&
          old(sh).big[Owner(item)].pages <= old(sh).big[p].pages
    {
      hide HeapOk, Kept, SkipOk;
      if size == 0 {
        KeptSame(mem, live);
        return 0;
      }
      BinIsSmallestFit(size);
      var bucket := BinOf(size);
      HeapShape(mem, binHead, bigLevel, tail, sh, live);
      if bucket < BIG_BIN {
        FirstOfList(mem, binHead, bigLevel, tail, sh, live, bucket);
        ghost var m0 := mem;
        if binHead[bucket] == 0 {
          var header := NewPage(bucket);
        } else {
          KeptSame(mem, live);
        }
        ghost var m1 := mem;
        item := TakeCell(bucket, size);
        KeptTwice(m0, m1, mem, old(live));
      } else {
        item := MallocBig(size);
      }
    }

    /** The part of `malloc` for sizes that no small bin holds. */
    method MallocBig(size: int) returns (item: int)
      requires Valid() && size > CellSize(BIG_BIN - 1) && Room(size)
      modifies this
      ensures Valid() && Kept(old(mem), mem, old(live)) && SameShape(old(sh), sh)
      ensures item > 0 && item % PAGE_SIZE != 0 && item !in old(live) && live == old(live)[item := size]
      ensures (forall p :: !FreeFit(old(sh).big, p, size)) ==>
        item == Addr(old(tail)) + BIG_HEADER && tail == old(tail) + (size + BIG_HEADER) / PAGE_SIZE + 1
      ensures forall p | FreeFit(old(sh).big, p, size) ::
        tail == old(tail) && FreeFit(old(sh).big, Owner(item), size) &&
          old(sh).big[Owner(item)].pages <= old(sh).big[p].pages
    {
      hide HeapOk, Kept, SkipOk;
      HeapShape(mem, binHead, bigLevel, tail, sh, live);
      var header := SkipList.FindBest(mem, bigLevel, size, sh.chain);
      BestFit(mem, binHead, bigLevel, tail, sh, live, size);
      if header != 0 {
        item := TakeBin(header, Place(sh.chain, size), size);
        OwnerOfBig(header / PAGE_SIZE);
      } else {
        item := NewBin(size);
      }
      InsidePage((item - BIG_HEADER) / PAGE_SIZE, item);
    }

    /**
     `free` of a block handed out, at the level the next random number selects if it goes to
     the skip list.
     */
    method Free(ptr: int, random: int)
      requires Valid() && (ptr == 0 || ptr in live) && 0 <= random <= SKIP_MAX_LEVEL
      modifies `mem, `binHead, `bigLevel, `sh, `live
      ensures Valid() && live == old(live) - {ptr} && Kept(old(mem), mem, live)
    {
      hide HeapOk, Kept;
      if ptr == 0 {
        NothingAtNull(mem, binHead, bigLevel, tail, sh, live);
        KeptSame(mem, live);
        return;
      }
      var at := if ptr % PAGE_SIZE == 0 then ptr - 1 else ptr;
      var header := at - at % PAGE_SIZE;
      ghost var p := Owner(ptr);
      BlockHeader(mem, binHead, bigLevel, tail, sh, live, ptr);
      assert header == Addr(p);
      if Load(mem, header + MAGIC) != BIN_MAGIC {
        return;
      }
      var bucket := Load(mem, header + SIZE);
      if bucket > NUM_BINS {
        FreeBin(header, random, p, ptr);
      } else {
        FreeCell(header, bucket, at, p);
      }
    }

    /** `valloc`: a page-aligned block, in a bin of its own. */
    method Valloc(size: int) returns (out: int)
      requires Valid() && 0 <= size && Room(size + PAGE_SIZE)
      modifies this
      ensures Valid() && Kept(old(mem), mem, old(live))
      ensures out % PAGE_SIZE == 0 && out !in old(live) && live == old(live)[out := size]
    {
      hide HeapOk, Kept;
      var trueSize := size + PAGE_SIZE - BIG_HEADER;
      var result := Malloc(trueSize);
      out := result + (PAGE_SIZE - BIG_HEADER);
      AlignedBlock(mem, binHead, bigLevel, tail, sh, live, result, size);
      PageStart(Owner(result) + 1);
      assert live - {result} == old(live);
      live := (live - {result})[out := size];
    }

    /** A user stores a word in a block. */
    method UserStore(ptr: int, w: int, v: int)
      requires Valid() && ptr in live && ptr <= w < ptr + live[ptr]
      modifies `mem
      ensures Valid() && mem == old(mem)[w := v] && Kept(old(mem), mem, live - {ptr})
    {
      hide HeapOk, Kept;
      StoreInBlock(mem, binHead, bigLevel, tail, sh, live, ptr, w, v);
      StoreKept(mem, binHead, bigLevel, tail, sh, live, ptr, w, v);
      mem := mem[w := v];
    }

    /** `memcpy` of whole words from one block to another. */
    method Copy(dst: int, src: int, size: int)
      requires Valid() && dst in live && 0 <= size <= live[dst] && size % 4 == 0 &&
        (src + size <= dst || dst + live[dst] <= src)
      modifies `mem
      ensures Valid() && Kept(old(mem), mem, live - {dst})
      ensures forall i | 0 <= i < size && i % 4 == 0 :: Load(mem, dst + i) == Load(old(mem), src + i)
    {
      hide HeapOk, Kept;
      var i := 0;
      KeptSame(mem, live - {dst});
      while i < size
        invariant 0 <= i <= size && i % 4 == 0
        invariant Valid() && Kept(old(mem), mem, live - {dst})
        invariant forall w | w < dst || dst + live[dst] <= w :: Load(mem, w) == Load(old(mem), w)
        invariant forall k | 0 <= k < i && k % 4 == 0 :: Load(mem, dst + k) == Load(old(mem), src + k)
      {
        ghost var m1 := mem;
        UserStore(dst, dst + i, Load(mem, src + i));
        KeptTwice(old(mem), m1, mem, live - {dst});
        forall k | 0 <= k < i + 4 && k % 4 == 0 ensures Load(mem, dst + k) == Load(old(mem), src + k) {
          assert k < i ==> Load(m1, dst + k) == Load(old(mem), src + k);
          assert k >= i ==> k == i;
        }
        i := i + 4;
      }
    }

    /**
     `realloc` to a size that is not zero, of null or of a block from `malloc` or `realloc`.
     Every word of the block as it was asked for before is found again in the result.
     */
    method Realloc(ptr: int, size: int, random: int) returns (item: int)
      requires Valid() && (ptr == 0 || (ptr in live && ptr % PAGE_SIZE != 0)) && 0 < size && Room(size) &&
        0 <= random <= SKIP_MAX_LEVEL
      modifies this
      ensures Valid() && Kept(old(mem), mem, old(live) - {ptr}) && live == (old(live) - {ptr})[item := size]
      ensures (item == ptr || item !in old(live)) && item % PAGE_SIZE != 0
      ensures ptr != 0 ==> forall i | 0 <= i < old(live)[ptr] && i < size && i % 4 == 0 ::
        Load(mem, item + i) == Load(old(mem), ptr + i)
    {
      hide HeapOk, Kept;
      if ptr == 0 {
        NothingAtNull(mem, binHead, bigLevel, tail, sh, live);
        assert live - {ptr} == live;
        item := Malloc(size);
        return;
      }
      BlockHeader(mem, binHead, bigLevel, tail, sh, live, ptr);
      Capacity(mem, binHead, bigLevel, tail, sh, live, ptr);
      var header := ptr - ptr % PAGE_SIZE;
      assert header == Addr(Owner(ptr));
      if Load(mem, header + MAGIC) != BIN_MAGIC {
        return 0;
      }
      var oldSize := Load(mem, header + SIZE);
      if oldSize < BIG_BIN {
        oldSize := CellSize(oldSize);
      }
      if oldSize >= size {
        Resized(mem, binHead, bigLevel, tail, sh, live, ptr, size);
        KeptSame(mem, live - {ptr});
        live := live[ptr := size];
        return ptr;
      }
      item := Malloc(size);
      ghost var m1 := mem;
      BlockHeader(m1, binHead, bigLevel, tail, sh, live, ptr);
      BlocksApart(m1, binHead, bigLevel, tail, sh, live, ptr, item);
      Copy(item, ptr, oldSize);
      ghost var m2 := mem;
      Free(ptr, random);
      Moved(old(mem), m1, m2, mem, old(live), ptr, item, size, oldSize);
      assert live == (old(live) - {ptr})[item := size];
    }
  }
}
