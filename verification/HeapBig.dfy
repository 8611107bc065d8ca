/**
 The steps of the allocator on big bins (src/memory/alloc.cpp:637-647, 692-717 and 757-843):
 taking a free bin off the skip list, adding a bin at the break, giving one back.
 */
module HeapBig {
  import opened SkipSpec
  import opened SkipList
  import opened HeapSpec
  import opened HeapSmall

  /** Only links of the skip list and the two stack words of bin `p` may have changed. */
  ghost predicate BinStores(m: Mem, m': Mem, c: seq<SkipNode>, p: int) {
    forall a | !IsLink(HEAD, a) && (forall j | 0 <= j < |c| :: !IsLink(c[j].page, a)) && a != Addr(p) + STACK &&
      a != Addr(p) + BIG_HEADER ::
      Load(m', a) == Load(m, a)
  }

  /** Nothing in the small pages and in the descriptions of the other big bins has changed. */
  ghost predicate BigStepFrame(m: Mem, m': Mem, small: map<int, Small>, big: map<int, Big>, p: int) {
    && (forall q | q in small :: Same(m, m', Addr(q), Addr(q + 1)))
    && (forall q | q in big && q != p :: DescriptionSame(m, m', q))
  }

  ghost predicate DescriptionSame(m: Mem, m': Mem, q: int) {
    Same(m, m', Addr(q) + STACK, Addr(q) + PREV) && Load(m', Addr(q) + BIG_HEADER) == Load(m, Addr(q) + BIG_HEADER)
  }

  lemma SmallsKept(m: Mem, m': Mem, small: map<int, Small>)
    requires SmallsOk(m, small)
    requires forall q | q in small :: Same(m, m', Addr(q), Addr(q + 1))
    ensures SmallsOk(m', small)
  {
    forall q | q in small ensures SmallOk(m', q, small[q]) {
      SmallFrame(m, m', q, small[q]);
    }
  }

  lemma ListsKept(m: Mem, m': Mem, heads: seq<int>, small: map<int, Small>, lists: seq<seq<int>>)
    requires ListsOk(m, heads, small, lists)
    requires forall q | q in small :: Same(m, m', Addr(q), Addr(q + 1))
    ensures ListsOk(m', heads, small, lists)
  {
    forall b | 0 <= b < BIG_BIN ensures BucketOk(m', heads[b], small, lists[b], b) {
      assert BucketOk(m, heads[b], small, lists[b], b);
      var l := lists[b];
      forall k | 0 <= k < |l| ensures Load(m', Addr(l[k]) + NEXT) == Load(m, Addr(l[k]) + NEXT) {
        assert HasRoom(small, b, l[k]);
        assert Same(m, m', Addr(l[k]), Addr(l[k] + 1));
      }
      ListFrame(m, m', heads[b], l);
    }
  }

  lemma BigsKept(m: Mem, m': Mem, small: map<int, Small>, big: map<int, Big>, p: int, b: Big)
    requires BigsOk(m, big) && BigStepFrame(m, m', small, big, p) && BigOk(m', p, b)
    ensures BigsOk(m', big[p := b])
  {
    var big' := big[p := b];
    forall q | q in big' ensures BigOk(m', q, big'[q]) {
      if q != p {
        assert DescriptionSame(m, m', q);
        BigFrame(m, m', q, big[q]);
      }
    }
  }

  lemma BinStoresFrame(m: Mem, m': Mem, tail: int, small: map<int, Small>, big: map<int, Big>, c: seq<SkipNode>, p: int)
    requires LayoutOk(tail, small, big) && BinStores(m, m', c, p) && p in big
    requires forall j | 0 <= j < |c| :: c[j].page in big
    ensures BigStepFrame(m, m', small, big, p)
    ensures Same(m, m', Addr(p) + SIZE, Addr(p) + PREV)
  {
    forall q | q in small ensures Same(m, m', Addr(q), Addr(q + 1)) {
      forall a | Addr(q) <= a < Addr(q + 1) ensures Load(m', a) == Load(m, a) {
        StoreMisses(tail, small, big, c, p, q, a);
      }
    }
    forall q | q in big && q != p ensures DescriptionSame(m, m', q) {
      forall a | Addr(q) + STACK <= a < Addr(q) + PREV || a == Addr(q) + BIG_HEADER ensures Load(m', a) == Load(m, a) {
        StoreMisses(tail, small, big, c, p, q, a);
      }
    }
    forall a | Addr(p) + SIZE <= a < Addr(p) + PREV ensures Load(m', a) == Load(m, a) {
      StoreMisses(tail, small, big, c, p, p, a);
    }
  }

  lemma StoreMisses(tail: int, small: map<int, Small>, big: map<int, Big>, c: seq<SkipNode>, p: int, q: int, a: int)
    requires LayoutOk(tail, small, big) && p in big
    requires forall j | 0 <= j < |c| :: c[j].page in big
    requires (q in small && Addr(q) <= a < Addr(q + 1))
      || (q in big && q != p && (Addr(q) + STACK <= a < Addr(q) + PREV || a == Addr(q) + BIG_HEADER))
      || (q == p && Addr(q) + SIZE <= a < Addr(q) + PREV)
    ensures !IsLink(HEAD, a) && (forall j | 0 <= j < |c| :: !IsLink(c[j].page, a)) && a != Addr(p) + STACK &&
      a != Addr(p) + BIG_HEADER
  {
  }

  lemma LayoutSamePages(tail: int, small: map<int, Small>, big: map<int, Big>, p: int, b: Big)
    requires LayoutOk(tail, small, big) && p in big && b.pages == big[p].pages
    ensures LayoutOk(tail, small, big[p := b])
  {
  }

  lemma StackedOk(m: Mem, m': Mem, p: int, b0: Big, b: Big)
    requires BigOk(m, p, b0) && b.pages == b0.pages && Same(m, m', Addr(p) + SIZE, Addr(p) + PREV)
    requires Load(m', Addr(p) + STACK) == (if b.busy then 0 else Addr(p) + BIG_HEADER)
    requires !b.busy ==> Load(m', Addr(p) + BIG_HEADER) == 0
    ensures BigOk(m', p, b)
  {
  }

  /** A step that touches links and the stack of one big bin. */
  lemma BigStep(m: Mem, m': Mem, heads: seq<int>, tail: int, sh: Shadow, c: seq<SkipNode>, p: int, b: Big)
    requires LayoutOk(tail, sh.small, sh.big) && SmallsOk(m, sh.small) && BigsOk(m, sh.big) &&
      ListsOk(m, heads, sh.small, sh.lists)
    requires p in sh.big && b.pages == sh.big[p].pages
    requires BinStores(m, m', c, p) && forall j | 0 <= j < |c| :: c[j].page in sh.big
    requires Load(m', Addr(p) + STACK) == (if b.busy then 0 else Addr(p) + BIG_HEADER)
    requires !b.busy ==> Load(m', Addr(p) + BIG_HEADER) == 0
    ensures LayoutOk(tail, sh.small, sh.big[p := b]) && SmallsOk(m', sh.small) && BigsOk(m', sh.big[p := b])
    ensures ListsOk(m', heads, sh.small, sh.lists)
  {
    BinStoresFrame(m, m', tail, sh.small, sh.big, c, p);
    SmallsKept(m, m', sh.small);
    ListsKept(m, m', heads, sh.small, sh.lists);
    LayoutSamePages(tail, sh.small, sh.big, p, b);
    assert BigOk(m, p, sh.big[p]);
    StackedOk(m, m', p, sh.big[p], b);
    BigsKept(m, m', sh.small, sh.big, p, b);
  }

  lemma ChainMembers(big: map<int, Big>, c: seq<SkipNode>)
    requires ChainMatches(big, c)
    ensures forall j | 0 <= j < |c| :: c[j].page in big && !big[c[j].page].busy
  {
    forall j | 0 <= j < |c| ensures c[j].page in big && !big[c[j].page].busy {
      assert IsFreeBig(big, c[j]);
    }
  }

  // ---------- Taking a free bin ----------

  lemma ChainWithout(big: map<int, Big>, c: seq<SkipNode>, x: nat)
    requires ChainOk(c) && ChainMatches(big, c) && x < |c|
    ensures c[x].page in big
    ensures ChainMatches(big[c[x].page := big[c[x].page].(busy := true)], RemoveAt(c, x))
  {
    assert IsFreeBig(big, c[x]);
    var p, d := c[x].page, RemoveAt(c, x);
    var big' := big[p := big[p].(busy := true)];
    forall j | 0 <= j < |d| ensures IsFreeBig(big', d[j]) {
      assert d[j] == c[if j < x then j else j + 1];
      assert IsFreeBig(big, d[j]);
    }
    forall q | q in big' && !big'[q].busy ensures OnChain(d, q) {
      assert OnChain(c, q);
      var j :| 0 <= j < |c| && c[j].page == q;
      assert d[if j < x then j else j - 1].page == q;
    }
  }

  lemma BlocksAfterTake(small: map<int, Small>, big: map<int, Big>, live: map<int, int>, p: int, b: Big, size: int)
    requires BlocksOk(small, big, live) && p !in small && (p in big ==> b.pages == big[p].pages)
    requires b.busy && 0 <= size <= BigSize(b.pages)
    ensures BlocksOk(small, big[p := b], live[Addr(p) + BIG_HEADER := size])
  {
    var a := Addr(p) + BIG_HEADER;
    var big', live' := big[p := b], live[a := size];
    OwnerOfBig(p);
    forall c | c in live' ensures BlockOk(small, big', c, live'[c]) {
      if c != a {
        assert BlockOk(small, big, c, live[c]);
      }
    }
  }

  lemma CellsAfterTake(small: map<int, Small>, live: map<int, int>, a: int, size: int)
    requires CellsOk(small, live)
    ensures CellsOk(small, live[a := size])
  {
    forall q | q in small ensures Covered(q, small[q], live[a := size]) {
      assert Covered(q, small[q], live);
    }
  }

  /** No block of a page that is free or not there yet is handed out. */
  lemma NoBlockYet(small: map<int, Small>, big: map<int, Big>, live: map<int, int>, p: int)
    requires BlocksOk(small, big, live) && p !in small && (p in big ==> !big[p].busy)
    ensures Addr(p) + BIG_HEADER !in live && Addr(p + 1) !in live
  {
    OwnerOfBig(p);
    assert forall a | a in live :: BlockOk(small, big, a, live[a]);
  }

  lemma BinsAfterTake(big: map<int, Big>, live: map<int, int>, p: int, b: Big, size: int)
    requires BinsOk(big, live) && b.busy && Addr(p + 1) !in live
    ensures BinsOk(big[p := b], live[Addr(p) + BIG_HEADER := size])
  {
    var a := Addr(p) + BIG_HEADER;
    var big', live' := big[p := b], live[a := size];
    forall q | q in big'
      ensures big'[q].busy <==> Addr(q) + BIG_HEADER in live' || Addr(q + 1) in live'
      ensures !(Addr(q) + BIG_HEADER in live' && Addr(q + 1) in live')
    {
      PlacesApart(p, q);
    }
  }

  /** The two places of a block in a bin differ, and are not those of another bin. */
  lemma PlacesApart(p: int, q: int)
    ensures Addr(p) + BIG_HEADER != Addr(q + 1)
    ensures p != q ==> Addr(p) + BIG_HEADER != Addr(q) + BIG_HEADER && Addr(p + 1) != Addr(q + 1)
  {
    OwnerOfBig(p);
    OwnerOfBig(q);
  }

  lemma LiveAfterTake(small: map<int, Small>, big: map<int, Big>, live: map<int, int>, p: int, b: Big, size: int)
    requires LiveOk(small, big, live)
    requires p !in small && (p in big ==> !big[p].busy && b.pages == big[p].pages)
    requires b.busy && 0 <= size <= BigSize(b.pages)
    ensures Addr(p) + BIG_HEADER !in live
    ensures LiveOk(small, big[p := b], live[Addr(p) + BIG_HEADER := size])
  {
    NoBlockYet(small, big, live, p);
    BlocksAfterTake(small, big, live, p, b, size);
    CellsAfterTake(small, live, Addr(p) + BIG_HEADER, size);
    BinsAfterTake(big, live, p, b, size);
  }

  /** The stack of a bin is not part of the skip list. */
  lemma StackStoreKeepsList(m: Mem, m': Mem, level: int, c: seq<SkipNode>, p: int)
    requires SkipOk(m, level, c)
    requires forall a | a != Addr(p) + STACK && a != Addr(p) + BIG_HEADER :: Load(m', a) == Load(m, a)
    ensures SkipOk(m', level, c)
  {
    forall t | -1 <= t < |c| ensures NodeSame(m, m', PageAt(c, t)) {
    }
    SkipFrame(m, m', level, c);
  }

  /** Taking the bin at position `x` of the skip list; `m1` is memory after the deletion from the list. */
  lemma TakeBig(m: Mem, m1: Mem, m': Mem, heads: seq<int>, level: int, level': int, tail: int, sh: Shadow,
      live: map<int, int>, x: nat, p: int, size: int)
    requires HeapOk(m, heads, level, tail, sh, live) && x < |sh.chain| && p == sh.chain[x].page
    requires SkipOk(m1, level', RemoveAt(sh.chain, x)) && OnlyLinksChange(m, m1, sh.chain)
    requires m' == m1[Addr(p) + STACK := 0] && 0 <= size <= sh.chain[x].size
    ensures p in sh.big && Addr(p) + BIG_HEADER !in live
    ensures HeapOk(m', heads, level', tail,
                   sh.(big := sh.big[p := sh.big[p].(busy := true)], chain := RemoveAt(sh.chain, x)),
                   live[Addr(p) + BIG_HEADER := size])
  {
    ChainMembers(sh.big, sh.chain);
    assert IsFreeBig(sh.big, sh.chain[x]);
    var b := sh.big[p].(busy := true);
    StackStoreKeepsList(m1, m', level', RemoveAt(sh.chain, x), p);
    ChainWithout(sh.big, sh.chain, x);
    LiveAfterTake(sh.small, sh.big, live, p, b, size);
    BigStep(m, m', heads, tail, sh, sh.chain, p, b);
  }

  // ---------- Giving a bin back ----------

  /** A busy bin is not on the list and may be put there. */
  lemma BusyIsFresh(big: map<int, Big>, c: seq<SkipNode>, n: SkipNode)
    requires ChainMatches(big, c) && n.page in big && big[n.page].busy && HEAD < n.page && 0 <= n.top <= SKIP_MAX_LEVEL
    ensures Fresh(c, n)
  {
    ChainMembers(big, c);
  }

  lemma ChainWith(big: map<int, Big>, c: seq<SkipNode>, x: nat, n: SkipNode)
    requires ChainMatches(big, c) && x <= |c| && n.page in big && big[n.page].busy &&
      n.size == BigSize(big[n.page].pages)
    ensures ChainMatches(big[n.page := big[n.page].(busy := false)], InsertAt(c, x, n))
  {
    var p, d := n.page, InsertAt(c, x, n);
    var big' := big[p := big[p].(busy := false)];
    ChainMembers(big, c);
    forall j | 0 <= j < |d| ensures IsFreeBig(big', d[j]) {
      if j != x {
        assert d[j] == c[if j < x then j else j - 1];
        assert IsFreeBig(big, d[j]);
      }
    }
    forall q | q in big' && !big'[q].busy ensures OnChain(d, q) {
      if q == p {
        assert d[x].page == q;
      } else {
        assert OnChain(c, q);
        var j :| 0 <= j < |c| && c[j].page == q;
        assert d[if j < x then j else j + 1].page == q;
      }
    }
  }

  lemma OtherBlockStays(small: map<int, Small>, big: map<int, Big>, live: map<int, int>, p: int, a: int, c: int)
    requires BlocksOk(small, big, live) && BinsOk(big, live) && a in live && Owner(a) == p && p in big && p !in small
    requires c in live && c != a
    ensures BlockOk(small, big[p := big[p].(busy := false)], c, live[c])
  {
    assert BlockOk(small, big, a, live[a]);
    assert BlockOk(small, big, c, live[c]);
    assert Owner(c) != p;
  }

  lemma BlocksAfterGive(small: map<int, Small>, big: map<int, Big>, live: map<int, int>, p: int, a: int)
    requires BlocksOk(small, big, live) && BinsOk(big, live) && a in live && Owner(a) == p && p in big && p !in small
    ensures a == Addr(p) + BIG_HEADER || a == Addr(p + 1)
    ensures BlocksOk(small, big[p := big[p].(busy := false)], live - {a})
  {
    assert BlockOk(small, big, a, live[a]);
    var big', live' := big[p := big[p].(busy := false)], live - {a};
    forall c | c in live' ensures BlockOk(small, big', c, live'[c]) {
      OtherBlockStays(small, big, live, p, a, c);
    }
  }

  lemma CellsAfterGive(small: map<int, Small>, live: map<int, int>, a: int)
    requires CellsOk(small, live) && Owner(a) !in small
    ensures CellsOk(small, live - {a})
  {
    forall q | q in small ensures Covered(q, small[q], live - {a}) {
      assert Covered(q, small[q], live);
      forall b | IsCell(q, small[q].bucket, b) ensures b != a {
        OwnerOfCell(q, small[q].bucket, b);
      }
    }
  }

  lemma BinsAfterGive(big: map<int, Big>, live: map<int, int>, p: int, a: int)
    requires BinsOk(big, live) && p in big && a in live && (a == Addr(p) + BIG_HEADER || a == Addr(p + 1))
    ensures BinsOk(big[p := big[p].(busy := false)], live - {a})
  {
    OwnerOfBig(p);
    forall q | q in big && q != p ensures Addr(q) + BIG_HEADER != a && Addr(q + 1) != a {
      OwnerOfBig(q);
    }
  }

  lemma LiveAfterGive(small: map<int, Small>, big: map<int, Big>, live: map<int, int>, p: int, a: int)
    requires LiveOk(small, big, live) && a in live && Owner(a) == p && p in big && p !in small
    ensures LiveOk(small, big[p := big[p].(busy := false)], live - {a})
  {
    BlocksAfterGive(small, big, live, p, a);
    CellsAfterGive(small, live, a);
    BinsAfterGive(big, live, p, a);
  }

  ghost function Pushed(m: Mem, p: int): Mem {
    m[Addr(p) + BIG_HEADER := Load(m, Addr(p) + STACK)][Addr(p) + STACK := Addr(p) + BIG_HEADER]
  }

  /** After the push the bin can be inserted into the list. */
  lemma PushBig(m: Mem, heads: seq<int>, level: int, tail: int, sh: Shadow, live: map<int, int>, p: int, a: int,
      random: int)
    requires HeapOk(m, heads, level, tail, sh, live) && a in live && Owner(a) == p && p in sh.big
    requires 0 <= random <= SKIP_MAX_LEVEL
    ensures SkipOk(Pushed(m, p), level, sh.chain)
    ensures Fresh(sh.chain, SkipNode(p, BigSize(sh.big[p].pages), random))
    ensures Load(Pushed(m, p), Addr(p) + SIZE) == BigSize(sh.big[p].pages)
    ensures sh.big[p].busy
  {
    assert BlockOk(sh.small, sh.big, a, live[a]);
    assert BigOk(m, p, sh.big[p]);
    StackStoreKeepsList(m, Pushed(m, p), level, sh.chain, p);
    BusyIsFresh(sh.big, sh.chain, SkipNode(p, BigSize(sh.big[p].pages), random));
  }

  lemma PushedStores(m: Mem, m': Mem, c: seq<SkipNode>, p: int)
    requires OnlyLinksChange(Pushed(m, p), m', c)
    ensures BinStores(m, m', c, p)
  {
  }

  lemma PushedWords(m: Mem, m': Mem, tail: int, small: map<int, Small>, big: map<int, Big>, c: seq<SkipNode>, p: int)
    requires OnlyLinksChange(Pushed(m, p), m', c) && LayoutOk(tail, small, big) && p in big
    requires forall j | 0 <= j < |c| :: c[j].page in big
    ensures Load(m', Addr(p) + STACK) == Addr(p) + BIG_HEADER &&
      Load(m', Addr(p) + BIG_HEADER) == Load(m, Addr(p) + STACK)
  {
  }

  lemma InsertedMembers(big: map<int, Big>, c: seq<SkipNode>, x: nat, n: SkipNode)
    requires ChainMatches(big, c) && x <= |c| && n.page in big
    ensures forall j | 0 <= j <= |c| :: InsertAt(c, x, n)[j].page in big
  {
    ChainMembers(big, c);
  }

  /** Giving a block of bin `p` back; `m'` is memory after the insertion into the list. */
  lemma GiveBig(m: Mem, m': Mem, heads: seq<int>, level: int, level': int, tail: int, sh: Shadow, live: map<int, int>,
      p: int, a: int, x: nat, n: SkipNode)
    requires HeapOk(m, heads, level, tail, sh, live) && a in live && Owner(a) == p && p in sh.big
    requires sh.big[p].busy && n.page == p && n.size == BigSize(sh.big[p].pages) && x <= |sh.chain|
    requires SkipOk(m', level', InsertAt(sh.chain, x, n)) && OnlyLinksChange(Pushed(m, p), m', InsertAt(sh.chain, x, n))
    ensures HeapOk(m', heads, level', tail,
                   sh.(big := sh.big[p := sh.big[p].(busy := false)], chain := InsertAt(sh.chain, x, n)), live - {a})
  {
    var d, b := InsertAt(sh.chain, x, n), sh.big[p].(busy := false);
    assert BigOk(m, p, sh.big[p]);
    InsertedMembers(sh.big, sh.chain, x, n);
    PushedStores(m, m', d, p);
    PushedWords(m, m', tail, sh.small, sh.big, d, p);
    BigStep(m, m', heads, tail, sh, d, p, b);
    ChainWith(sh.big, sh.chain, x, n);
    LiveAfterGive(sh.small, sh.big, live, p, a);
  }

  // ---------- A new bin ----------

  /** Below the break only the word at `w` may have changed. */
  ghost predicate NewBinStores(m: Mem, m': Mem, tail: int, w: int) {
    forall a | a < Addr(tail) && a != w :: Load(m', a) == Load(m, a)
  }

  lemma NewBinFrame(m: Mem, m': Mem, tail: int, small: map<int, Small>, big: map<int, Big>, w: int, r: int)
    requires LayoutOk(tail, small, big) && NewBinStores(m, m', tail, w) && (w == 0 || (r in big && w == Addr(r) + NEXT))
    ensures BigStepFrame(m, m', small, big, tail)
    ensures forall q | q == HEAD || q in big :: NodeSame(m, m', q)
  {
  }

  lemma ChainKept(big: map<int, Big>, c: seq<SkipNode>, p: int, b: Big)
    requires ChainMatches(big, c) && p !in big && b.busy
    ensures ChainMatches(big[p := b], c)
  {
    forall j | 0 <= j < |c| ensures IsFreeBig(big[p := b], c[j]) {
      assert IsFreeBig(big, c[j]);
    }
  }

  lemma LayoutGrows(tail: int, small: map<int, Small>, big: map<int, Big>, b: Big)
    requires LayoutOk(tail, small, big) && 0 < b.pages
    ensures LayoutOk(tail + b.pages, small, big[tail := b])
  {
  }

  /** A bin of fresh pages at the break, handed out at once. */
  lemma AddBig(m: Mem, m': Mem, heads: seq<int>, level: int, tail: int, sh: Shadow, live: map<int, int>, b: Big, w: int,
      r: int, size: int)
    requires HeapOk(m, heads, level, tail, sh, live) && b.busy && 0 <= size <= BigSize(b.pages)
    requires NewBinStores(m, m', tail, w) && (w == 0 || (r in sh.big && w == Addr(r) + NEXT))
    requires BigOk(m', tail, b)
    ensures Addr(tail) + BIG_HEADER !in live
    ensures HeapOk(m', heads, level, tail + b.pages, sh.(big := sh.big[tail := b]),
      live[Addr(tail) + BIG_HEADER := size])
  {
    NewBinFrame(m, m', tail, sh.small, sh.big, w, r);
    SmallsKept(m, m', sh.small);
    ListsKept(m, m', heads, sh.small, sh.lists);
    BigsKept(m, m', sh.small, sh.big, tail, b);
    ChainMembers(sh.big, sh.chain);
    SkipFrame(m, m', level, sh.chain);
    ChainKept(sh.big, sh.chain, tail, b);
    LayoutGrows(tail, sh.small, sh.big, b);
    LiveAfterTake(sh.small, sh.big, live, tail, b, size);
  }
}
