/**
 What the steps of the allocator do to the contents of blocks that stay in use: nothing; and
 what the users of blocks do to the allocator: nothing.
 */
module HeapKept {
  import opened SkipSpec
  import opened SkipList
  import opened HeapSpec
  import opened HeapSmall
  import opened HeapBig

  /** The contents of all blocks are the same. */
  ghost predicate Kept(m: Mem, m': Mem, live: map<int, int>) {
    forall b, w | b in live && b <= w < b + live[b] :: Load(m', w) == Load(m, w)
  }

  /** The word is in a header, in the static data below the heap, or beyond the break. */
  ghost predicate Hidden(tail: int, small: map<int, Small>, big: map<int, Big>, w: int) {
    || w < Addr(HEAD + 1) || Addr(tail) <= w
    || (exists q :: q in small && Addr(q) <= w < Addr(q) + SMALL_HEADER)
    || (exists q :: q in big && Addr(q) <= w < Addr(q) + BIG_HEADER)
  }

  lemma HiddenFromBlocks(tail: int, small: map<int, Small>, big: map<int, Big>, live: map<int, int>, b: int, w: int)
    requires LayoutOk(tail, small, big) && LiveOk(small, big, live) && b in live
    requires Hidden(tail, small, big, w)
    ensures !(b <= w < b + live[b])
  {
    BlockInPages(tail, small, big, b, live[b]);
    if q :| q in small && Addr(q) <= w < Addr(q) + SMALL_HEADER {
      LiveBlocksAvoidHeaders(tail, small, big, live, b, q);
    } else if q :| q in big && Addr(q) <= w < Addr(q) + BIG_HEADER {
      LiveBlocksAvoidHeaders(tail, small, big, live, b, q);
    }
  }

  lemma HiddenChanges(m: Mem, m': Mem, tail: int, small: map<int, Small>, big: map<int, Big>, live: map<int, int>)
    requires LayoutOk(tail, small, big) && LiveOk(small, big, live)
    requires forall w | !Hidden(tail, small, big, w) :: Load(m', w) == Load(m, w)
    ensures Kept(m, m', live)
  {
    forall b, w | b in live && b <= w < b + live[b] ensures Load(m', w) == Load(m, w) {
      if Hidden(tail, small, big, w) {
        HiddenFromBlocks(tail, small, big, live, b, w);
      }
    }
  }

  /** Growth writes beyond the old break only. */
  lemma NewPagesKept(m: Mem, m': Mem, tail: int, small: map<int, Small>, big: map<int, Big>, live: map<int, int>,
      pages: int)
    requires LayoutOk(tail, small, big) && LiveOk(small, big, live) &&
      SameOutside(m, m', Addr(tail), Addr(tail + pages))
    ensures Kept(m, m', live)
  {
    HiddenChanges(m, m', tail, small, big, live);
  }

  /** A step that writes the header of a small page. */
  lemma SmallHeaderChanges(m: Mem, m': Mem, tail: int, small: map<int, Small>, big: map<int, Big>, live: map<int, int>,
      p: int)
    requires LayoutOk(tail, small, big) && LiveOk(small, big, live) && p in small
    requires forall a | a != Addr(p) + NEXT && a != Addr(p) + STACK :: Load(m', a) == Load(m, a)
    ensures Kept(m, m', live)
  {
    forall w | !Hidden(tail, small, big, w) ensures Load(m', w) == Load(m, w) {
      assert p in small && !(Addr(p) <= w < Addr(p) + SMALL_HEADER);
    }
    HiddenChanges(m, m', tail, small, big, live);
  }

  /** No word belongs to two blocks. */
  lemma OneBlockPerWord(tail: int, small: map<int, Small>, big: map<int, Big>, live: map<int, int>, a: int, b: int,
      v: int)
    requires LayoutOk(tail, small, big) && LiveOk(small, big, live) && a in live && b in live && a != b
    requires a <= v < BlockEnd(small, big, a)
    ensures !(b <= v < b + live[b])
  {
    if a < b {
      LiveBlocksDisjoint(tail, small, big, live, a, b);
    } else {
      LiveBlocksDisjoint(tail, small, big, live, b, a);
    }
  }

  /** Giving a block back writes headers and one word of the block itself. */
  lemma FreedChanges(m: Mem, m': Mem, tail: int, small: map<int, Small>, big: map<int, Big>, live: map<int, int>,
      a: int, v: int)
    requires LayoutOk(tail, small, big) && LiveOk(small, big, live) && a in live && a <= v < BlockEnd(small, big, a)
    requires forall w | !Hidden(tail, small, big, w) && w != v :: Load(m', w) == Load(m, w)
    ensures Kept(m, m', live - {a})
  {
    forall b, w | b in live - {a} && b <= w < b + live[b] ensures Load(m', w) == Load(m, w) {
      if w == v {
        OneBlockPerWord(tail, small, big, live, a, b, v);
      } else if Hidden(tail, small, big, w) {
        HiddenFromBlocks(tail, small, big, live, b, w);
      }
    }
  }

  lemma BinStoresHidden(m: Mem, m': Mem, tail: int, small: map<int, Small>, big: map<int, Big>, live: map<int, int>,
      c: seq<SkipNode>)
    requires LayoutOk(tail, small, big) && LiveOk(small, big, live)
    requires OnlyLinksChange(m, m', c) && forall j | 0 <= j < |c| :: c[j].page in big
    ensures Kept(m, m', live)
  {
    forall w | !Hidden(tail, small, big, w) ensures Load(m', w) == Load(m, w) {
      forall j | 0 <= j < |c| ensures !IsLink(c[j].page, w) {
        assert c[j].page in big && !(Addr(c[j].page) <= w < Addr(c[j].page) + BIG_HEADER);
      }
    }
    HiddenChanges(m, m', tail, small, big, live);
  }

  lemma BigHeaderChange(m: Mem, m': Mem, tail: int, small: map<int, Small>, big: map<int, Big>, live: map<int, int>,
      p: int)
    requires LayoutOk(tail, small, big) && LiveOk(small, big, live) && p in big
    requires SameOutside(m, m', Addr(p), Addr(p) + BIG_HEADER)
    ensures Kept(m, m', live)
  {
    forall w | !Hidden(tail, small, big, w) ensures Load(m', w) == Load(m, w) {
      assert p in big && !(Addr(p) <= w < Addr(p) + BIG_HEADER);
    }
    HiddenChanges(m, m', tail, small, big, live);
  }

  lemma BeyondBreakKept(m: Mem, m': Mem, tail: int, small: map<int, Small>, big: map<int, Big>, live: map<int, int>,
      w: int, r: int)
    requires LayoutOk(tail, small, big) && LiveOk(small, big, live)
    requires NewBinStores(m, m', tail, w) && (w == 0 || (r in big && w == Addr(r) + NEXT))
    ensures Kept(m, m', live)
  {
    forall a | !Hidden(tail, small, big, a) ensures Load(m', a) == Load(m, a) {
      assert r in big ==> !(Addr(r) <= a < Addr(r) + BIG_HEADER);
    }
    HiddenChanges(m, m', tail, small, big, live);
  }

  /** Deleting a bin from the list does not touch its stack. */
  lemma StackWordsKept(m: Mem, m': Mem, tail: int, small: map<int, Small>, big: map<int, Big>, c: seq<SkipNode>, p: int)
    requires LayoutOk(tail, small, big) && OnlyLinksChange(m, m', c) && p in big
    requires forall j | 0 <= j < |c| :: c[j].page in big
    ensures Load(m', Addr(p) + STACK) == Load(m, Addr(p) + STACK)
    ensures Load(m', Addr(p) + BIG_HEADER) == Load(m, Addr(p) + BIG_HEADER)
  {
  }

  // ---------- Stores of users ----------

  lemma NotFreeCell(p: int, sp: Small, a: int, w: int, f: int)
    requires IsCell(p, sp.bucket, a) && IsCell(p, sp.bucket, f) && a != f && a <= w < a + CellSize(sp.bucket)
    ensures f != w
  {
    if a < f {
      CellsApart(p, sp.bucket, a, f);
    }
  }

  /** A word of a cell handed out is no word the allocator reads: not in the header, and not in a free cell. */
  lemma StoreInCell(m: Mem, p: int, sp: Small, a: int, w: int, v: int)
    requires SmallOk(m, p, sp) && IsCell(p, sp.bucket, a) && a !in sp.free && a <= w < a + CellSize(sp.bucket)
    ensures SmallOk(m[w := v], p, sp) && Load(m[w := v], Addr(p) + NEXT) == Load(m, Addr(p) + NEXT)
    ensures SameOutside(m, m[w := v], Addr(p), Addr(p + 1))
  {
    CellBounds(p, sp.bucket, a);
    forall k | 0 <= k < |sp.free| ensures sp.free[k] != w {
      NotFreeCell(p, sp, a, w, sp.free[k]);
    }
  }

  lemma StoreInSmall(m: Mem, heads: seq<int>, level: int, tail: int, sh: Shadow, live: map<int, int>, p: int, a: int,
      w: int, v: int)
    requires HeapOk(m, heads, level, tail, sh, live) && p in sh.small && IsCell(p, sh.small[p].bucket, a) &&
      a !in sh.small[p].free
    requires a <= w < a + CellSize(sh.small[p].bucket)
    ensures HeapOk(m[w := v], heads, level, tail, sh, live)
  {
    var m' := m[w := v];
    var sp := sh.small[p];
    assert SmallOk(m, p, sp);
    StoreInCell(m, p, sp, a, w, v);
    ListsAfterStore(m, m', heads, sh.small, sh.lists, p);
    assert sh.small[p := sh.small[p]] == sh.small;
    SmallStep(m, m', heads, heads, level, tail, sh, sh, live, live, p);
  }

  lemma ListsAfterStore(m: Mem, m': Mem, heads: seq<int>, small: map<int, Small>, lists: seq<seq<int>>, p: int)
    requires ListsOk(m, heads, small, lists) && SameOutside(m, m', Addr(p), Addr(p + 1))
    requires Load(m', Addr(p) + NEXT) == Load(m, Addr(p) + NEXT)
    ensures ListsOk(m', heads, small, lists)
  {
    forall b | 0 <= b < BIG_BIN ensures BucketOk(m', heads[b], small, lists[b], b) {
      var l := lists[b];
      assert BucketOk(m, heads[b], small, l, b);
      forall k | 0 <= k < |l| ensures Load(m', Addr(l[k]) + NEXT) == Load(m, Addr(l[k]) + NEXT) {
        if l[k] != p {
          OtherNext(m, m', p, l[k]);
        }
      }
      ListFrame(m, m', heads[b], l);
    }
  }

  lemma BodyWord(m: Mem, m': Mem, tail: int, small: map<int, Small>, big: map<int, Big>, p: int, w: int)
    requires LayoutOk(tail, small, big) && p in big && Addr(p) + BIG_HEADER <= w < Addr(p + big[p].pages)
    requires forall a | a != w :: Load(m', a) == Load(m, a)
    ensures BigStepFrame(m, m', small, big, p)
    ensures Same(m, m', Addr(p), Addr(p) + BIG_HEADER)
    ensures forall q | q == HEAD || q in big :: NodeSame(m, m', q)
  {
  }

  lemma StoreInBig(m: Mem, heads: seq<int>, level: int, tail: int, sh: Shadow, live: map<int, int>, p: int, w: int,
      v: int)
    requires HeapOk(m, heads, level, tail, sh, live) && p in sh.big && sh.big[p].busy
    requires Addr(p) + BIG_HEADER <= w < Addr(p + sh.big[p].pages)
    ensures HeapOk(m[w := v], heads, level, tail, sh, live)
  {
    var m', big := m[w := v], sh.big;
    BodyWord(m, m', tail, sh.small, big, p, w);
    SmallsKept(m, m', sh.small);
    ListsKept(m, m', heads, sh.small, sh.lists);
    assert BigOk(m, p, big[p]);
    BigsKept(m, m', sh.small, big, p, big[p]);
    assert big[p := big[p]] == big;
    ChainMembers(big, sh.chain);
    SkipFrame(m, m', level, sh.chain);
  }

  /** Whatever users write into their blocks, the allocator stays intact. */
  lemma StoreInBlock(m: Mem, heads: seq<int>, level: int, tail: int, sh: Shadow, live: map<int, int>, a: int, w: int,
      v: int)
    requires HeapOk(m, heads, level, tail, sh, live) && a in live && a <= w < a + live[a]
    ensures HeapOk(m[w := v], heads, level, tail, sh, live)
  {
    var p := Owner(a);
    assert BlockOk(sh.small, sh.big, a, live[a]);
    if p in sh.small {
      StoreInSmall(m, heads, level, tail, sh, live, p, a, w, v);
    } else {
      BlockInPages(tail, sh.small, sh.big, a, live[a]);
      StoreInBig(m, heads, level, tail, sh, live, p, w, v);
    }
  }
}
