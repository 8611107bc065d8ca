/**
 The steps of the allocator on pages of small cells (src/memory/alloc.cpp:263-279, 510-562,
 582-632 and 845-857): taking a cell, giving it back, adding a page.
 */
module HeapSmall {
  import opened SkipSpec
  import opened HeapSpec

  /** Memory from `lo` up to `hi` is the same. */
  ghost predicate Same(m: Mem, m': Mem, lo: int, hi: int) {
    forall a | lo <= a < hi :: Load(m', a) == Load(m, a)
  }

  ghost predicate SameOutside(m: Mem, m': Mem, lo: int, hi: int) {
    forall a | a < lo || hi <= a :: Load(m', a) == Load(m, a)
  }

  lemma SmallFrame(m: Mem, m': Mem, p: int, sp: Small)
    requires SmallOk(m, p, sp) && Same(m, m', Addr(p), Addr(p + 1))
    ensures SmallOk(m', p, sp)
  {
  }

  lemma BigFrame(m: Mem, m': Mem, p: int, b: Big)
    requires BigOk(m, p, b) && Same(m, m', Addr(p) + STACK, Addr(p) + PREV)
    requires !b.busy ==> Load(m', Addr(p) + BIG_HEADER) == Load(m, Addr(p) + BIG_HEADER)
    ensures BigOk(m', p, b)
  {
  }

  ghost predicate NodeSame(m: Mem, m': Mem, page: int) {
    Same(m, m', Addr(page) + SIZE, Addr(page) + MAGIC) && Same(m, m', Addr(page) + FORWARD, Addr(page) + BIG_HEADER)
  }

  lemma SkipFrame(m: Mem, m': Mem, level: int, c: seq<SkipNode>)
    requires SkipOk(m, level, c)
    requires forall t | -1 <= t < |c| :: NodeSame(m, m', PageAt(c, t))
    ensures SkipOk(m', level, c)
  {
    forall i | 0 <= i <= SKIP_MAX_LEVEL ensures LevelOk(m', c, i) {
      assert LevelOk(m, c, i);
      forall t | -1 <= t < |c| ensures NodeOk(m', c, i, t) {
        assert NodeOk(m, c, i, t);
        assert NodeSame(m, m', PageAt(c, t));
      }
    }
    forall j | 0 <= j < |c| ensures Load(m', Addr(c[j].page) + SIZE) == c[j].size {
      assert NodeSame(m, m', PageAt(c, j));
    }
  }

  lemma SmallsAfter(m: Mem, m': Mem, small: map<int, Small>, p: int, sp: Small)
    requires SmallsOk(m, small) && SameOutside(m, m', Addr(p), Addr(p + 1)) && SmallOk(m', p, sp)
    ensures SmallsOk(m', small[p := sp])
  {
    var small' := small[p := sp];
    forall q | q in small' ensures SmallOk(m', q, small'[q]) {
      if q != p {
        SmallFrame(m, m', q, small[q]);
      }
    }
  }

  /** The page `p` belongs to no big bin. */
  ghost predicate Apart(big: map<int, Big>, p: int) {
    HEAD < p && forall q | q in big :: p < q || q + big[q].pages <= p
  }

  lemma BigsAfter(m: Mem, m': Mem, big: map<int, Big>, p: int)
    requires BigsOk(m, big) && SameOutside(m, m', Addr(p), Addr(p + 1)) && Apart(big, p)
    ensures BigsOk(m', big)
  {
    forall q | q in big ensures BigOk(m', q, big[q]) {
      BigFrame(m, m', q, big[q]);
    }
  }

  lemma ChainAfter(m: Mem, m': Mem, level: int, big: map<int, Big>, c: seq<SkipNode>, p: int)
    requires SkipOk(m, level, c) && ChainMatches(big, c) && BigsOk(m, big)
    requires SameOutside(m, m', Addr(p), Addr(p + 1)) && Apart(big, p)
    ensures SkipOk(m', level, c)
  {
    forall t | -1 <= t < |c| ensures NodeSame(m, m', PageAt(c, t)) {
      if t >= 0 {
        assert IsFreeBig(big, c[t]);
        assert BigOk(m, c[t].page, big[c[t].page]);
      }
    }
    SkipFrame(m, m', level, c);
  }

  lemma SmallPageApart(tail: int, small: map<int, Small>, big: map<int, Big>, p: int, sp: Small)
    requires LayoutOk(tail, small, big) && p in small
    ensures Apart(big, p) && LayoutOk(tail, small[p := sp], big)
  {
  }

  /** A step that touches the memory of one small page only. */
  lemma SmallStep(m: Mem, m': Mem, heads: seq<int>, heads': seq<int>, level: int, tail: int, sh: Shadow, sh': Shadow,
      live: map<int, int>, live': map<int, int>, p: int)
    requires HeapOk(m, heads, level, tail, sh, live) && p in sh.small && p in sh'.small
    requires SameOutside(m, m', Addr(p), Addr(p + 1))
    requires sh' == sh.(small := sh.small[p := sh'.small[p]], lists := sh'.lists)
    requires SmallOk(m', p, sh'.small[p]) && ListsOk(m', heads', sh'.small, sh'.lists) &&
      LiveOk(sh'.small, sh'.big, live')
    ensures HeapOk(m', heads', level, tail, sh', live')
  {
    hide LiveOk, ListsOk, SkipOk, ChainMatches, SmallsOk, BigsOk, SmallOk, LayoutOk, Apart, SameOutside;
    SmallPageApart(tail, sh.small, sh.big, p, sh'.small[p]);
    SmallsAfter(m, m', sh.small, p, sh'.small[p]);
    BigsAfter(m, m', sh.big, p);
    ChainAfter(m, m', level, sh.big, sh.chain, p);
  }

  // ---------- Taking a cell ----------

  lemma PopCell(m: Mem, p: int, sp: Small) returns (m': Mem)
    requires SmallOk(m, p, sp) && sp.free != []
    ensures m' == m[Addr(p) + STACK := Load(m, sp.free[0])]
    ensures SmallOk(m', p, sp.(free := sp.free[1..])) && SameOutside(m, m', Addr(p), Addr(p + 1))
    ensures Load(m', Addr(p) + NEXT) == Load(m, Addr(p) + NEXT)
  {
    m' := m[Addr(p) + STACK := Load(m, sp.free[0])];
    var s := sp.free[1..];
    forall k | 0 <= k < |s| ensures Load(m', s[k]) == Link(s, k + 1) {
      assert s[k] == sp.free[k + 1];
      CellBounds(p, sp.bucket, s[k]);
    }
  }

  /** A free cell is not handed out. */
  lemma FreeIsNotLive(small: map<int, Small>, big: map<int, Big>, live: map<int, int>, p: int, a: int)
    requires BlocksOk(small, big, live) && p in small && a in small[p].free && IsCell(p, small[p].bucket, a)
    ensures a !in live
  {
    OwnerOfCell(p, small[p].bucket, a);
    assert a in live ==> BlockOk(small, big, a, live[a]);
  }

  /** A cell is no block of a big bin. */
  lemma CellIsNotBig(big: map<int, Big>, p: int, b: int, a: int, q: int)
    requires IsCell(p, b, a) && q != p
    ensures Addr(q) + BIG_HEADER != a && Addr(q + 1) != a
  {
    OwnerOfCell(p, b, a);
    OwnerOfBig(q);
  }

  lemma BlocksAfterPop(small: map<int, Small>, big: map<int, Big>, live: map<int, int>, p: int, size: int)
    requires BlocksOk(small, big, live) && p in small && small[p].free != [] && FreeCellsOk(p, small[p])
    requires 0 <= size <= CellSize(small[p].bucket)
    ensures BlocksOk(small[p := small[p].(free := small[p].free[1..])], big, live[small[p].free[0] := size])
  {
    var sp := small[p];
    var a := sp.free[0];
    var small', live' := small[p := sp.(free := sp.free[1..])], live[a := size];
    OwnerOfCell(p, sp.bucket, a);
    forall b | b in live' ensures BlockOk(small', big, b, live'[b]) {
      if b != a {
        assert BlockOk(small, big, b, live[b]);
      }
    }
  }

  lemma CellsAfterPop(small: map<int, Small>, live: map<int, int>, p: int, size: int)
    requires CellsOk(small, live) && p in small && small[p].free != []
    ensures CellsOk(small[p := small[p].(free := small[p].free[1..])], live[small[p].free[0] := size])
  {
    var sp := small[p];
    var a := sp.free[0];
    var small', live' := small[p := sp.(free := sp.free[1..])], live[a := size];
    assert sp.free == [a] + sp.free[1..];
    forall q | q in small' ensures Covered(q, small'[q], live') {
      assert Covered(q, small[q], live);
    }
  }

  /** A cell taken from the stack becomes a live block. */
  lemma LiveAfterPop(tail: int, small: map<int, Small>, big: map<int, Big>, live: map<int, int>, p: int, size: int)
    requires LayoutOk(tail, small, big) && LiveOk(small, big, live) && p in small && small[p].free != []
    requires FreeCellsOk(p, small[p]) && 0 <= size <= CellSize(small[p].bucket)
    ensures small[p].free[0] !in live
    ensures LiveOk(small[p := small[p].(free := small[p].free[1..])], big, live[small[p].free[0] := size])
  {
    var a := small[p].free[0];
    hide BlocksOk, CellsOk, LayoutOk;
    FreeIsNotLive(small, big, live, p, a);
    BlocksAfterPop(small, big, live, p, size);
    CellsAfterPop(small, live, p, size);
    forall q | q in big ensures Addr(q) + BIG_HEADER != a && Addr(q + 1) != a {
      CellIsNotBig(big, p, small[p].bucket, a, q);
    }
  }

  // ---------- Giving a cell back ----------

  /** A freed cell goes on top of the stack. */
  lemma PushCell(m: Mem, p: int, sp: Small, a: int) returns (m': Mem)
    requires SmallOk(m, p, sp) && IsCell(p, sp.bucket, a) && a !in sp.free
    ensures m' == m[a := Load(m, Addr(p) + STACK)][Addr(p) + STACK := a]
    ensures SmallOk(m', p, sp.(free := [a] + sp.free)) && SameOutside(m, m', Addr(p), Addr(p + 1))
    ensures Load(m', Addr(p) + NEXT) == Load(m, Addr(p) + NEXT)
  {
    m' := m[a := Load(m, Addr(p) + STACK)][Addr(p) + STACK := a];
    CellBounds(p, sp.bucket, a);
    var s := [a] + sp.free;
    forall k | 0 <= k < |s| ensures Load(m', s[k]) == Link(s, k + 1) {
      if k > 0 {
        assert s[k] == sp.free[k - 1];
      }
    }
  }

  lemma BlocksAfterPush(small: map<int, Small>, big: map<int, Big>, live: map<int, int>, p: int, a: int)
    requires BlocksOk(small, big, live) && p in small && a in live && Owner(a) == p
    ensures BlocksOk(small[p := small[p].(free := [a] + small[p].free)], big, live - {a})
  {
    var small', live' := small[p := small[p].(free := [a] + small[p].free)], live - {a};
    forall b | b in live' ensures BlockOk(small', big, b, live'[b]) {
      assert BlockOk(small, big, b, live[b]);
    }
  }

  lemma CellsAfterPush(small: map<int, Small>, live: map<int, int>, p: int, a: int)
    requires CellsOk(small, live) && p in small && Owner(a) == p
    ensures CellsOk(small[p := small[p].(free := [a] + small[p].free)], live - {a})
  {
    var small', live' := small[p := small[p].(free := [a] + small[p].free)], live - {a};
    forall q | q in small' ensures Covered(q, small'[q], live') {
      assert Covered(q, small[q], live);
      forall b | IsCell(q, small'[q].bucket, b) ensures b in live' || b in small'[q].free {
        OwnerOfCell(q, small'[q].bucket, b);
      }
    }
  }

  lemma LiveAfterPush(tail: int, small: map<int, Small>, big: map<int, Big>, live: map<int, int>, p: int, a: int)
    requires LayoutOk(tail, small, big) && LiveOk(small, big, live) && p in small && a in live && Owner(a) == p
    ensures IsCell(p, small[p].bucket, a) && a !in small[p].free
    ensures LiveOk(small[p := small[p].(free := [a] + small[p].free)], big, live - {a})
  {
    assert BlockOk(small, big, a, live[a]);
    hide BlocksOk, CellsOk, LayoutOk;
    BlocksAfterPush(small, big, live, p, a);
    CellsAfterPush(small, live, p, a);
    forall q | q in big ensures Addr(q) + BIG_HEADER != a && Addr(q + 1) != a {
      CellIsNotBig(big, p, small[p].bucket, a, q);
    }
  }

  // ---------- The bucket lists ----------

  lemma ListFrame(m: Mem, m': Mem, head: int, l: seq<int>)
    requires ListOk(m, head, l)
    requires forall k | 0 <= k < |l| :: Load(m', Addr(l[k]) + NEXT) == Load(m, Addr(l[k]) + NEXT)
    ensures ListOk(m', head, l)
  {
  }

  /** The link of another page is outside the page. */
  lemma OtherNext(m: Mem, m': Mem, p: int, q: int)
    requires SameOutside(m, m', Addr(p), Addr(p + 1)) && q != p
    ensures Load(m', Addr(q) + NEXT) == Load(m, Addr(q) + NEXT)
  {
  }

  /** The list of a bucket that `p` has nothing to do with. */
  lemma OtherBucket(m: Mem, m': Mem, head: int, small: map<int, Small>, l: seq<int>, b: int, p: int, sp: Small)
    requires BucketOk(m, head, small, l, b) && SameOutside(m, m', Addr(p), Addr(p + 1))
    requires sp.bucket != b && (p in small ==> small[p].bucket != b)
    ensures BucketOk(m', head, small[p := sp], l, b)
  {
    var small' := small[p := sp];
    forall k | 0 <= k < |l| ensures HasRoom(small', b, l[k]) && l[k] != p {
      assert HasRoom(small, b, l[k]);
    }
    ListFrame(m, m', head, l);
    forall q | HasRoom(small', b, q) ensures q in l {
      assert HasRoom(small, b, q);
    }
  }

  lemma ListsAfter(m: Mem, m': Mem, heads: seq<int>, small: map<int, Small>, lists: seq<seq<int>>, p: int, sp: Small,
      head: int, l: seq<int>)
    requires ListsOk(m, heads, small, lists) && SameOutside(m, m', Addr(p), Addr(p + 1))
    requires 0 <= sp.bucket < BIG_BIN && (p in small ==> small[p].bucket == sp.bucket)
    requires BucketOk(m', head, small[p := sp], l, sp.bucket)
    ensures ListsOk(m', heads[sp.bucket := head], small[p := sp], lists[sp.bucket := l])
  {
    var heads', small', lists' := heads[sp.bucket := head], small[p := sp], lists[sp.bucket := l];
    forall b | 0 <= b < BIG_BIN ensures BucketOk(m', heads'[b], small', lists'[b], b) {
      if b != sp.bucket {
        assert BucketOk(m, heads[b], small, lists[b], b);
        OtherBucket(m, m', heads[b], small, lists[b], b, p, sp);
      }
    }
  }

  /** The page stays on its list. */
  lemma BucketKeep(m: Mem, m': Mem, head: int, small: map<int, Small>, l: seq<int>, p: int, sp: Small)
    requires BucketOk(m, head, small, l, sp.bucket) && SameOutside(m, m', Addr(p), Addr(p + 1))
    requires Load(m', Addr(p) + NEXT) == Load(m, Addr(p) + NEXT)
    requires HasRoom(small, sp.bucket, p) && sp.free != []
    ensures BucketOk(m', head, small[p := sp], l, sp.bucket)
  {
    var small', b := small[p := sp], sp.bucket;
    forall k | 0 <= k < |l|
      ensures HasRoom(small', b, l[k]) && Load(m', Addr(l[k]) + NEXT) == Load(m, Addr(l[k]) + NEXT)
    {
      assert HasRoom(small, b, l[k]);
      if l[k] != p {
        OtherNext(m, m', p, l[k]);
      }
    }
    ListFrame(m, m', head, l);
    forall q | HasRoom(small', b, q) ensures q in l {
      assert HasRoom(small, b, q);
    }
  }

  lemma ListTail(m: Mem, m': Mem, head: int, l: seq<int>, p: int)
    requires ListOk(m, head, l) && SameOutside(m, m', Addr(p), Addr(p + 1)) && l != [] && l[0] == p
    ensures ListOk(m', Load(m, Addr(p) + NEXT), l[1..])
  {
    var r := l[1..];
    forall k | 0 <= k < |r| ensures Load(m', Addr(r[k]) + NEXT) == PageLink(r, k + 1) {
      assert r[k] == l[k + 1] && l[0] != l[k + 1];
      OtherNext(m, m', p, r[k]);
    }
  }

  /** The first page of a list leaves it when its last cell is taken. */
  lemma BucketDrop(m: Mem, m': Mem, head: int, small: map<int, Small>, l: seq<int>, p: int, sp: Small)
    requires BucketOk(m, head, small, l, sp.bucket) && SameOutside(m, m', Addr(p), Addr(p + 1))
    requires sp.free == [] && l != [] && l[0] == p
    ensures BucketOk(m', Load(m, Addr(p) + NEXT), small[p := sp], l[1..], sp.bucket)
  {
    ListTail(m, m', head, l, p);
    MembersDrop(small, l, p, sp);
  }

  lemma MembersDrop(small: map<int, Small>, l: seq<int>, p: int, sp: Small)
    requires sp.free == [] && l != [] && l[0] == p
    requires forall j, k | 0 <= j < k < |l| :: l[j] != l[k]
    requires forall k | 0 <= k < |l| :: HasRoom(small, sp.bucket, l[k])
    requires forall q | HasRoom(small, sp.bucket, q) :: q in l
    ensures forall k | 0 <= k < |l| - 1 :: HasRoom(small[p := sp], sp.bucket, l[1..][k])
    ensures forall q | HasRoom(small[p := sp], sp.bucket, q) :: q in l[1..]
  {
    var small', b, r := small[p := sp], sp.bucket, l[1..];
    forall k | 0 <= k < |r| ensures HasRoom(small', b, r[k]) {
      assert r[k] == l[k + 1] && l[0] != l[k + 1] && HasRoom(small, b, l[k + 1]);
    }
    forall q | HasRoom(small', b, q) ensures q in r {
      assert HasRoom(small, b, q);
      var k :| 0 <= k < |l| && l[k] == q;
      assert r[k - 1] == q;
    }
  }

  lemma ListFront(m: Mem, m': Mem, head: int, l: seq<int>, p: int)
    requires ListOk(m, head, l) && SameOutside(m, m', Addr(p), Addr(p + 1)) && p !in l &&
      Load(m', Addr(p) + NEXT) == head
    ensures ListOk(m', Addr(p), [p] + l)
  {
    var r := [p] + l;
    forall k | 0 <= k < |r| ensures Load(m', Addr(r[k]) + NEXT) == PageLink(r, k + 1) {
      if k > 0 {
        assert r[k] == l[k - 1];
        OtherNext(m, m', p, r[k]);
      }
    }
  }

  /** A page that is on no list yet - full or new - comes to the front of its list. */
  lemma BucketAdd(m: Mem, m': Mem, head: int, small: map<int, Small>, l: seq<int>, p: int, sp: Small)
    requires BucketOk(m, head, small, l, sp.bucket) && SameOutside(m, m', Addr(p), Addr(p + 1))
    requires !HasRoom(small, sp.bucket, p) && sp.free != []
    requires Load(m', Addr(p) + NEXT) == head
    ensures BucketOk(m', Addr(p), small[p := sp], [p] + l, sp.bucket)
  {
    var small', b, r := small[p := sp], sp.bucket, [p] + l;
    assert p !in l;
    ListFront(m, m', head, l, p);
    forall k | 0 <= k < |r| ensures HasRoom(small', b, r[k]) {
      if k > 0 {
        assert r[k] == l[k - 1] && HasRoom(small, b, l[k - 1]);
      }
    }
    hide ListOk, SameOutside;
    forall q | HasRoom(small', b, q) ensures q in r {
      if q != p {
        assert HasRoom(small, b, q);
      }
    }
  }

  // ---------- A new page ----------

  function AllCells(p: int, b: int): seq<int>
    requires 0 <= CellCount(b)
  {
    seq(CellCount(b), k requires 0 <= k < CellCount(b) => CellAt(p, b, k))
  }

  /** A page of 4096 bytes is cut into cells behind a header of 16 bytes, as many as fit. */
  lemma PageIsCut(p: int, b: int, k: nat)
    requires 0 <= CellCount(b) && k < CellCount(b)
    ensures |AllCells(p, b)| == 4080 / CellSize(b) && AllCells(p, b)[k] == 4096 * p + 16 + k * CellSize(b)
  {
    CellIsMultiple(p, b, k);
  }

  /** Cell `k` points to the cell behind it, the last one to nothing. */
  ghost predicate Threaded(m: Mem, p: int, b: int, k: nat) {
    Load(m, CellAt(p, b, k)) == if k + 1 < CellCount(b) then CellAt(p, b, k + 1) else 0
  }

  /** The stack of a new page holds every cell, in ascending order. */
  lemma NewPageOk(m: Mem, p: int, b: int)
    requires 0 <= b < BIG_BIN && 0 < CellCount(b)
    requires Load(m, Addr(p) + SIZE) == b && Load(m, Addr(p) + MAGIC) == BIN_MAGIC
    requires Load(m, Addr(p) + STACK) == CellAt(p, b, 0)
    requires forall k: nat | k < CellCount(b) :: Threaded(m, p, b, k)
    ensures SmallOk(m, p, Small(b, AllCells(p, b)))
  {
    var s := AllCells(p, b);
    forall k | 0 <= k < |s| ensures IsCell(p, b, s[k]) && Addr(p) + SMALL_HEADER <= s[k] < Addr(p + 1) {
      assert IsCell(p, b, s[k]);
      CellBounds(p, b, s[k]);
    }
    forall j, k | 0 <= j < k < |s| ensures s[j] != s[k] {
      CellsAscend(p, b, j, k);
    }
    forall k | 0 <= k < |s| ensures Load(m, s[k]) == Link(s, k + 1) {
      var n: nat := k;
      assert s[k] == CellAt(p, b, n);
      assert Threaded(m, p, b, n);
      assert n + 1 < |s| ==> s[n + 1] == CellAt(p, b, n + 1);
    }
  }

  lemma LiveAfterNewPage(tail: int, small: map<int, Small>, big: map<int, Big>, live: map<int, int>, b: int)
    requires LayoutOk(tail, small, big) && LiveOk(small, big, live) && 0 < CellCount(b)
    ensures LiveOk(small[tail := Small(b, AllCells(tail, b))], big, live)
  {
    var sp := Small(b, AllCells(tail, b));
    var small' := small[tail := sp];
    forall a | a in live ensures BlockOk(small', big, a, live[a]) {
      assert BlockOk(small, big, a, live[a]);
    }
    forall a | IsCell(tail, b, a) ensures a in sp.free {
      var k: nat :| k < CellCount(b) && a == CellAt(tail, b, k);
      assert sp.free[k] == a;
    }
    assert Covered(tail, sp, live);
    forall q | q in small' ensures Covered(q, small'[q], live) {
      if q != tail {
        assert Covered(q, small[q], live);
      }
    }
  }

  lemma NewPageLayout(tail: int, small: map<int, Small>, big: map<int, Big>, sp: Small)
    requires LayoutOk(tail, small, big)
    ensures LayoutOk(tail + 1, small[tail := sp], big) && Apart(big, tail) && tail !in small
  {
  }

  /** The heap grows by one small page at the break. */
  lemma AddPage(m: Mem, m': Mem, heads: seq<int>, level: int, tail: int, sh: Shadow, live: map<int, int>, b: int)
    requires HeapOk(m, heads, level, tail, sh, live) && 0 <= b < BIG_BIN && 0 < CellCount(b)
    requires SameOutside(m, m', Addr(tail), Addr(tail + 1)) && Load(m', Addr(tail) + NEXT) == heads[b]
    requires SmallOk(m', tail, Small(b, AllCells(tail, b)))
    ensures HeapOk(m', heads[b := Addr(tail)], level, tail + 1,
                   sh.(small := sh.small[tail := Small(b, AllCells(tail, b))], lists :=
                     sh.lists[b := [tail] + sh.lists[b]]), live)
  {
    var sp := Small(b, AllCells(tail, b));
    NewPageLayout(tail, sh.small, sh.big, sp);
    assert BucketOk(m, heads[b], sh.small, sh.lists[b], b);
    hide LiveOk, ListsOk, BucketOk, SkipOk, ChainMatches, SmallsOk, BigsOk, SmallOk, LayoutOk, Apart, SameOutside;
    SmallsAfter(m, m', sh.small, tail, sp);
    BigsAfter(m, m', sh.big, tail);
    ChainAfter(m, m', level, sh.big, sh.chain, tail);
    LiveAfterNewPage(tail, sh.small, sh.big, live, b);
    BucketAdd(m, m', heads[b], sh.small, sh.lists[b], tail, sp);
    ListsAfter(m, m', heads, sh.small, sh.lists, tail, sp, Addr(tail), [tail] + sh.lists[b]);
  }

  // ---------- Whole steps ----------

  /** The first page of a list, and its topmost free cell. */
  lemma FirstOfList(m: Mem, heads: seq<int>, level: int, tail: int, sh: Shadow, live: map<int, int>, b: int)
    requires HeapOk(m, heads, level, tail, sh, live) && 0 <= b < BIG_BIN
    ensures |heads| == |sh.lists| == BIG_BIN
    ensures heads[b] == 0 <==> sh.lists[b] == []
    ensures forall p | HasRoom(sh.small, b, p) :: sh.lists[b] != []
    ensures sh.lists[b] != [] ==> var p := sh.lists[b][0];
      && heads[b] == Addr(p) && HasRoom(sh.small, b, p)
      && Load(m, Addr(p) + STACK) == sh.small[p].free[0]
      && Load(m, sh.small[p].free[0]) == Link(sh.small[p].free, 1)
      && (Link(sh.small[p].free, 1) == 0 <==> |sh.small[p].free| == 1)
      && Addr(p) + STACK != sh.small[p].free[0] && Addr(p) < sh.small[p].free[0] < Addr(p + 1) && HEAD < p
  {
    var l := sh.lists[b];
    assert BucketOk(m, heads[b], sh.small, l, b);
    if l != [] {
      assert HasRoom(sh.small, b, l[0]);
      assert SmallOk(m, l[0], sh.small[l[0]]);
    }
  }

  lemma NextStore(m: Mem, p: int, sp: Small, v: int)
    requires SmallOk(m, p, sp)
    ensures SmallOk(m[Addr(p) + NEXT := v], p, sp)
  {
  }

  /** A cell is taken from the first page of a list, and more are left. */
  lemma PopAndStay(m: Mem, m': Mem, heads: seq<int>, level: int, tail: int, sh: Shadow, live: map<int, int>, b: int,
      p: int, size: int)
    requires HeapOk(m, heads, level, tail, sh, live) && HasRoom(sh.small, b, p) && 0 <= b < BIG_BIN
    requires |sh.small[p].free| > 1 && 0 <= size <= CellSize(b)
    requires m' == m[Addr(p) + STACK := Load(m, sh.small[p].free[0])]
    ensures sh.small[p].free[0] !in live
    ensures HeapOk(m', heads, level, tail, sh.(small := sh.small[p := sh.small[p].(free := sh.small[p].free[1..])]),
                   live[sh.small[p].free[0] := size])
  {
    var sp := sh.small[p];
    var sp' := sp.(free := sp.free[1..]);
    var sh', live' := sh.(small := sh.small[p := sp']), live[sp.free[0] := size];
    assert SmallOk(m, p, sp);
    var m1 := PopCell(m, p, sp);
    LiveAfterPop(tail, sh.small, sh.big, live, p, size);
    assert BucketOk(m, heads[b], sh.small, sh.lists[b], b);
    BucketKeep(m, m', heads[b], sh.small, sh.lists[b], p, sp');
    ListsAfter(m, m', heads, sh.small, sh.lists, p, sp', heads[b], sh.lists[b]);
    assert heads[b := heads[b]] == heads && sh.lists[b := sh.lists[b]] == sh.lists;
    SmallStep(m, m', heads, heads, level, tail, sh, sh', live, live', p);
  }

  /** The last cell of a page is taken; the page leaves its list. */
  lemma PopAndLeave(m: Mem, m': Mem, heads: seq<int>, level: int, tail: int, sh: Shadow, live: map<int, int>, b: int,
      p: int, size: int)
    requires HeapOk(m, heads, level, tail, sh, live) && HasRoom(sh.small, b, p) && 0 <= b < BIG_BIN
    requires sh.lists[b] != [] && p == sh.lists[b][0]
    requires |sh.small[p].free| == 1 && 0 <= size <= CellSize(b)
    requires m' == m[Addr(p) + STACK := Load(m, sh.small[p].free[0])][Addr(p) + NEXT := 0]
    ensures sh.small[p].free[0] !in live
    ensures HeapOk(m', heads[b := Load(m, Addr(p) + NEXT)], level, tail,
                   sh.(small := sh.small[p := sh.small[p].(free := sh.small[p].free[1..])], lists :=
                     sh.lists[b := sh.lists[b][1..]]),
                   live[sh.small[p].free[0] := size])
  {
    var sp := sh.small[p];
    var sp' := sp.(free := sp.free[1..]);
    var next, l := Load(m, Addr(p) + NEXT), sh.lists[b][1..];
    var sh', live' := sh.(small := sh.small[p := sp'], lists := sh.lists[b := l]), live[sp.free[0] := size];
    assert SmallOk(m, p, sp);
    var m1 := PopCell(m, p, sp);
    NextStore(m1, p, sp', 0);
    LiveAfterPop(tail, sh.small, sh.big, live, p, size);
    assert BucketOk(m, heads[b], sh.small, sh.lists[b], b);
    BucketDrop(m, m', heads[b], sh.small, sh.lists[b], p, sp');
    ListsAfter(m, m', heads, sh.small, sh.lists, p, sp', next, l);
    SmallStep(m, m', heads, heads[b := next], level, tail, sh, sh', live, live', p);
  }

  /** A cell is given back to a page that has free cells. */
  lemma PushAndStay(m: Mem, m': Mem, heads: seq<int>, level: int, tail: int, sh: Shadow, live: map<int, int>, b: int,
      p: int, a: int)
    requires HeapOk(m, heads, level, tail, sh, live) && HasRoom(sh.small, b, p) && 0 <= b < BIG_BIN
    requires a in live && Owner(a) == p
    requires m' == m[a := Load(m, Addr(p) + STACK)][Addr(p) + STACK := a]
    ensures HeapOk(m', heads, level, tail, sh.(small := sh.small[p := sh.small[p].(free := [a] + sh.small[p].free)]),
      live - {a})
  {
    var sp := sh.small[p];
    var sp' := sp.(free := [a] + sp.free);
    var sh', live' := sh.(small := sh.small[p := sp']), live - {a};
    assert SmallOk(m, p, sp);
    LiveAfterPush(tail, sh.small, sh.big, live, p, a);
    var m1 := PushCell(m, p, sp, a);
    assert BucketOk(m, heads[b], sh.small, sh.lists[b], b);
    BucketKeep(m, m', heads[b], sh.small, sh.lists[b], p, sp');
    ListsAfter(m, m', heads, sh.small, sh.lists, p, sp', heads[b], sh.lists[b]);
    assert heads[b := heads[b]] == heads && sh.lists[b := sh.lists[b]] == sh.lists;
    SmallStep(m, m', heads, heads, level, tail, sh, sh', live, live', p);
  }

  /** A cell is given back to a full page, which comes back to its list. */
  lemma PushAndReturn(m: Mem, m1: Mem, m': Mem, heads: seq<int>, level: int, tail: int, sh: Shadow, live: map<int, int>,
      b: int, p: int, a: int)
    requires HeapOk(m, heads, level, tail, sh, live) && p in sh.small && sh.small[p].bucket == b &&
      sh.small[p].free == [] && 0 <= b < BIG_BIN
    requires a in live && Owner(a) == p
    requires m1 == m[Addr(p) + NEXT := heads[b]]
    requires m' == m1[a := Load(m1, Addr(p) + STACK)][Addr(p) + STACK := a]
    ensures HeapOk(m', heads[b := Addr(p)], level, tail,
                   sh.(small := sh.small[p := sh.small[p].(free := [a] + sh.small[p].free)], lists :=
                     sh.lists[b := [p] + sh.lists[b]]),
                   live - {a})
  {
    var sp := sh.small[p];
    var sp', l := sp.(free := [a] + sp.free), [p] + sh.lists[b];
    var sh', live' := sh.(small := sh.small[p := sp'], lists := sh.lists[b := l]), live - {a};
    assert SmallOk(m, p, sp);
    NextStore(m, p, sp, heads[b]);
    LiveAfterPush(tail, sh.small, sh.big, live, p, a);
    var m2 := PushCell(m1, p, sp, a);
    assert BucketOk(m, heads[b], sh.small, sh.lists[b], b);
    BucketAdd(m, m', heads[b], sh.small, sh.lists[b], p, sp');
    ListsAfter(m, m', heads, sh.small, sh.lists, p, sp', Addr(p), l);
    SmallStep(m, m', heads, heads[b := Addr(p)], level, tail, sh, sh', live, live', p);
  }
}
