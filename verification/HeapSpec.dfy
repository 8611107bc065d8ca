/**
 What the slab allocator of src/memory/alloc.cpp keeps true of memory: small pages cut into
 cells with a free stack threaded through them, big bins of whole pages on the skip list,
 and the blocks handed out.
 */
module HeapSpec {
  import opened SkipSpec

  const BIN_MAGIC: int := 0xDEFA_D00D
  const NUM_BINS: int := 11
  const BIG_BIN: int := 10
  const SMALL_HEADER: int := 16

  /** A page of small cells: its bucket, and the free cells from the top of the stack down. */
  datatype Small = Small(bucket: int, free: seq<int>)

  /** A big bin: how many pages it spans and whether it is handed out. */
  datatype Big = Big(pages: int, busy: bool)

  /** The allocator's view of its pages; `lists` are the bucket lists and `chain` the skip list. */
  datatype Shadow = Shadow(small: map<int, Small>, big: map<int, Big>, lists: seq<seq<int>>, chain: seq<SkipNode>)

  /** NTH_BIT(SMALLEST_BIN_LOG + bucket) */
  function CellSize(bucket: int): (r: int)
    ensures 4 <= r
  {
    if bucket == 0 then 4 else if bucket == 1 then 8 else if bucket == 2 then 16 else if bucket == 3 then 32
    else if bucket == 4 then 64 else if bucket == 5 then 128 else if bucket == 6 then 256 else if bucket == 7 then 512
    else if bucket == 8 then 1024 else 2048
  }

  /** How many cells fit into a page behind its header. */
  function CellCount(bucket: int): int {
    (PAGE_SIZE - SMALL_HEADER) / CellSize(bucket)
  }

  /** The address of cell `k`. */
  function CellAt(page: int, bucket: int, k: nat): int {
    if k == 0 then Addr(page) + SMALL_HEADER else CellAt(page, bucket, k - 1) + CellSize(bucket)
  }

  ghost predicate IsCell(page: int, bucket: int, a: int) {
    exists k: nat :: k < CellCount(bucket) && a == CellAt(page, bucket, k)
  }

  lemma {:induction false} CellIsMultiple(page: int, bucket: int, k: nat)
    ensures CellAt(page, bucket, k) == Addr(page) + SMALL_HEADER + k * CellSize(bucket)
  {
    if k > 0 {
      CellIsMultiple(page, bucket, k - 1);
    }
  }

  lemma CountFits(bucket: int, k: nat)
    requires k < CellCount(bucket)
    ensures k * CellSize(bucket) + CellSize(bucket) <= PAGE_SIZE - SMALL_HEADER
    ensures k * CellSize(bucket) % 4 == 0
  {
    var s, c := CellSize(bucket), CellCount(bucket);
    assert k * s + s == (k + 1) * s;
    assert (k + 1) * s <= c * s;
    MultipleOfFour(k, s);
  }

  lemma MultipleOfFour(k: nat, s: int)
    requires s % 4 == 0
    ensures k * s % 4 == 0
  {
    var q := s / 4;
    assert k * s == 4 * (k * q);
  }

  lemma AlignedOffset(page: int, x: int)
    requires x % 4 == 0
    ensures (Addr(page) + SMALL_HEADER + x) % 4 == 0
  {
  }

  /** Every cell lies behind the header, inside its page. */
  lemma CellBounds(page: int, bucket: int, a: int)
    requires IsCell(page, bucket, a)
    ensures Addr(page) + SMALL_HEADER <= a && a + CellSize(bucket) <= Addr(page + 1) && a % 4 == 0
  {
    var k: nat :| k < CellCount(bucket) && a == CellAt(page, bucket, k);
    CellIsMultiple(page, bucket, k);
    CountFits(bucket, k);
    AlignedOffset(page, k * CellSize(bucket));
  }

  lemma {:induction false} CellsAscend(page: int, bucket: int, j: nat, k: nat)
    requires j < k
    ensures CellAt(page, bucket, j) + CellSize(bucket) <= CellAt(page, bucket, k)
  {
    if j < k - 1 {
      CellsAscend(page, bucket, j, k - 1);
    }
  }

  /** Different cells of a page do not overlap. */
  lemma CellsApart(page: int, bucket: int, a: int, b: int)
    requires IsCell(page, bucket, a) && IsCell(page, bucket, b) && a < b
    ensures a + CellSize(bucket) <= b
  {
    var j: nat :| j < CellCount(bucket) && a == CellAt(page, bucket, j);
    var k: nat :| k < CellCount(bucket) && b == CellAt(page, bucket, k);
    if j < k {
      CellsAscend(page, bucket, j, k);
    } else if k < j {
      CellsAscend(page, bucket, k, j);
    }
  }

  function BigSize(pages: int): int {
    PAGE_SIZE * pages - BIG_HEADER
  }

  /** Element `k` of a linked sequence, null past its end. */
  function Link(s: seq<int>, k: nat): int {
    if k < |s| then s[k] else 0
  }

  function PageLink(s: seq<int>, k: nat): int {
    if k < |s| then Addr(s[k]) else 0
  }

  /** The free stack: each free cell holds the address of the one below it. */
  ghost predicate StackOk(m: Mem, top: int, s: seq<int>) {
    top == Link(s, 0) && forall k | 0 <= k < |s| :: Load(m, s[k]) == Link(s, k + 1)
  }

  ghost predicate FreeCellsOk(page: int, sp: Small) {
    && (forall k | 0 <= k < |sp.free| ::
      IsCell(page, sp.bucket, sp.free[k]) && Addr(page) + SMALL_HEADER <= sp.free[k] < Addr(page + 1))
    && (forall j, k | 0 <= j < k < |sp.free| :: sp.free[j] != sp.free[k])
  }

  ghost predicate SmallOk(m: Mem, page: int, sp: Small) {
    && 0 <= sp.bucket < BIG_BIN
    && Load(m, Addr(page) + SIZE) == sp.bucket && Load(m, Addr(page) + MAGIC) == BIN_MAGIC
    && StackOk(m, Load(m, Addr(page) + STACK), sp.free)
    && FreeCellsOk(page, sp)
  }

  ghost predicate BigOk(m: Mem, page: int, b: Big) {
    && 0 < b.pages
    && Load(m, Addr(page) + SIZE) == BigSize(b.pages) && Load(m, Addr(page) + MAGIC) == BIN_MAGIC
    && Load(m, Addr(page) + STACK) == (if b.busy then 0 else Addr(page) + BIG_HEADER)
    && (!b.busy ==> Load(m, Addr(page) + BIG_HEADER) == 0)
  }

  /** Pages are pairwise disjoint and below the break. */
  ghost predicate LayoutOk(tail: int, small: map<int, Small>, big: map<int, Big>) {
    && HEAD < tail
    && (forall p | p in small :: HEAD < p < tail && p !in big)
    && (forall p | p in big :: HEAD < p && 0 < big[p].pages && p + big[p].pages <= tail)
    && (forall p, q | p in big && q in big && p < q :: p + big[p].pages <= q)
    && (forall p, q | p in big && q in small && p < q :: p + big[p].pages <= q)
  }

  ghost predicate SmallsOk(m: Mem, small: map<int, Small>) {
    forall p | p in small :: SmallOk(m, p, small[p])
  }

  ghost predicate BigsOk(m: Mem, big: map<int, Big>) {
    forall p | p in big :: BigOk(m, p, big[p])
  }

  ghost predicate ListOk(m: Mem, head: int, l: seq<int>) {
    && head == PageLink(l, 0)
    && (forall k | 0 <= k < |l| :: Load(m, Addr(l[k]) + NEXT) == PageLink(l, k + 1))
    && (forall j, k | 0 <= j < k < |l| :: l[j] != l[k])
  }

  /** A page has a free cell and belongs to bucket `b`. */
  predicate HasRoom(small: map<int, Small>, b: int, p: int) {
    p in small && small[p].bucket == b && small[p].free != []
  }

  /** The list of a bucket holds exactly its pages with a free cell, each once. */
  ghost predicate BucketOk(m: Mem, head: int, small: map<int, Small>, l: seq<int>, b: int) {
    && ListOk(m, head, l)
    && (forall k | 0 <= k < |l| :: HasRoom(small, b, l[k]))
    && (forall p | HasRoom(small, b, p) :: p in l)
  }

  ghost predicate ListsOk(m: Mem, heads: seq<int>, small: map<int, Small>, lists: seq<seq<int>>) {
    && |heads| == |lists| == BIG_BIN
    && forall b | 0 <= b < BIG_BIN :: BucketOk(m, heads[b], small, lists[b], b)
  }

  ghost predicate OnChain(c: seq<SkipNode>, page: int) {
    exists j :: 0 <= j < |c| && c[j].page == page
  }

  ghost predicate IsFreeBig(big: map<int, Big>, n: SkipNode) {
    n.page in big && !big[n.page].busy && n.size == BigSize(big[n.page].pages)
  }

  /** The skip list holds exactly the big bins that are free. */
  ghost predicate ChainMatches(big: map<int, Big>, c: seq<SkipNode>) {
    && (forall j | 0 <= j < |c| :: IsFreeBig(big, c[j]))
    && (forall p | p in big && !big[p].busy :: OnChain(c, p))
  }

  /** The page whose header describes the block at `a`; page-aligned blocks belong to the page before. */
  function Owner(a: int): int {
    if a % PAGE_SIZE == 0 then (a - 1) / PAGE_SIZE else a / PAGE_SIZE
  }

  /** A block handed out at `a`, of page `p`, can hold `size` bytes. */
  ghost predicate BlockOf(small: map<int, Small>, big: map<int, Big>, p: int, a: int, size: int) {
    && 0 <= size
    && if p in small then IsCell(p, small[p].bucket, a) && a !in small[p].free && size <= CellSize(small[p].bucket)
       else p in big && big[p].busy &&
            ((a == Addr(p) + BIG_HEADER && size <= BigSize(big[p].pages))
             || (a == Addr(p + 1) && size + PAGE_SIZE <= PAGE_SIZE * big[p].pages))
  }

  ghost predicate BlockOk(small: map<int, Small>, big: map<int, Big>, a: int, size: int) {
    BlockOf(small, big, Owner(a), a, size)
  }

  ghost predicate BlocksOk(small: map<int, Small>, big: map<int, Big>, live: map<int, int>) {
    forall a | a in live :: BlockOk(small, big, a, live[a])
  }

  /** Every cell of a page is free or handed out. */
  ghost predicate Covered(p: int, sp: Small, live: map<int, int>) {
    forall a | IsCell(p, sp.bucket, a) :: a in live || a in sp.free
  }

  ghost predicate CellsOk(small: map<int, Small>, live: map<int, int>) {
    forall p | p in small :: Covered(p, small[p], live)
  }

  /** A big bin is busy exactly if one block of it is handed out, plain or page-aligned. */
  ghost predicate BinsOk(big: map<int, Big>, live: map<int, int>) {
    && (forall p | p in big :: big[p].busy <==> Addr(p) + BIG_HEADER in live || Addr(p + 1) in live)
    && (forall p | p in big :: !(Addr(p) + BIG_HEADER in live && Addr(p + 1) in live))
  }

  ghost predicate LiveOk(small: map<int, Small>, big: map<int, Big>, live: map<int, int>) {
    BlocksOk(small, big, live) && CellsOk(small, live) && BinsOk(big, live)
  }

  ghost predicate HeapOk(m: Mem, heads: seq<int>, level: int, tail: int, sh: Shadow, live: map<int, int>) {
    && LayoutOk(tail, sh.small, sh.big) && SmallsOk(m, sh.small) && BigsOk(m, sh.big)
    && ListsOk(m, heads, sh.small, sh.lists)
    && SkipOk(m, level, sh.chain) && ChainMatches(sh.big, sh.chain)
    && LiveOk(sh.small, sh.big, live)
  }

  // ---------- What the invariant gives to callers ----------

  lemma OwnerOfCell(page: int, bucket: int, a: int)
    requires IsCell(page, bucket, a)
    ensures Owner(a) == page
  {
    CellBounds(page, bucket, a);
  }

  lemma OwnerOfBig(page: int)
    ensures Owner(Addr(page) + BIG_HEADER) == page && Owner(Addr(page + 1)) == page
  {
  }

  /** Where the memory reserved for a block ends. */
  ghost function BlockEnd(small: map<int, Small>, big: map<int, Big>, a: int): int {
    var p := Owner(a);
    if p in small then a + CellSize(small[p].bucket)
    else if p in big then Addr(p + big[p].pages)
    else a
  }

  lemma BlockInPages(tail: int, small: map<int, Small>, big: map<int, Big>, a: int, size: int)
    requires LayoutOk(tail, small, big) && BlockOk(small, big, a, size)
    ensures var p := Owner(a);
      && a + size <= BlockEnd(small, big, a) <= Addr(tail)
      && (p in small ==> Addr(p) + SMALL_HEADER <= a && BlockEnd(small, big, a) <= Addr(p + 1))
      && (p in big ==> Addr(p) + BIG_HEADER <= a)
      && (p in small || p in big)
  {
    var p := Owner(a);
    if p in small {
      CellBounds(p, small[p].bucket, a);
    }
  }

  /** Blocks handed out never overlap, whatever their sizes and kinds. */
  lemma LiveBlocksDisjoint(tail: int, small: map<int, Small>, big: map<int, Big>, live: map<int, int>, a: int, b: int)
    requires LayoutOk(tail, small, big) && LiveOk(small, big, live)
    requires a in live && b in live && a < b
    ensures a + live[a] <= BlockEnd(small, big, a) <= b
  {
    var p, q := Owner(a), Owner(b);
    BlockInPages(tail, small, big, a, live[a]);
    BlockInPages(tail, small, big, b, live[b]);
    if p == q && p in small {
      CellsApart(p, small[p].bucket, a, b);
    }
  }

  /** No block overlaps a header, neither of its own bin nor of another one. */
  lemma LiveBlocksAvoidHeaders(tail: int, small: map<int, Small>, big: map<int, Big>, live: map<int, int>, a: int,
      q: int)
    requires LayoutOk(tail, small, big) && LiveOk(small, big, live) && a in live
    ensures q in small ==> BlockEnd(small, big, a) <= Addr(q) || Addr(q) + SMALL_HEADER <= a
    ensures q in big ==> BlockEnd(small, big, a) <= Addr(q) || Addr(q) + BIG_HEADER <= a
  {
    BlockInPages(tail, small, big, a, live[a]);
  }
}
