/**
 Whole runs of the allocator (src/memory/alloc.cpp:567-949): to a client that gives back and
 resizes what it holds, the heap is a collection of private blocks.
 */
module HeapRuns {
  import opened SkipSpec
  import opened HeapSpec
  import opened HeapKept
  import opened Kmalloc

  /** What a client asks for; blocks are named by their number among those it holds. */
  datatype Request =
    | Take(size: nat)
    | TakeAligned(size: nat)
    | GiveBack(k: nat)
    | Resize(k: nat, size: nat)
    | Store(k: nat, offset: nat, value: int)

  /** A block as the client thinks of it: the size it asked for, and the words it has stored. */
  datatype Held = Held(size: nat, aligned: bool, words: map<nat, int>)

  function Removed<T>(s: seq<T>, k: nat): seq<T>
    requires k < |s|
  {
    s[..k] + s[k + 1..]
  }

  /** The word is part of the block. */
  predicate IsWord(b: Held, offset: nat) {
    offset < b.size && offset % 4 == 0
  }

  /** A resized block keeps its words as far as they fit. */
  function Cut(b: Held, size: nat): Held {
    Held(size, false, map i: nat | i in b.words && i < size :: b.words[i])
  }

  function Written(b: Held, offset: nat, value: int): Held {
    b.(words := b.words[offset := value])
  }

  /**
   What the client holds after a request.  A request that makes no sense, or that the model of
   the allocator leaves out (to resize to nothing, or to resize an aligned block), is not made.
   */
  function Step(held: seq<Held>, r: Request): seq<Held> {
    match r
    case Take(size) => if size == 0 then held else held + [Held(size, false, map[])]
    case TakeAligned(size) => held + [Held(size, true, map[])]
    case GiveBack(k) => if k < |held| then Removed(held, k) else held
    case Resize(k, size) =>
      if k < |held| && 0 < size && !held[k].aligned then held[k := Cut(held[k], size)] else held
    case Store(k, offset, value) =>
      if k < |held| && IsWord(held[k], offset) then held[k := Written(held[k], offset, value)] else held
  }

  function Run(held: seq<Held>, requests: seq<Request>): seq<Held>
    decreases |requests|
  {
    if requests == [] then held else Step(Run(held, requests[..|requests| - 1]), requests[|requests| - 1])
  }

  /** The block at `p` is what the client thinks it is. */
  ghost predicate HoldsAt(m: Mem, live: map<int, int>, b: Held, p: int) {
    && p in live && live[p] == b.size && (b.aligned <==> p % PAGE_SIZE == 0)
    && forall i | i in b.words :: IsWord(b, i) && Load(m, p + i) == b.words[i]
  }

  /** The client holds exactly the live blocks. */
  ghost predicate ClientOk(m: Mem, live: map<int, int>, held: seq<Held>, ptrs: seq<int>) {
    && |ptrs| == |held|
    && (forall j, k | 0 <= j < k < |ptrs| :: ptrs[j] != ptrs[k])
    && (forall p | p in live :: p in ptrs)
    && forall k | 0 <= k < |ptrs| :: HoldsAt(m, live, held[k], ptrs[k])
  }

  /** Blocks that are neither given back nor resized nor written stay what they are. */
  lemma StillHeld(m: Mem, live: map<int, int>, m': Mem, live': map<int, int>, b: Held, p: int, a: int)
    requires HoldsAt(m, live, b, p) && p != a && p in live' && live'[p] == live[p] && Kept(m, m', live - {a})
    ensures HoldsAt(m', live', b, p)
  {
    assert p in live - {a} && (live - {a})[p] == live[p];
    forall i | i in b.words ensures IsWord(b, i) && Load(m', p + i) == b.words[i] {
      assert p <= p + i < p + live[p];
      assert Load(m, p + i) == b.words[i];
    }
  }

  lemma Taken(m: Mem, live: map<int, int>, held: seq<Held>, ptrs: seq<int>, m': Mem, p: int, size: nat)
    requires ClientOk(m, live, held, ptrs) && Kept(m, m', live) && p !in live
    ensures ClientOk(m', live[p := size], held + [Held(size, p % PAGE_SIZE == 0, map[])], ptrs + [p])
  {
    hide Kept;
    var live', held', ptrs' := live[p := size], held + [Held(size, p % PAGE_SIZE == 0, map[])], ptrs + [p];
    assert live - {p} == live;
    forall k | 0 <= k < |ptrs'| ensures HoldsAt(m', live', held'[k], ptrs'[k]) {
      if k < |ptrs| {
        assert HoldsAt(m, live, held[k], ptrs[k]);
        StillHeld(m, live, m', live', held[k], ptrs[k], p);
      }
    }
    forall j, k | 0 <= j < k < |ptrs'| ensures ptrs'[j] != ptrs'[k] {
      assert HoldsAt(m, live, held[j], ptrs[j]);
    }
    forall q | q in live' ensures q in ptrs' {
      if q == p {
        assert ptrs'[|ptrs|] == p;
      } else {
        assert q in ptrs;
      }
    }
  }

  lemma GivenBack(m: Mem, live: map<int, int>, held: seq<Held>, ptrs: seq<int>, m': Mem, k: nat)
    requires ClientOk(m, live, held, ptrs) && k < |ptrs| && Kept(m, m', live - {ptrs[k]})
    ensures k < |held| && ClientOk(m', live - {ptrs[k]}, Removed(held, k), Removed(ptrs, k))
  {
    hide Kept;
    var p := ptrs[k];
    var live', held', ptrs' := live - {p}, Removed(held, k), Removed(ptrs, k);
    forall j | 0 <= j < |ptrs'| ensures HoldsAt(m', live', held'[j], ptrs'[j]) {
      var t := if j < k then j else j + 1;
      assert HoldsAt(m, live, held[t], ptrs[t]) && ptrs'[j] == ptrs[t] && held'[j] == held[t];
      StillHeld(m, live, m', live', held[t], ptrs[t], p);
    }
    forall q | q in live' ensures q in ptrs' {
      var t :| 0 <= t < |ptrs| && ptrs[t] == q;
      assert ptrs'[if t < k then t else t - 1] == q;
    }
  }

  /** A block has been replaced by another one, or has changed. */
  lemma Exchanged(m: Mem, live: map<int, int>, held: seq<Held>, ptrs: seq<int>, m': Mem, k: nat, b: Held, p: int)
    requires ClientOk(m, live, held, ptrs) && k < |ptrs| && Kept(m, m', live - {ptrs[k]}) &&
      (p == ptrs[k] || p !in live)
    requires HoldsAt(m', (live - {ptrs[k]})[p := b.size], b, p)
    ensures k < |held| && ClientOk(m', (live - {ptrs[k]})[p := b.size], held[k := b], ptrs[k := p])
  {
    hide Kept;
    var live', held', ptrs' := (live - {ptrs[k]})[p := b.size], held[k := b], ptrs[k := p];
    forall j | 0 <= j < |ptrs'| ensures HoldsAt(m', live', held'[j], ptrs'[j]) {
      if j != k {
        assert HoldsAt(m, live, held[j], ptrs[j]);
        StillHeld(m, live, m', live', held[j], ptrs[j], ptrs[k]);
      }
    }
    forall i, j | 0 <= i < j < |ptrs'| ensures ptrs'[i] != ptrs'[j] {
      assert HoldsAt(m, live, held[i], ptrs[i]) && HoldsAt(m, live, held[j], ptrs[j]);
    }
    forall q | q in live' ensures q in ptrs' {
      if q == p {
        assert ptrs'[k] == p;
      } else {
        var t :| 0 <= t < |ptrs| && ptrs[t] == q;
        assert ptrs'[t] == q;
      }
    }
  }

  lemma CutHolds(m: Mem, live: map<int, int>, m': Mem, b: Held, p: int, item: int, size: nat)
    requires HoldsAt(m, live, b, p) && !b.aligned && item % PAGE_SIZE != 0
    requires forall i | 0 <= i < live[p] && i < size && i % 4 == 0 :: Load(m', item + i) == Load(m, p + i)
    ensures Cut(b, size).size == size && HoldsAt(m', (live - {p})[item := size], Cut(b, size), item)
  {
    forall i | i in Cut(b, size).words ensures IsWord(Cut(b, size), i) && Load(m', item + i) == Cut(b, size).words[i] {
      assert IsWord(b, i);
    }
  }

  lemma WrittenHolds(m: Mem, live: map<int, int>, b: Held, p: int, offset: nat, value: int)
    requires HoldsAt(m, live, b, p) && IsWord(b, offset)
    ensures Written(b, offset, value).size == b.size && live == (live - {p})[p := b.size]
    ensures HoldsAt(m[p + offset := value], live, Written(b, offset, value), p)
  {
  }

  lemma HeldIs(m: Mem, live: map<int, int>, held: seq<Held>, ptrs: seq<int>, k: nat)
    requires ClientOk(m, live, held, ptrs) && k < |held|
    ensures |ptrs| == |held| && HoldsAt(m, live, held[k], ptrs[k])
  {
  }

  /** The address space has room for what the request may need. */
  predicate HasRoomFor(heap: Heap, r: Request)
    reads heap
  {
    match r
    case Take(size) => heap.Room(size)
    case TakeAligned(size) => heap.Room(size + PAGE_SIZE)
    case Resize(_, size) => heap.Room(size)
    case _ => true
  }

  /** One request of a client that holds `held` at the addresses `ptrs`. */
  method Serve(heap: Heap, r: Request, random: int, held: seq<Held>, ptrs: seq<int>) returns (ptrs': seq<int>)
    requires heap.Valid() && ClientOk(heap.mem, heap.live, held, ptrs) && HasRoomFor(heap, r) &&
      0 <= random <= SKIP_MAX_LEVEL
    modifies heap
    ensures heap.Valid() && ClientOk(heap.mem, heap.live, Step(held, r), ptrs')
  {
    hide HeapOk, Kept, ClientOk, Cut, Written, Load;
    ghost var m, live := heap.mem, heap.live;
    ptrs' := ptrs;
    match r
    case Take(size) =>
      var p := heap.Malloc(size);
      if size > 0 {
        Taken(m, live, held, ptrs, heap.mem, p, size);
        ptrs' := ptrs + [p];
      }
    case TakeAligned(size) =>
      var p := heap.Valloc(size);
      Taken(m, live, held, ptrs, heap.mem, p, size);
      ptrs' := ptrs + [p];
    case GiveBack(k) =>
      if k < |held| {
        HeldIs(m, live, held, ptrs, k);
        heap.Free(ptrs[k], random);
        GivenBack(m, live, held, ptrs, heap.mem, k);
        ptrs' := Removed(ptrs, k);
      }
    case Resize(k, size) =>
      if k < |held| && 0 < size && !held[k].aligned {
        HeldIs(m, live, held, ptrs, k);
        var p := heap.Realloc(ptrs[k], size, random);
        CutHolds(m, live, heap.mem, held[k], ptrs[k], p, size);
        Exchanged(m, live, held, ptrs, heap.mem, k, Cut(held[k], size), p);
        ptrs' := ptrs[k := p];
      }
    case Store(k, offset, value) =>
      if k < |held| && IsWord(held[k], offset) {
        HeldIs(m, live, held, ptrs, k);
        heap.UserStore(ptrs[k], ptrs[k] + offset, value);
        WrittenHolds(m, live, held[k], ptrs[k], offset, value);
        Exchanged(m, live, held, ptrs, heap.mem, k, Written(held[k], offset, value), ptrs[k]);
        assert ptrs[k := ptrs[k]] == ptrs;
      }
  }

  /**
   Any run of requests, as far as the address space has room for them.  Afterwards the client
   holds the blocks it should hold, each with the size it asked for last and with every word it
   has stored there, and no two of them overlap.
   */
  method RunAll(heap: Heap, requests: seq<Request>, randoms: seq<int>)
      returns (served: nat, held: seq<Held>, ptrs: seq<int>)
    requires heap.Valid() && heap.live == map[] && |randoms| == |requests|
    requires forall i | 0 <= i < |randoms| :: 0 <= randoms[i] <= SKIP_MAX_LEVEL
    modifies heap
    ensures heap.Valid() && served <= |requests| && (served < |requests| ==> !HasRoomFor(heap, requests[served]))
    ensures held == Run([], requests[..served]) && ClientOk(heap.mem, heap.live, held, ptrs)
    ensures |ptrs| == |held| && forall j, k | 0 <= j < |ptrs| && 0 <= k < |ptrs| && j != k ::
      ptrs[j] + held[j].size <= ptrs[k] || ptrs[k] + held[k].size <= ptrs[j]
  {
    hide Kept, ClientOk;
    served, held, ptrs := 0, [], [];
    NothingHeld(heap.mem);
    assert requests[..0] == [];
    while served < |requests| && HasRoomFor(heap, requests[served])
      invariant served <= |requests| && heap.Valid()
      invariant held == Run([], requests[..served]) && ClientOk(heap.mem, heap.live, held, ptrs)
    {
      ptrs := Serve(heap, requests[served], randoms[served], held, ptrs);
      assert requests[..served + 1][..served] == requests[..served];
      held := Step(held, requests[served]);
      served := served + 1;
    }
    HeldApart(heap.mem, heap.binHead, heap.bigLevel, heap.tail, heap.sh, heap.live, held, ptrs);
  }

  lemma NothingHeld(m: Mem)
    ensures ClientOk(m, map[], [], [])
  {
  }

  lemma HeldApart(m: Mem, heads: seq<int>, level: int, tail: int, sh: Shadow, live: map<int, int>, held: seq<Held>,
      ptrs: seq<int>)
    requires HeapOk(m, heads, level, tail, sh, live) && ClientOk(m, live, held, ptrs)
    ensures |ptrs| == |held| && forall j, k | 0 <= j < |ptrs| && 0 <= k < |ptrs| && j != k ::
      ptrs[j] + held[j].size <= ptrs[k] || ptrs[k] + held[k].size <= ptrs[j]
  {
    hide HeapOk;
    forall j, k | 0 <= j < |ptrs| && 0 <= k < |ptrs| && j != k
      ensures ptrs[j] + held[j].size <= ptrs[k] || ptrs[k] + held[k].size <= ptrs[j]
    {
      assert HoldsAt(m, live, held[j], ptrs[j]) && HoldsAt(m, live, held[k], ptrs[k]);
      BlocksAreApart(m, heads, level, tail, sh, live, ptrs[j], ptrs[k]);
    }
  }
}
