/** Runs of `kalloc` and `kfree` (src/sys/kernel/src/kalloc/kalloc.cpp): every
    block keeps its size as long as it is held. */
module KallocRuns {

  import opened KallocModel
  import opened SlabModel
  import opened SmallItemHash
  import opened Shared

  // ---------- one call keeps the sizes of the other blocks ----------

  /** All blocks but one are still of the class they were of. */
  ghost predicate SizesKept(h: Heap, g: Heap, except: nat) {
    && |g.buckets| == |h.buckets|
    && (forall i, q | 0 <= i < |h.buckets| && Live(h.buckets[i], q) && q != except :: Live(g.buckets[i], q))
    && (forall q | LargePage(h, q) && q != except :: LargePage(g, q))
  }

  lemma StillHolds(h: Heap, g: Heap, except: nat, q: nat, size: nat)
    requires SizesKept(h, g, except) && HoldsBytes(h, q, size) && q != except
    ensures HoldsBytes(g, q, size)
  {
    hide Live;
    hide LargePage;
  }

  lemma SmallKeeps(h: Heap, idx: nat)
    requires Good(h) && h.supply != [] && idx < |h.buckets|
    ensures SizesKept(h, AllocateFrom(h, idx).0, 0)
  {
    hide Live;
    hide WellFormed;
    hide HasPage;
    hide LargePage;
    FreshOffer(h, idx);
    hide FreshPage;
    AllocateLaw(h.buckets[idx], h.supply[0]);
    hide Allocate;
    SameRows(h, AllocateFrom(h, idx).0);
  }

  lemma TakeMetaKeeps(h: Heap)
    requires Good(h) && h.supply != []
    ensures SizesKept(h, TakeMeta(h).0, 0)
  {
    TakeMetaLaw(h);
    if h.spare == [] {
      assert IndexFromSize(META_SIZE) == 0;
      assert TakeMeta(h).0 == AllocateFrom(h, 0).0;
      SmallKeeps(h, 0);
    }
    hide Good;
    hide LargePage;
    hide Live;
    hide UserBlock;
  }

  lemma LargeKeeps(h: Heap, sz: nat)
    requires Good(h) && |h.supply| >= 2
    ensures SizesKept(h, KallocLarge(h, sz).0, 0)
  {
    TakeMetaLaw(h);
    TakeMetaKeeps(h);
    var (f, meta) := TakeMeta(h);
    hide TakeMeta;
    hide UserBlock;
    hide Live;
    hide LargePage;
    hide Reserved;
    hide SmallLive;
    hide Good;
    hide PageCount;
    EnterLaw(f, meta.(pagePtr := f.supply[0], pageCount := PageCount(sz)));
  }

  lemma KallocKeeps(h: Heap, size: nat)
    requires Good(h) && |h.supply| >= 2 && size < ADDRESSES && Kalloc(h, size).Done?
    ensures SizesKept(h, Kalloc(h, size).heap, 0)
  {
    if 0 < size <= MAX_ITEM_SIZE {
      LastClass(size);
      if IndexFromSize(size) < MAX_BUCKET_INDEX { SmallKeeps(h, IndexFromSize(size)); }
    } else if size > 0 {
      LargeKeeps(h, size);
    }
    hide AllocateFrom;
    hide KallocLarge;
    hide Live;
    hide LargePage;
  }

  lemma SameSizes(h: Heap, g: Heap, except: nat)
    requires g == h.(foreign := g.foreign)
    ensures SizesKept(h, g, except)
  {
    SameRows(h, g);
    hide LargePage;
    hide Live;
  }

  /** A large block that stays is still there: no small one has a page address. */
  lemma LargeStays(h: Heap, g: Heap, ptr: nat, q: nat)
    requires Good(h) && Good(g) && LargePage(h, q) && q != ptr
    requires forall p :: UserBlock(g, p) <==> UserBlock(h, p) && p != ptr
    ensures LargePage(g, q)
  {
    LargeAligned(h, q);
    PageNotLive(g, q);
    assert UserBlock(h, q);
    hide Good;
    hide LargePage;
    hide SmallLive;
  }

  lemma KfreeLargeKeeps(h: Heap, ptr: nat)
    requires Good(h) && PageAligned(ptr)
    ensures SizesKept(h, KfreeLarge(h, ptr), ptr)
  {
    GoodSize(h);
    KfreeLargeLaw(h, ptr);
    var g := KfreeLarge(h, ptr);
    if UserBlock(h, ptr) {
      forall q | LargePage(h, q) && q != ptr ensures LargePage(g, q) {
        LargeStays(h, g, ptr, q);
      }
    }
    hide Good;
    hide UserBlock;
    hide LargePage;
    hide Live;
  }

  lemma KfreeSlabKeeps(h: Heap, ptr: nat)
    requires Good(h) && !PageAligned(ptr) && ptr < ADDRESSES && SlabPage(h.buckets, PageOf(ptr))
    ensures KfreeSmall(h, ptr).Freed? && SizesKept(h, KfreeSmall(h, ptr).heap, ptr)
  {
    hide Return;
    hide KfreeSmall;
    hide SlabPage;
    hide SlabOn;
    hide PageOf;
    hide PageAligned;
    hide SizesKept;
    hide BucketsOk;
    hide LargeOk;
    hide PagesOk;
    hide MetasOk;
    SlabOnLaw(h.buckets, PageOf(ptr));
    var i, p := KfreeSmallIs(h, ptr);
    if p.kind.Empty? {
      SameSizes(h, h, ptr);
    } else {
      ReturnKeeps(h, i, p, ptr);
    }
  }

  lemma ReturnKeeps(h: Heap, i: nat, p: Place, ptr: nat)
    requires BucketsOk(h.buckets) && i < |h.buckets| && In(h.buckets[i], p) && ptr < ADDRESSES
    ensures SizesKept(h, h.(buckets := h.buckets[i := Return(h.buckets[i], p, ptr)]), ptr)
  {
    assert WellFormed(h.buckets[i]);
    hide BucketsOk;
    hide WellFormed;
    hide Live;
    hide Return;
    hide Holds;
    hide LargePage;
    ReturnLaw(h.buckets[i], p, ptr);
    SameRows(h, h.(buckets := h.buckets[i := Return(h.buckets[i], p, ptr)]));
  }

  lemma KfreeKeeps(h: Heap, ptr: nat)
    requires Good(h) && ptr < ADDRESSES && Kfree(h, ptr).Freed?
    ensures SizesKept(h, Kfree(h, ptr).heap, ptr)
  {
    GoodSize(h);
    hide Good;
    hide PageAligned;
    hide KfreeSmall;
    hide KfreeLarge;
    hide SlabPage;
    hide SizesKept;
    if ptr == 0 {
      SameSizes(h, h, ptr);
    } else if PageAligned(ptr) {
      KfreeLargeKeeps(h, ptr);
    } else if SlabPage(h.buckets, PageOf(ptr)) {
      KfreeSlabKeeps(h, ptr);
    } else {
      KfreeForeignLaw(h, ptr);
      SameSizes(h, KfreeSmall(h, ptr).heap, ptr);
    }
  }

  // ---------- runs ----------

  /** The heap, and the requests outstanding: the size asked for, by address. */
  datatype Holding = Holding(heap: Heap, out: map<nat, nat>)

  /** A request, a block given back, or a write of the callers to memory. */
  datatype Op = Request(size: nat) | Free(ptr: nat) | Scribble(foreign: nat -> Slab)

  /** Callers free what they hold, or an address that does no harm. A request that
      stops the kernel ends the run; there always are pages. */
  ghost predicate Legal(s: Holding, op: Op) {
    && |s.heap.buckets| == MAX_BUCKET_INDEX && |s.heap.large| == LG_BUCKET_SIZE
    && match op
       case Request(size) => size < ADDRESSES && |s.heap.supply| >= 2 && Kalloc(s.heap, size).Done?
       case Free(ptr) =>
         && ptr < ADDRESSES
         && (ptr in s.out || (!UserBlock(s.heap, ptr) && !Reserved(s.heap, ptr) && Harmless(s.heap, ptr)))
       case Scribble(_) => true
  }

  ghost function Step(s: Holding, op: Op): Holding
    requires Legal(s, op)
  {
    match op
    case Request(size) =>
      var r := Kalloc(s.heap, size);
      Holding(r.heap, if r.ptr == 0 then s.out else s.out[r.ptr := size])
    case Free(ptr) =>
      (match Kfree(s.heap, ptr)
       case Wild => s
       case Freed(heap) => Holding(heap, s.out - {ptr}))
    case Scribble(foreign) => s.(heap := s.heap.(foreign := foreign))
  }

  /** Sizes for which the count of pages does not wrap around. */
  predicate Sane(size: nat) { size <= ADDRESSES - PAGE_SIZE }

  /** The blocks in use are those held, and each holds what was asked for. */
  ghost predicate Inv(s: Holding) {
    && Good(s.heap)
    && (forall p :: UserBlock(s.heap, p) <==> p in s.out)
    && (forall p | p in s.out && Sane(s.out[p]) :: HoldsBytes(s.heap, p, s.out[p]))
  }

  lemma RequestKeeps(s: Holding, size: nat)
    requires Inv(s) && Legal(s, Request(size))
    ensures Inv(Step(s, Request(size)))
  {
    hide Kalloc;
    hide Good;
    hide UserBlock;
    hide HoldsBytes;
    hide SizesKept;
    hide Unserved;
    hide PageAligned;
    KallocLaw(s.heap, size);
    KallocKeeps(s.heap, size);
    var g, ptr := Kalloc(s.heap, size).heap, Kalloc(s.heap, size).ptr;
    if ptr != 0 { KallocHoldsSize(s.heap, size); }
    ZeroIsNone(s.heap);
    forall p | p in s.out && Sane(s.out[p]) ensures HoldsBytes(g, p, s.out[p]) {
      StillHolds(s.heap, g, 0, p, s.out[p]);
    }
  }

  lemma ZeroIsNone(h: Heap)
    requires Good(h)
    ensures !UserBlock(h, 0)
  {
    ZeroAligned();
    PageNotLive(h, 0);
    LargeAligned(h, 0);
  }

  lemma FreeKeeps(s: Holding, ptr: nat)
    requires Inv(s) && Legal(s, Free(ptr))
    ensures Kfree(s.heap, ptr).Freed? && Inv(Step(s, Free(ptr)))
  {
    hide Good;
    hide UserBlock;
    hide Reserved;
    hide Harmless;
    hide HoldsBytes;
    hide SizesKept;
    hide Kfree;
    KfreeLaw(s.heap, ptr);
    var r := Kfree(s.heap, ptr);
    if ptr in s.out {
      KfreeKeeps(s.heap, ptr);
      forall p | p in s.out && p != ptr && Sane(s.out[p]) ensures HoldsBytes(r.heap, p, s.out[p]) {
        StillHolds(s.heap, r.heap, ptr, p, s.out[p]);
      }
    } else {
      assert r == Freed(s.heap) && s.out - {ptr} == s.out;
    }
  }

  lemma ScribbleKeeps(s: Holding, foreign: nat -> Slab)
    requires Inv(s) && Legal(s, Scribble(foreign))
    ensures Inv(Step(s, Scribble(foreign)))
  {
    var g := s.heap.(foreign := foreign);
    ForeignFree(s.heap, foreign);
    ZeroIsNone(s.heap);
    SameSizes(s.heap, g, 0);
    hide Good;
    hide UserBlock;
    hide HoldsBytes;
    hide SizesKept;
    forall p | p in s.out && Sane(s.out[p]) ensures HoldsBytes(g, p, s.out[p]) {
      StillHolds(s.heap, g, 0, p, s.out[p]);
    }
  }

  lemma StepKeeps(s: Holding, op: Op)
    requires Inv(s) && Legal(s, op)
    ensures Inv(Step(s, op))
  {
    hide Inv;
    hide Step;
    hide Legal;
    match op
    case Request(size) => RequestKeeps(s, size);
    case Free(ptr) => FreeKeeps(s, ptr);
    case Scribble(foreign) => ScribbleKeeps(s, foreign);
  }

  ghost predicate Schedule(s: Holding, ops: seq<Op>)
    decreases |ops|
  {
    ops != [] ==> Legal(s, ops[0]) && Schedule(Step(s, ops[0]), ops[1..])
  }

  ghost function Run(s: Holding, ops: seq<Op>): Holding
    requires Schedule(s, ops)
    decreases |ops|
  {
    if ops == [] then s else Run(Step(s, ops[0]), ops[1..])
  }

  lemma {:induction false} RunKeeps(s: Holding, ops: seq<Op>)
    requires Inv(s) && Schedule(s, ops)
    ensures Inv(Run(s, ops))
    decreases |ops|
  {
    hide Inv;
    hide Step;
    hide Legal;
    if ops != [] {
      StepKeeps(s, ops[0]);
      RunKeeps(Step(s, ops[0]), ops[1..]);
    }
  }

  /** A block ends before the next one begins, at the size asked for. */
  lemma HeldApart(h: Heap, p: nat, n: nat, q: nat)
    requires Good(h) && HoldsBytes(h, p, n) && UserBlock(h, q) && p < q
    ensures p + n <= q
  {
    hide Good;
    hide UserBlock;
    hide Live;
    hide LargePage;
    if LargePage(h, p) && PAGE_SIZE >= n {
      LargeApart(h, p, q);
    } else {
      var i :| 0 <= i < |h.buckets| && Live(h.buckets[i], p) && ItemSizeFromIndex(i) >= n;
      SmallApart(h, i, p, q);
    }
  }

  /** Over every run from the new heap on, whatever callers write to memory: the
      blocks in use are exactly those outstanding, each holds the bytes that were
      asked for, and no two of them overlap. */
  lemma RunHolds(supply: seq<nat>, foreign: nat -> Slab, ops: seq<Op>)
    requires (forall k | 0 <= k < |supply| :: PageAt(supply[k])) && |supply| >= LG_BUCKET_SIZE
      && forall j, k | 0 <= j < k < |supply| :: supply[j] != supply[k]
    requires Schedule(Holding(NewHeap(supply, foreign), map[]), ops)
    ensures var u := Run(Holding(NewHeap(supply, foreign), map[]), ops);
      && Inv(u)
      && forall p, q | p in u.out && q in u.out && p < q && Sane(u.out[p]) :: p + u.out[p] <= q
  {
    var s := Holding(NewHeap(supply, foreign), map[]);
    NewHeapGood(supply, foreign);
    hide Good;
    hide UserBlock;
    hide HoldsBytes;
    hide NewHeap;
    hide Schedule;
    hide Run;
    assert Inv(s);
    RunKeeps(s, ops);
    var u := Run(s, ops);
    forall p, q | p in u.out && q in u.out && p < q && Sane(u.out[p]) ensures p + u.out[p] <= q {
      HeldApart(u.heap, p, u.out[p], q);
    }
  }
}
