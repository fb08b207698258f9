/** Where the pages of the kernel heap are (src/sys/kernel/src/kalloc/kalloc.cpp,
    src/sys/kernel/src/kalloc/small_bucket.cpp): none is lost, and a page that
    holds no block any more can be used again. */
module KallocPages {

  import opened KallocModel
  import R = KallocRuns
  import opened SlabModel
  import opened SmallItemHash
  import opened Shared
  import Cells = BitmapCells

  // ---------- no page is lost ----------

  /** A page of the heap: a slab, a large block, or with the page allocator. */
  ghost predicate Owned(h: Heap, p: nat) {
    SlabPage(h.buckets, p) || LargePage(h, p) || p in h.supply
  }

  ghost predicate SamePages(h: Heap, g: Heap) {
    forall p :: Owned(g, p) <==> Owned(h, p)
  }

  lemma SupplyHead(s: seq<nat>, p: nat)
    requires s != []
    ensures p in s <==> p == s[0] || p in s[1..]
  {
    assert s == [s[0]] + s[1..];
  }

  lemma SmallPage(h: Heap, idx: nat, p: nat)
    requires Good(h) && h.supply != [] && idx < |h.buckets|
    ensures var g := AllocateFrom(h, idx).0;
      SlabPage(g.buckets, p) <==> SlabPage(h.buckets, p) || (NeedsPage(h.buckets[idx]) && p == h.supply[0])
  {
    FreshOffer(h, idx);
    var c := AllocateFrom(h, idx).0.buckets[idx];
    AllocatePages(h.buckets[idx], h.supply[0], p);
    hide Good;
    hide HasPage;
    hide FreshPage;
    hide Allocate;
    SlabPageChanges(h.buckets, idx, c, p);
    assert HasPage(h.buckets[idx], p) ==> SlabPage(h.buckets, p);
  }

  lemma SmallSamePages(h: Heap, idx: nat)
    requires Good(h) && h.supply != [] && idx < |h.buckets|
    ensures SamePages(h, AllocateFrom(h, idx).0)
  {
    hide Good;
    hide SlabPage;
    hide LargePage;
    hide Allocate;
    hide NeedsPage;
    var g := AllocateFrom(h, idx).0;
    SameRows(h, g);
    forall p ensures Owned(g, p) <==> Owned(h, p) {
      SmallPage(h, idx, p);
      SupplyHead(h.supply, p);
    }
  }

  lemma MetaSamePages(h: Heap)
    requires Good(h) && h.supply != []
    ensures SamePages(h, TakeMeta(h).0)
  {
    TakeMetaLaw(h);
    GoodSize(h);
    if h.spare == [] {
      assert IndexFromSize(META_SIZE) == 0;
      assert TakeMeta(h).0 == AllocateFrom(h, 0).0;
      hide Good;
      SmallSamePages(h, 0);
    }
    hide Good;
    hide LargePage;
    hide SlabPage;
    hide UserBlock;
  }

  lemma LargeSamePages(h: Heap, sz: nat)
    requires Good(h) && |h.supply| >= 2
    ensures SamePages(h, KallocLarge(h, sz).0)
  {
    TakeMetaLaw(h);
    MetaSamePages(h);
    var (f, meta) := TakeMeta(h);
    hide TakeMeta;
    hide UserBlock;
    hide LargePage;
    hide SlabPage;
    hide Reserved;
    hide SmallLive;
    hide Good;
    hide PageCount;
    EnterLaw(f, meta.(pagePtr := f.supply[0], pageCount := PageCount(sz)));
    forall p ensures Owned(KallocLarge(h, sz).0, p) <==> Owned(h, p) {
      SupplyHead(f.supply, p);
      assert Owned(f, p) <==> Owned(h, p);
    }
  }

  /** `kalloc` loses no page. */
  lemma KallocSamePages(h: Heap, size: nat)
    requires Good(h) && |h.supply| >= 2 && size < ADDRESSES && Kalloc(h, size).Done?
    ensures SamePages(h, Kalloc(h, size).heap)
  {
    GoodSize(h);
    hide Good;
    hide AllocateFrom;
    hide KallocLarge;
    hide Owned;
    if 0 < size <= MAX_ITEM_SIZE {
      LastClass(size);
      if IndexFromSize(size) < MAX_BUCKET_INDEX { SmallSamePages(h, IndexFromSize(size)); }
    } else if size > 0 {
      LargeSamePages(h, size);
    }
  }

  /** A page address is in use exactly as a large block. */
  lemma LargeIsUser(h: Heap, q: nat)
    requires Good(h)
    ensures LargePage(h, q) <==> UserBlock(h, q) && PageAligned(q)
    ensures SmallLive(h.buckets, q) <==> (UserBlock(h, q) && !PageAligned(q)) || Reserved(h, q)
  {
    LargeAligned(h, q);
    if PageAligned(q) { PageNotLive(h, q); }
    assert Reserved(h, q) ==> SmallLive(h.buckets, q);
    hide SmallLive;
    hide LargePage;
    hide Reserved;
  }

  /** A large block goes back to the page allocator. */
  lemma FreedToSupply(h: Heap, ptr: nat)
    requires Good(h) && LargePage(h, ptr)
    ensures Kfree(h, ptr) == Freed(KfreeLarge(h, ptr)) && KfreeLarge(h, ptr).supply == h.supply + [ptr]
  {
    LargeAligned(h, ptr);
    LargeIsUser(h, ptr);
    hide Good;
    hide LargePage;
    hide KfreeLarge;
    hide KfreeSmall;
    hide UserBlock;
    KfreeLargeLaw(h, ptr);
  }

  lemma KfreeLargeSamePages(h: Heap, ptr: nat)
    requires Good(h) && PageAligned(ptr)
    ensures SamePages(h, KfreeLarge(h, ptr))
  {
    GoodSize(h);
    KfreeLargeLaw(h, ptr);
    var g := KfreeLarge(h, ptr);
    assert g.buckets == h.buckets;
    LargeIsUser(h, ptr);
    forall p ensures Owned(g, p) <==> Owned(h, p) {
      LargeIsUser(h, p);
      LargeIsUser(g, p);
      hide KfreeLarge;
      hide Good;
      hide UserBlock;
      hide LargePage;
      hide SlabPage;
      hide SmallLive;
      hide Reserved;
      hide PageAligned;
    }
  }

  lemma KfreeSlabSamePages(h: Heap, ptr: nat)
    requires Good(h) && !PageAligned(ptr) && ptr < ADDRESSES && SlabPage(h.buckets, PageOf(ptr))
    ensures KfreeSmall(h, ptr).Freed? && SamePages(h, KfreeSmall(h, ptr).heap)
  {
    hide Return;
    hide KfreeSmall;
    hide SlabPage;
    hide SlabOn;
    hide PageOf;
    hide PageAligned;
    hide SamePages;
    hide BucketsOk;
    hide LargeOk;
    hide PagesOk;
    hide MetasOk;
    SlabOnLaw(h.buckets, PageOf(ptr));
    var i, p := KfreeSmallIs(h, ptr);
    if p.kind.Empty? {
      TheSame(h);
    } else {
      ReturnSamePages(h, i, p, ptr);
    }
  }

  lemma TheSame(h: Heap)
    ensures SamePages(h, h)
  {
  }

  lemma ReturnSamePages(h: Heap, i: nat, p: Place, ptr: nat)
    requires BucketsOk(h.buckets) && i < |h.buckets| && In(h.buckets[i], p) && ptr < ADDRESSES
    ensures SamePages(h, h.(buckets := h.buckets[i := Return(h.buckets[i], p, ptr)]))
  {
    var b, c := h.buckets[i], Return(h.buckets[i], p, ptr);
    var g := h.(buckets := h.buckets[i := c]);
    assert WellFormed(b);
    hide BucketsOk;
    hide WellFormed;
    hide HasPage;
    hide Return;
    hide LargePage;
    SameRows(h, g);
    forall page ensures Owned(g, page) <==> Owned(h, page) {
      ReturnPages(b, p, ptr, page);
      SlabPageChanges(h.buckets, i, c, page);
      assert HasPage(b, page) ==> SlabPage(h.buckets, page);
      hide SlabPage;
    }
  }

  /** Nor does `kfree`, unless it runs wild. */
  lemma KfreeSamePages(h: Heap, ptr: nat)
    requires Good(h) && ptr < ADDRESSES && Kfree(h, ptr).Freed?
    ensures SamePages(h, Kfree(h, ptr).heap)
  {
    GoodSize(h);
    hide Good;
    hide PageAligned;
    hide KfreeSmall;
    hide KfreeLarge;
    hide SlabPage;
    hide SamePages;
    if ptr == 0 {
      TheSame(h);
    } else if PageAligned(ptr) {
      KfreeLargeSamePages(h, ptr);
    } else if SlabPage(h.buckets, PageOf(ptr)) {
      KfreeSlabSamePages(h, ptr);
    } else {
      KfreeForeignLaw(h, ptr);
      ForeignSamePages(h, KfreeSmall(h, ptr).heap);
    }
  }

  lemma ForeignSamePages(h: Heap, g: Heap)
    requires g == h.(foreign := g.foreign)
    ensures SamePages(h, g)
  {
    SameRows(h, g);
    hide LargePage;
    hide SlabPage;
  }

  // ---------- over runs ----------

  lemma HeadSamePages(h: Heap)
    requires Good(h) && h.supply != []
    ensures SamePages(h, AddHead(h))
  {
    GoodSize(h);
    assert IndexFromSize(LIST_SIZE) == 0;
    hide Good;
    hide AllocateFrom;
    hide SlabPage;
    SmallSamePages(h, 0);
    var f, g := AllocateFrom(h, 0).0, AddHead(h);
    forall p ensures LargePage(g, p) <==> LargePage(f, p) {
      assert forall k: nat :: k < |f.large| ==> Row(g, k) == Row(f, k);
    }
  }

  lemma {:induction false} HeadsSamePages(h: Heap, n: nat)
    requires Good(h) && |h.supply| >= n
    ensures Good(AddHeads(h, n)) && SamePages(h, AddHeads(h, n))
  {
    hide Good;
    hide Owned;
    hide AddHead;
    GoodSize(h);
    AddHeadsGood(h, n);
    if n > 0 {
      HeadsSamePages(h, n - 1);
      HeadSamePages(AddHeads(h, n - 1));
    } else {
      TheSame(h);
    }
  }

  lemma NewHeapPages(supply: seq<nat>, foreign: nat -> Slab)
    requires (forall k | 0 <= k < |supply| :: PageAt(supply[k])) && |supply| >= LG_BUCKET_SIZE
      && forall j, k | 0 <= j < k < |supply| :: supply[j] != supply[k]
    ensures forall p :: Owned(NewHeap(supply, foreign), p) <==> p in supply
  {
    var h := EmptyHeap(supply, foreign);
    EmptyHeapGood(supply, foreign);
    forall p ensures Owned(h, p) <==> p in supply {
      assert forall k: nat :: Row(h, k) == [];
    }
    hide EmptyHeap;
    hide Good;
    hide Owned;
    HeadsSamePages(h, LG_BUCKET_SIZE);
  }

  lemma StepSamePages(s: R.Holding, op: R.Op)
    requires R.Inv(s) && R.Legal(s, op)
    ensures SamePages(s.heap, R.Step(s, op).heap)
  {
    hide Good;
    hide UserBlock;
    hide HoldsBytes;
    hide SamePages;
    hide Kalloc;
    hide Kfree;
    match op
    case Request(size) => KallocSamePages(s.heap, size);
    case Free(ptr) =>
      R.FreeKeeps(s, ptr);
      KfreeSamePages(s.heap, ptr);
    case Scribble(foreign) => ForeignSamePages(s.heap, s.heap.(foreign := foreign));
  }

  lemma {:induction false} RunSamePages(s: R.Holding, ops: seq<R.Op>)
    requires R.Inv(s) && R.Schedule(s, ops)
    ensures SamePages(s.heap, R.Run(s, ops).heap)
    decreases |ops|
  {
    hide R.Inv;
    hide R.Step;
    hide R.Legal;
    hide Owned;
    if ops != [] {
      R.StepKeeps(s, ops[0]);
      StepSamePages(s, ops[0]);
      RunSamePages(R.Step(s, ops[0]), ops[1..]);
    } else {
      TheSame(s.heap);
    }
  }

  /** Over every run from the new heap on every page is in one use, as a slab, a
      large block or with the page allocator, and there are always the same. */
  lemma RunPages(supply: seq<nat>, foreign: nat -> Slab, ops: seq<R.Op>)
    requires (forall k | 0 <= k < |supply| :: PageAt(supply[k])) && |supply| >= LG_BUCKET_SIZE
      && forall j, k | 0 <= j < k < |supply| :: supply[j] != supply[k]
    requires R.Schedule(R.Holding(NewHeap(supply, foreign), map[]), ops)
    ensures var h := R.Run(R.Holding(NewHeap(supply, foreign), map[]), ops).heap;
      PagesOk(h) && forall p :: Owned(h, p) <==> p in supply
  {
    var s := R.Holding(NewHeap(supply, foreign), map[]);
    NewHeapGood(supply, foreign);
    NewHeapPages(supply, foreign);
    R.RunHolds(supply, foreign, ops);
    hide UserBlock;
    hide HoldsBytes;
    hide NewHeap;
    hide R.Schedule;
    hide R.Run;
    hide BucketsOk;
    hide LargeOk;
    hide PagesOk;
    hide MetasOk;
    hide Owned;
    assert R.Inv(s);
    RunSamePages(s, ops);
  }

  // ---------- pages without a block ----------

  /** A page that can be given out again: with the page allocator, or an empty slab. */
  ghost predicate FreePage(h: Heap, p: nat) {
    p in h.supply || exists i, s :: 0 <= i < |h.buckets| && s in h.buckets[i].empty && s.address == p
  }

  /** No block lies in the page. */
  ghost predicate Unused(h: Heap, p: nat) {
    !LargePage(h, p) && forall q | SmallLive(h.buckets, q) :: PageOf(q) != p
  }

  lemma LiveInSlabPage(h: Heap, q: nat)
    requires BucketsOk(h.buckets) && SmallLive(h.buckets, q)
    ensures SlabPage(h.buckets, PageOf(q))
  {
    var i :| 0 <= i < |h.buckets| && Live(h.buckets[i], q);
    LivePage(h.buckets[i], q);
  }

  lemma EmptyUnused(h: Heap, i: nat, s: Slab)
    requires Good(h) && i < |h.buckets| && s in h.buckets[i].empty
    ensures SlabPage(h.buckets, s.address) && Unused(h, s.address)
  {
    var b := h.buckets[i];
    var k :| 0 <= k < |b.empty| && b.empty[k] == s;
    var place := Place(Empty, k);
    InHasPage(b, place);
    assert SlabPage(h.buckets, s.address);
    forall q | SmallLive(h.buckets, q) ensures PageOf(q) != s.address {
      if PageOf(q) == s.address { LiveInOwner(h.buckets, i, place, q); }
    }
  }

  lemma UsedSlab(b: Bucket, s: Slab)
    requires WellFormed(b) && (s in b.partial || s in b.full)
    ensures exists q :: Live(b, q) && PageOf(q) == s.address
  {
    ItemCounts(b.index);
    var i: nat;
    if s in b.full {
      i := 0;
    } else {
      i :| i in Slots(s.bits);
    }
    assert Cells.Marked(s.bits, i) && i < ItemCountFromIndex(b.index);
    assert s in Slabs(b) && PageAt(s.address);
    ItemBounds(s, b.index, i);
    var q := ItemAddress(s, b.index, i);
    assert Holds(s, b.index, q);
    assert Live(b, q) && PageOf(q) == s.address;
  }

  /** A page can be given out again exactly when no block lies in it. */
  lemma FreePageIs(h: Heap, p: nat)
    requires Good(h)
    ensures FreePage(h, p) <==> Owned(h, p) && Unused(h, p)
  {
    if p in h.supply {
      SupplyUnused(h, p);
    } else if i, s :| 0 <= i < |h.buckets| && s in h.buckets[i].empty && s.address == p {
      EmptyUnused(h, i, s);
    } else if SlabPage(h.buckets, p) && Unused(h, p) {
      UnusedSlab(h, p);
    }
  }

  lemma UsedPage(h: Heap, i: nat, s: Slab)
    requires Good(h) && i < |h.buckets| && (s in h.buckets[i].partial || s in h.buckets[i].full)
    ensures !Unused(h, s.address)
  {
    UsedSlab(h.buckets[i], s);
    var q :| Live(h.buckets[i], q) && PageOf(q) == s.address;
    assert SmallLive(h.buckets, q);
  }

  lemma UnusedSlab(h: Heap, p: nat)
    requires Good(h) && SlabPage(h.buckets, p) && Unused(h, p)
    ensures FreePage(h, p)
  {
    var i :| 0 <= i < |h.buckets| && HasPage(h.buckets[i], p);
    var b := h.buckets[i];
    var s :| s in Slabs(b) && s.address == p;
    assert s in b.partial || s in b.full || s in b.empty;
    if s in b.partial || s in b.full { UsedPage(h, i, s); }
  }

  lemma SupplyUnused(h: Heap, p: nat)
    requires Good(h) && p in h.supply
    ensures Unused(h, p)
  {
    var k :| 0 <= k < |h.supply| && h.supply[k] == p;
    assert !SlabPage(h.buckets, h.supply[k]);
    forall q | SmallLive(h.buckets, q) ensures PageOf(q) != p {
      LiveInSlabPage(h, q);
    }
  }

  // ---------- there and back ----------

  /** A large block needs a record of its own; it stays when the block is freed. */
  predicate NewRecord(h: Heap, size: nat) { size > MAX_ITEM_SIZE && h.spare == [] }

  lemma MetaReserved(h: Heap, q: nat)
    requires Good(h) && h.supply != []
    ensures var (f, m) := TakeMeta(h);
      if h.spare != [] then Reserved(f, q) || q == m.address <==> Reserved(h, q)
      else m.address == AllocateFrom(h, 0).1 && (Reserved(f, q) <==> Reserved(h, q))
  {
    GoodSize(h);
    if h.spare != [] {
      SpareRows(h, q);
    } else {
      assert IndexFromSize(META_SIZE) == 0;
      assert KallocSmall(h, META_SIZE) == AllocateFrom(h, 0);
      SameRows(h, AllocateFrom(h, 0).0);
    }
    hide Reserved;
    hide Good;
  }

  lemma LargeReserved(h: Heap, sz: nat, q: nat)
    requires Good(h) && |h.supply| >= 2
    ensures Reserved(KallocLarge(h, sz).0, q) <==>
      Reserved(h, q) || (h.spare == [] && q == AllocateFrom(h, 0).1)
  {
    GoodSize(h);
    TakeMetaLaw(h);
    MetaReserved(h, q);
    var (f, m) := TakeMeta(h);
    GoodSize(f);
    hide Good;
    hide TakeMeta;
    hide AllocateFrom;
    hide UserBlock;
    hide SmallLive;
    hide LargePage;
    hide PageCount;
    var page := f.supply[0];
    HashBound(page);
    hide HashPtr;
    var entry := m.(pagePtr := page, pageCount := PageCount(sz));
    var g := KallocLarge(h, sz).0;
    assert g.large == f.large[HashPtr(page) := [entry] + f.large[HashPtr(page)]];
    assert g.spare == f.spare && g.heads == f.heads;
    RowEntered(f, g, HashPtr(page), entry);
    hide Row;
    PushRow(f, g, HashPtr(page), entry, q);
  }

  lemma RowEntered(h: Heap, g: Heap, k: nat, m: Meta)
    requires k < |h.large| && g.large == h.large[k := [m] + h.large[k]] && g.spare == h.spare && g.heads == h.heads
    ensures |g.large| == |h.large| && Row(g, k) == [m] + Row(h, k) && forall l: nat :: l != k ==> Row(g, l) == Row(h, l)
  {
  }

  lemma KallocReserved(h: Heap, size: nat, q: nat)
    requires Good(h) && |h.supply| >= 2 && size < ADDRESSES && Kalloc(h, size).Done?
    ensures Reserved(Kalloc(h, size).heap, q) <==>
      Reserved(h, q) || (NewRecord(h, size) && q == AllocateFrom(h, 0).1)
  {
    GoodSize(h);
    if 0 < size <= MAX_ITEM_SIZE {
      var i := IndexFromSize(size);
      if i < MAX_BUCKET_INDEX { SameRows(h, AllocateFrom(h, i).0); }
    } else if size > 0 {
      LargeReserved(h, size, q);
    }
    hide Good;
    hide Reserved;
    hide KallocLarge;
  }

  lemma KfreeReserved(h: Heap, ptr: nat, q: nat)
    requires Good(h) && ptr < ADDRESSES && Kfree(h, ptr).Freed?
    ensures Reserved(Kfree(h, ptr).heap, q) <==> Reserved(h, q)
  {
    GoodSize(h);
    if ptr != 0 && PageAligned(ptr) {
      KfreeLargeLaw(h, ptr);
    } else if ptr != 0 {
      assert KfreeSmall(h, ptr).Freed?;
      SameRows(h, KfreeSmall(h, ptr).heap);
    }
    hide Good;
    hide Reserved;
    hide UserBlock;
    hide PageAligned;
    hide KfreeLarge;
    hide Return;
  }

  /** What decides which pages are free: the pages there are, the callers' blocks,
      and the allocator's own. */
  lemma UnusedIs(h: Heap, g: Heap, p: nat, extra: set<nat>)
    requires Good(h) && Good(g) && forall q :: UserBlock(g, q) <==> UserBlock(h, q)
    requires forall q :: Reserved(g, q) <==> Reserved(h, q) || q in extra
    ensures Unused(g, p) <==> Unused(h, p) && forall q | q in extra :: PageOf(q) != p
  {
    forall q
      ensures LargePage(g, q) <==> LargePage(h, q)
      ensures SmallLive(g.buckets, q) <==> SmallLive(h.buckets, q) || q in extra
    {
      LargeIsUser(h, q);
      LargeIsUser(g, q);
    }
    hide Good;
    hide LargePage;
    hide SmallLive;
    hide UserBlock;
    hide Reserved;
    hide PageOf;
  }

  /** The page that the block of a new record comes from: free before, unless a slab
      of its class had room. */
  lemma RecordPage(h: Heap)
    requires Good(h) && h.supply != []
    ensures var p := PageOf(AllocateFrom(h, 0).1);
      if h.buckets[0].partial != [] then !Unused(h, p) else FreePage(h, p)
  {
    var b := h.buckets[0];
    FreshOffer(h, 0);
    AllocateWhere(b, h.supply[0]);
    assert AllocateFrom(h, 0).1 == Allocate(b, h.supply[0]).1;
    hide Good;
    hide WellFormed;
    hide FreshPage;
    hide Allocate;
    hide Live;
    hide Unused;
    if b.partial != [] {
      UsedPage(h, 0, b.partial[0]);
    } else if b.empty != [] {
      assert b.empty[0] in h.buckets[0].empty;
    }
  }

  /** The free pages of `h` are those of `r`, but for the page of a new record. */
  ghost predicate PagesBack(h: Heap, r: Heap, size: nat) {
    if NewRecord(h, size) && |h.buckets| > 0 && h.buckets[0].partial == [] then
      exists q :: FreePage(h, q) && forall p :: FreePage(r, p) <==> FreePage(h, p) && p != q
    else
      forall p :: FreePage(r, p) <==> FreePage(h, p)
  }

  lemma SameFreePage(h: Heap, r: Heap, extra: set<nat>, p: nat)
    requires Good(h) && Good(r) && SamePages(h, r) && forall q :: UserBlock(r, q) <==> UserBlock(h, q)
    requires forall q :: Reserved(r, q) <==> Reserved(h, q) || q in extra
    ensures FreePage(r, p) <==> FreePage(h, p) && forall q | q in extra :: PageOf(q) != p
  {
    hide Good;
    hide UserBlock;
    hide Owned;
    hide Unused;
    hide FreePage;
    hide PageOf;
    hide Reserved;
    UnusedIs(h, r, p, extra);
    FreePageIs(h, p);
    FreePageIs(r, p);
  }

  lemma SameFreePages(h: Heap, r: Heap, size: nat)
    requires Good(h) && Good(r) && h.supply != [] && SamePages(h, r)
    requires forall q :: UserBlock(r, q) <==> UserBlock(h, q)
    requires forall q :: Reserved(r, q) <==> Reserved(h, q) || (NewRecord(h, size) && q == AllocateFrom(h, 0).1)
    ensures PagesBack(h, r, size)
  {
    GoodSize(h);
    hide Good;
    hide UserBlock;
    hide AllocateFrom;
    hide Unused;
    hide FreePage;
    hide PageOf;
    hide NewRecord;
    hide Reserved;
    var a := AllocateFrom(h, 0).1;
    var extra := if NewRecord(h, size) then {a} else {};
    forall p ensures FreePage(r, p) <==> FreePage(h, p) && (NewRecord(h, size) ==> p != PageOf(a)) {
      SameFreePage(h, r, extra, p);
      assert NewRecord(h, size) ==> a in extra;
    }
    hide SamePages;
    RecordPage(h);
    FreePageIs(h, PageOf(a));
  }

  lemma RoundTripReserved(h: Heap, size: nat, foreign: nat -> Slab, q: nat)
    requires Good(h) && |h.supply| >= 2 && size < ADDRESSES && Kalloc(h, size).Done?
    requires Good(Kalloc(h, size).heap.(foreign := foreign)) && Kalloc(h, size).ptr < ADDRESSES
    requires Kfree(Kalloc(h, size).heap.(foreign := foreign), Kalloc(h, size).ptr).Freed?
    ensures Reserved(Kfree(Kalloc(h, size).heap.(foreign := foreign), Kalloc(h, size).ptr).heap, q) <==>
      Reserved(h, q) || (NewRecord(h, size) && q == AllocateFrom(h, 0).1)
  {
    GoodSize(h);
    var f := Kalloc(h, size).heap;
    var g := f.(foreign := foreign);
    hide Good;
    hide Kalloc;
    hide Kfree;
    hide AllocateFrom;
    SameRows(f, g);
    hide Reserved;
    KallocReserved(h, size, q);
    KfreeReserved(g, Kalloc(h, size).ptr, q);
  }

  /** Freeing what has just been allocated gives the same pages back, unless a new
      record for a large block has made a slab of a free page: then it is that one
      page that stays away. */
  lemma KallocKfreePages(h: Heap, size: nat, foreign: nat -> Slab)
    requires Good(h) && |h.supply| >= 2 && size < ADDRESSES && Kalloc(h, size).Done?
    ensures var g, ptr := Kalloc(h, size).heap.(foreign := foreign), Kalloc(h, size).ptr;
      Kfree(g, ptr).Freed? && PagesBack(h, Kfree(g, ptr).heap, size)
  {
    GoodSize(h);
    hide Good;
    hide Kalloc;
    hide Kfree;
    hide UserBlock;
    hide Reserved;
    hide AllocateFrom;
    hide Owned;
    hide PagesBack;
    hide NewRecord;
    var f := Kalloc(h, size).heap;
    var g, ptr := f.(foreign := foreign), Kalloc(h, size).ptr;
    KallocLaw(h, size);
    KallocKfree(h, size, foreign);
    PointerBound(h, size, foreign);
    ForeignFree(f, foreign);
    KallocSamePages(h, size);
    ForeignSamePages(f, g);
    KfreeSamePages(g, ptr);
    var r := Kfree(g, ptr).heap;
    forall q {
      RoundTripReserved(h, size, foreign, q);
    }
    SameFreePages(h, r, size);
  }

  lemma PointerBound(h: Heap, size: nat, foreign: nat -> Slab)
    requires Good(h) && |h.supply| >= 2 && size < ADDRESSES && Kalloc(h, size).Done?
    ensures Kalloc(h, size).ptr < ADDRESSES
  {
    var g, ptr := Kalloc(h, size).heap, Kalloc(h, size).ptr;
    KallocLaw(h, size);
    hide Good;
    hide Kalloc;
    hide UserBlock;
    if ptr != 0 { BlockBounds(g, ptr); }
  }
}
