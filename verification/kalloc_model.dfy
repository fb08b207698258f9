/** `kalloc` and `kfree` over the size classes and the table of large blocks
    (src/sys/kernel/src/kalloc/kalloc.cpp), as functions on values. */
module KallocModel {

  import opened SlabModel
  import opened SmallItemHash
  import opened Shared
  import Cells = BitmapCells

  const LG_BUCKET_SIZE: nat := 32
  const META_SIZE: nat := 16
  const LIST_SIZE: nat := 12

  /** The record of a large block; it lives in a small block of its own. */
  datatype Meta = Meta(address: nat, pagePtr: nat, pageCount: nat)

  /** The buckets, the large blocks hashed by page, the spare records, the small
      blocks that the list heads of the hash live in, latest first, and the pages
      the page allocator will hand out. `foreign` is the rest of memory, as
      far as `kfree` looks at it: what the first bytes of a page that is no slab
      spell when they are read as the header of one. It can be anything. */
  datatype Heap = Heap(buckets: seq<Bucket>, large: seq<seq<Meta>>, spare: seq<Meta>, heads: seq<nat>,
                       supply: seq<nat>, foreign: nat -> Slab)

  function HashPtr(ptr: nat): nat { ptr / PAGE_SIZE % LG_BUCKET_SIZE }

  function AlignCeiling(sz: nat): nat {
    var sum := (sz + (PAGE_SIZE - 1)) % ADDRESSES;
    sum - sum % PAGE_SIZE
  }

  predicate PageAligned(ptr: nat) { ptr % PAGE_SIZE == 0 }

  function PageOf(ptr: nat): nat { ptr - ptr % PAGE_SIZE }

  // ---------- small blocks ----------

  predicate NeedsPage(b: Bucket) { b.partial == [] && b.empty == [] }

  function AllocateFrom(h: Heap, idx: nat): (Heap, nat)
    requires idx < |h.buckets| && h.supply != []
  {
    var (b, ptr) := Allocate(h.buckets[idx], h.supply[0]);
    (h.(buckets := h.buckets[idx := b], supply := if NeedsPage(h.buckets[idx]) then h.supply[1..] else h.supply), ptr)
  }

  /** The loop over the classes stops before the last one; the first class tried
      always has a block, since there always is a page. */
  function KallocSmall(h: Heap, sz: nat): (Heap, nat)
    requires sz > 0 && |h.buckets| == MAX_BUCKET_INDEX && h.supply != []
  {
    if IndexFromSize(sz) < MAX_BUCKET_INDEX then AllocateFrom(h, IndexFromSize(sz)) else (h, 0)
  }

  // ---------- large blocks ----------

  function PageCount(sz: nat): nat { AlignCeiling(sz) / PAGE_SIZE }

  /** A spare record, or a new one. */
  function TakeMeta(h: Heap): (Heap, Meta)
    requires |h.buckets| == MAX_BUCKET_INDEX && h.supply != []
  {
    if h.spare != [] then (h.(spare := h.spare[1..]), h.spare[0])
    else
      var (g, ptr) := KallocSmall(h, META_SIZE);
      (g, Meta(ptr, 0, 0))
  }

  function KallocLarge(h: Heap, sz: nat): (Heap, nat)
    requires |h.buckets| == MAX_BUCKET_INDEX && |h.supply| >= 2 && |h.large| == LG_BUCKET_SIZE
  {
    var (g, meta) := TakeMeta(h);
    var page := g.supply[0];
    var idx := HashPtr(page);
    (g.(large := g.large[idx := [meta.(pagePtr := page, pageCount := PageCount(sz))] + g.large[idx]],
     supply := g.supply[1..]), page)
  }

  datatype Result = Panic | Done(heap: Heap, ptr: nat)

  function Kalloc(h: Heap, size: nat): Result
    requires |h.buckets| == MAX_BUCKET_INDEX && |h.supply| >= 2 && |h.large| == LG_BUCKET_SIZE
  {
    if size == 0 then Done(h, 0)
    else if size <= MAX_ITEM_SIZE then
      var (g, ptr) := KallocSmall(h, size);
      Done(g, ptr)
    else if PageCount(size) > 1 then Panic
    else
      var (g, ptr) := KallocLarge(h, size);
      Done(g, ptr)
  }

  // ---------- freeing ----------

  function FindPage(l: seq<Slab>, page: nat): (i: nat)
    ensures i <= |l| && (i < |l| ==> l[i].address == page)
    ensures i == |l| ==> forall s | s in l :: s.address != page
  {
    if l == [] then 0 else if l[0].address == page then 0 else FindPage(l[1..], page) + 1
  }

  function FindPlace(b: Bucket, page: nat): (p: Option<Place>)
    ensures p.Some? ==> In(b, p.value) && SlabAt(b, p.value).address == page
    ensures p.None? ==> forall s | s in b.partial + b.full + b.empty :: s.address != page
  {
    var i, j, k := FindPage(b.partial, page), FindPage(b.full, page), FindPage(b.empty, page);
    if i < |b.partial| then Some(Place(Partial, i))
    else if j < |b.full| then Some(Place(Full, j))
    else if k < |b.empty| then Some(Place(Empty, k))
    else None
  }

  /** The slab that a page is, if it is one. */
  function SlabOn(buckets: seq<Bucket>, page: nat): (s: Option<Slab>)
  {
    if buckets == [] then None
    else match FindPlace(buckets[0], page)
      case Some(p) => Some(SlabAt(buckets[0], p))
      case None => SlabOn(buckets[1..], page)
  }

  /** What memory holds at the start of a page, read as a slab header. */
  function HeaderAt(h: Heap, page: nat): Slab {
    match SlabOn(h.buckets, page)
    case Some(s) => s
    case None => h.foreign(page).(address := page)
  }

  /** The header of the page, unless its bucket is out of range. */
  function GetSlabFromPtr(h: Heap, ptr: nat): Option<Slab> {
    var s := HeaderAt(h, PageOf(ptr));
    if s.bucket > MAX_BUCKET_INDEX then None else Some(s)
  }

  function FindMeta(l: seq<Meta>, ptr: nat): (i: nat)
    ensures i <= |l| && (i < |l| ==> l[i].pagePtr == ptr)
    ensures forall m | m in l[..i] :: m.pagePtr != ptr
  {
    if l == [] then 0 else if l[0].pagePtr == ptr then 0 else FindMeta(l[1..], ptr) + 1
  }

  function KfreeLarge(h: Heap, ptr: nat): Heap
    requires |h.large| == LG_BUCKET_SIZE
  {
    var l := h.large[HashPtr(ptr)];
    var i := FindMeta(l, ptr);
    if i == |l| then h
    else h.(large := h.large[HashPtr(ptr) := l[..i] + l[i + 1..]],
      spare := [l[i].(pagePtr := 0)] + h.spare, supply := h.supply + [ptr])
  }

  /** What `kfree` leaves behind. `Wild`: it has used a bucket that does not exist,
      or unlinked a page that is no slab through whatever pointers it holds. */
  datatype Freed = Wild | Freed(heap: Heap)

  function Overwrite(foreign: nat -> Slab, page: nat, s: Slab): nat -> Slab {
    (a: nat) => if a == page then s else foreign(a)
  }

  /** `Return` for a page that is no slab but reads like one: the mark and the
      count are changed where they would be. */
  function ReturnForeign(h: Heap, s: Slab, ptr: nat): Freed {
    var idx := GetPointerIndex(s, s.bucket, ptr);
    if idx == INVALID_ITEM_INDEX || !Cells.Marked(s.bits, idx) then Freed(h)
    else if s.freeCount == 0 || s.freeCount == ItemCountFromIndex(s.bucket) - 1 then Wild
    else Freed(h.(foreign := Overwrite(h.foreign, PageOf(ptr), Unmark(s, idx))))
  }

  function KfreeSmall(h: Heap, ptr: nat): Freed {
    match GetSlabFromPtr(h, ptr)
    case None => Freed(h)
    case Some(s) =>
      if s.bucket >= |h.buckets| then Wild
      else
        match FindPlace(h.buckets[s.bucket], PageOf(ptr))
        case None => ReturnForeign(h, s, ptr)
        case Some(p) => Freed(h.(buckets := h.buckets[s.bucket := Return(h.buckets[s.bucket], p, ptr)]))
  }

  function Kfree(h: Heap, ptr: nat): Freed
    requires |h.large| == LG_BUCKET_SIZE
  {
    if ptr == 0 then Freed(h)
    else if PageAligned(ptr) then Freed(KfreeLarge(h, ptr))
    else KfreeSmall(h, ptr)
  }

  // ---------- pages ----------

  ghost predicate HasPage(b: Bucket, page: nat) {
    exists s :: s in Slabs(b) && s.address == page
  }

  lemma ReplacePages(t: multiset<Slab>, s: Slab, m: Slab, page: nat)
    requires s in t && m.address == s.address && forall r | r in t :: t[r] == 1
    ensures (exists r :: r in t && r.address == page) <==>
      (exists r :: r in t - multiset{s} + multiset{m} && r.address == page)
  {
    var u := t - multiset{s} + multiset{m};
    assert m in u;
    if r :| r in t && r.address == page {
      assert r != s ==> r in u;
    }
    if r :| r in u && r.address == page {
      assert r != m ==> r in t;
    }
  }

  /** A bucket takes over the page it is offered only when it has neither a
      partial nor an empty slab. */
  lemma AllocatePages(b: Bucket, offered: nat, page: nat)
    requires WellFormed(b) && FreshPage(b, offered)
    ensures HasPage(Allocate(b, offered).0, page) <==> HasPage(b, page) || (NeedsPage(b) && page == offered)
  {
    var a := GetAvailableSlab(b, offered);
    AvailableLaw(b, offered);
    TakeSlabs(a);
    HeadTail(a.partial);
    var s := a.partial[0];
    ReplacePages(Slabs(a), s, Mark(s, Cells.FirstClearFrom(s.bits, 0)), page);
    AvailablePages(b, offered, page);
    hide Fits;
    hide Usable;
    hide GetAvailableSlab;
  }

  lemma AvailablePages(b: Bucket, offered: nat, page: nat)
    requires WellFormed(b)
    ensures HasPage(GetAvailableSlab(b, offered), page) <==> HasPage(b, page) || (NeedsPage(b) && page == offered)
  {
    hide Fits;
    hide Setup;
    hide NewSlab;
    var a := GetAvailableSlab(b, offered);
    if b.partial == [] {
      var n := a.partial[0];
      if b.empty != [] {
        EmptySlabs(b, offered);
        SetupAddress(b.empty[0], b.index);
        hide AllFit;
        hide GetAvailableSlab;
        ReplacePages(Slabs(b), b.empty[0], n, page);
      } else {
        SetupAddress(NewSlab(offered), b.index);
        assert NewSlab(offered).address == offered by { NewAddress(offered); }
        assert Slabs(b) == multiset(b.full) && Slabs(a) == multiset(b.full) + multiset{n};
        assert n in Slabs(a);
      }
    }
  }

  lemma SetupAddress(s: Slab, bucket: nat)
    ensures Setup(s, bucket).address == s.address
  {
  }

  lemma NewAddress(page: nat)
    ensures NewSlab(page).address == page
  {
  }

  lemma EmptySlabs(b: Bucket, offered: nat)
    requires b.partial == [] && b.empty != []
    ensures b.empty[0] in Slabs(b)
    ensures GetAvailableSlab(b, offered).partial[0] == Setup(b.empty[0], b.index)
    ensures Slabs(GetAvailableSlab(b, offered)) ==
      Slabs(b) - multiset{b.empty[0]} + multiset{Setup(b.empty[0], b.index)}
  {
    hide Setup;
    HeadTail(b.empty);
  }

  lemma ReturnPages(b: Bucket, p: Place, ptr: nat, page: nat)
    requires Returnable(b, p, ptr)
    ensures HasPage(Return(b, p, ptr), page) <==> HasPage(b, page)
  {
    var s, idx := SlabAt(b, p), GetPointerIndex(SlabAt(b, p), b.index, ptr);
    PlaceFits(b, p);
    if idx != INVALID_ITEM_INDEX && Cells.Marked(s.bits, idx) {
      assert p.kind != Empty;
      ReturnMoves(b, p, ptr, idx);
      hide Fits;
      hide Return;
      hide AllFit;
      ReplacePages(Slabs(b), s, Changed(b, p, idx), page);
    }
  }

  // ---------- the invariant ----------

  /** Each bucket is sound, and no two share a page. */
  ghost predicate BucketsOk(bs: seq<Bucket>) {
    && |bs| == MAX_BUCKET_INDEX
    && (forall i | 0 <= i < |bs| :: WellFormed(bs[i]) && bs[i].index == i)
    && (forall i, j, page | 0 <= i < |bs| && 0 <= j < |bs| && HasPage(bs[i], page) && HasPage(bs[j], page) :: i == j)
  }

  ghost predicate SlabPage(bs: seq<Bucket>, page: nat) {
    exists i :: 0 <= i < |bs| && HasPage(bs[i], page)
  }

  ghost predicate SmallLive(bs: seq<Bucket>, ptr: nat) {
    exists i :: 0 <= i < |bs| && Live(bs[i], ptr)
  }

  /** The records by hash, then a row of the spare ones, and one that stands for
      the list heads. */
  function Row(h: Heap, k: nat): seq<Meta> {
    if k < |h.large| then h.large[k]
    else if k == |h.large| then h.spare
    else if k == |h.large| + 1 then seq(|h.heads|, i requires 0 <= i < |h.heads| => Meta(h.heads[i], 0, 0))
    else []
  }

  ghost predicate LargePage(h: Heap, page: nat) {
    exists k: nat, i: nat :: k < |h.large| && i < |Row(h, k)| && Row(h, k)[i].pagePtr == page
  }

  /** Every large block is in the row of its hash, once. */
  ghost predicate LargeOk(h: Heap) {
    && |h.large| == LG_BUCKET_SIZE
    && (forall k: nat, i: nat | k < |h.large| && i < |Row(h, k)| ::
          HashPtr(Row(h, k)[i].pagePtr) == k && PageAt(Row(h, k)[i].pagePtr))
    && (forall k: nat, i: nat, j: nat | k < |h.large| && i < j < |Row(h, k)| ::
          Row(h, k)[i].pagePtr != Row(h, k)[j].pagePtr)
  }

  /** A page is in one use only: a slab, a large block, or in the supply. */
  ghost predicate PagesOk(h: Heap) {
    && (forall page | LargePage(h, page) :: !SlabPage(h.buckets, page))
    && (forall k | 0 <= k < |h.supply| ::
          PageAt(h.supply[k]) && !SlabPage(h.buckets, h.supply[k]) && !LargePage(h, h.supply[k]))
    && (forall j, k | 0 <= j < k < |h.supply| :: h.supply[j] != h.supply[k])
  }

  /** The address of a record or a list head. */
  ghost predicate Reserved(h: Heap, ptr: nat) {
    exists k: nat, i: nat :: i < |Row(h, k)| && Row(h, k)[i].address == ptr
  }

  /** Every record and every list head lives in a small block of its own. */
  ghost predicate MetasOk(h: Heap) {
    && (forall ptr | Reserved(h, ptr) :: SmallLive(h.buckets, ptr))
    && MetasApart(h)
  }

  ghost predicate MetasApart(h: Heap) {
    forall k: nat, i: nat, l: nat, j: nat |
      i < |Row(h, k)| && j < |Row(h, l)| && Row(h, k)[i].address == Row(h, l)[j].address :: k == l && i == j
  }

  ghost predicate Good(h: Heap) {
    BucketsOk(h.buckets) && LargeOk(h) && PagesOk(h) && MetasOk(h)
  }

  /** The blocks callers hold: small ones that the allocator does not keep for
      itself, and large ones. */
  ghost predicate UserBlock(h: Heap, ptr: nat) {
    (SmallLive(h.buckets, ptr) && !Reserved(h, ptr)) || LargePage(h, ptr)
  }

  lemma ZeroAligned()
    ensures PageAligned(0)
  {
  }

  // ---------- one bucket changes ----------

  lemma BucketChanges(bs: seq<Bucket>, idx: nat, c: Bucket, page: nat)
    requires BucketsOk(bs) && idx < |bs| && WellFormed(c) && c.index == idx
    requires forall p :: HasPage(c, p) ==> HasPage(bs[idx], p) || (p == page && !SlabPage(bs, page))
    ensures BucketsOk(bs[idx := c])
  {
    var cs := bs[idx := c];
    hide WellFormed;
    hide HasPage;
    forall i, j, p | 0 <= i < |cs| && 0 <= j < |cs| && HasPage(cs[i], p) && HasPage(cs[j], p) ensures i == j {
      assert i != idx && HasPage(bs[i], p) ==> SlabPage(bs, p);
      assert j != idx && HasPage(bs[j], p) ==> SlabPage(bs, p);
    }
  }

  lemma SlabPageChanges(bs: seq<Bucket>, idx: nat, c: Bucket, p: nat)
    requires idx < |bs|
    ensures SlabPage(bs[idx := c], p) ==> SlabPage(bs, p) || HasPage(c, p)
    ensures SlabPage(bs, p) ==> SlabPage(bs[idx := c], p) || HasPage(bs[idx], p)
    ensures HasPage(c, p) ==> SlabPage(bs[idx := c], p)
  {
    hide HasPage;
    var cs := bs[idx := c];
    if i :| 0 <= i < |bs| && HasPage(bs[i], p) {
      assert i != idx ==> HasPage(cs[i], p);
    }
    if i :| 0 <= i < |cs| && HasPage(cs[i], p) {
      assert i != idx ==> HasPage(bs[i], p);
    }
    assert cs[idx] == c;
  }

  lemma SmallLiveChanges(bs: seq<Bucket>, idx: nat, c: Bucket, q: nat)
    requires idx < |bs|
    ensures SmallLive(bs[idx := c], q) <==> Live(c, q) || exists i :: 0 <= i < |bs| && i != idx && Live(bs[i], q)
    ensures SmallLive(bs, q) <==> Live(bs[idx], q) || exists i :: 0 <= i < |bs| && i != idx && Live(bs[i], q)
  {
    hide Live;
    var cs := bs[idx := c];
    assert cs[idx] == c;
    assert forall i | 0 <= i < |bs| && i != idx :: cs[i] == bs[i];
  }

  /** The page of a small block is a slab page of the bucket that holds it. */
  lemma LivePage(b: Bucket, ptr: nat)
    requires WellFormed(b)
    ensures Live(b, ptr) ==> HasPage(b, PageOf(ptr)) && !PageAligned(ptr) && ptr < ADDRESSES
  {
    if Live(b, ptr) {
      var s := Holder(b, ptr);
    }
  }

  lemma FreshOffer(h: Heap, idx: nat)
    requires Good(h) && h.supply != [] && idx < |h.buckets|
    ensures FreshPage(h.buckets[idx], h.supply[0])
  {
    forall s | s in Slabs(h.buckets[idx]) ensures s.address != h.supply[0] {
      if s.address == h.supply[0] {
        assert HasPage(h.buckets[idx], h.supply[0]);
        assert SlabPage(h.buckets, h.supply[0]);
      }
    }
  }

  lemma SmallBuckets(h: Heap, idx: nat)
    requires Good(h) && h.supply != [] && idx < |h.buckets|
    ensures var (g, ptr) := AllocateFrom(h, idx);
      && BucketsOk(g.buckets) && !SmallLive(h.buckets, ptr) && Live(g.buckets[idx], ptr) && !PageAligned(ptr)
      && (forall q :: SmallLive(g.buckets, q) <==> SmallLive(h.buckets, q) || q == ptr)
      && (forall p :: SlabPage(g.buckets, p) ==>
            SlabPage(h.buckets, p) || (NeedsPage(h.buckets[idx]) && p == h.supply[0]))
  {
    var b, page := h.buckets[idx], h.supply[0];
    var (g, ptr) := AllocateFrom(h, idx);
    var c := g.buckets[idx];
    FreshOffer(h, idx);
    AllocateLaw(b, page);
    forall p { AllocatePages(b, page, p); }
    hide WellFormed;
    hide Live;
    hide HasPage;
    hide FreshPage;
    BucketChanges(h.buckets, idx, c, page);
    forall q ensures SmallLive(g.buckets, q) <==> SmallLive(h.buckets, q) || q == ptr {
      SmallLiveChanges(h.buckets, idx, c, q);
    }
    forall p ensures SlabPage(g.buckets, p) ==> SlabPage(h.buckets, p) || (NeedsPage(b) && p == page) {
      SlabPageChanges(h.buckets, idx, c, p);
      assert HasPage(b, p) ==> SlabPage(h.buckets, p);
    }
    NotElsewhere(h, idx, ptr);
    LivePage(c, ptr);
  }

  lemma PageElsewhere(bs: seq<Bucket>, idx: nat, i: nat, p: nat, page: nat)
    requires BucketsOk(bs) && idx < |bs| && i < |bs| && i != idx
    requires HasPage(bs[idx], p) || (p == page && !SlabPage(bs, page))
    ensures !HasPage(bs[i], p)
  {
    hide HasPage;
    hide WellFormed;
    assert HasPage(bs[i], p) ==> SlabPage(bs, p);
  }

  /** The block came from a page of this bucket or from the supply, so no other
      bucket holds it. */
  lemma NotElsewhere(h: Heap, idx: nat, ptr: nat)
    requires BucketsOk(h.buckets) && h.supply != [] && idx < |h.buckets| && FreshPage(h.buckets[idx], h.supply[0])
    requires !SlabPage(h.buckets, h.supply[0])
    requires Allocate(h.buckets[idx], h.supply[0]).1 == ptr
    ensures !SmallLive(h.buckets, ptr)
  {
    var b, page := h.buckets[idx], h.supply[0];
    var c := Allocate(b, page).0;
    AllocateLaw(b, page);
    assert WellFormed(c) && Live(c, ptr) && !Live(b, ptr);
    hide Live;
    hide HasPage;
    hide Allocate;
    hide WellFormed;
    hide InPage;
    LivePage(c, ptr);
    AllocatePages(b, page, PageOf(ptr));
    hide FreshPage;
    hide GetAvailableSlab;
    forall i | 0 <= i < |h.buckets| ensures !Live(h.buckets[i], ptr) {
      if i != idx {
        PageElsewhere(h.buckets, idx, i, PageOf(ptr), page);
        LivePage(h.buckets[i], ptr);
      }
    }
  }

  // ---------- small blocks ----------

  lemma SameRows(h: Heap, g: Heap)
    requires g.large == h.large && g.spare == h.spare && g.heads == h.heads
    ensures forall k: nat :: Row(g, k) == Row(h, k)
    ensures forall page :: LargePage(g, page) <==> LargePage(h, page)
    ensures forall ptr :: Reserved(g, ptr) <==> Reserved(h, ptr)
    ensures LargeOk(h) ==> LargeOk(g)
  {
    assert forall k: nat :: Row(g, k) == Row(h, k);
  }

  /** The supply gave at most its first page away, to a slab. */
  lemma SmallPages(h: Heap, g: Heap)
    requires PagesOk(h) && h.supply != [] && (g.supply == h.supply || g.supply == h.supply[1..])
    requires forall page :: LargePage(g, page) <==> LargePage(h, page)
    requires forall p :: SlabPage(g.buckets, p) ==>
      SlabPage(h.buckets, p) || (g.supply == h.supply[1..] && p == h.supply[0])
    ensures PagesOk(g)
  {
    hide SlabPage;
    hide LargePage;
    var d := |h.supply| - |g.supply|;
    forall k | 0 <= k < |g.supply| ensures g.supply[k] == h.supply[k + d] {
    }
    forall page | LargePage(g, page) ensures !SlabPage(g.buckets, page) {
      assert LargePage(h, page) && page != h.supply[0];
    }
  }

  /** A small block that was not in use, of the class asked for. */
  lemma SmallLaw(h: Heap, idx: nat)
    requires Good(h) && h.supply != [] && idx < MAX_BUCKET_INDEX
    ensures var (g, ptr) := AllocateFrom(h, idx);
      && Good(g) && |g.supply| >= |h.supply| - 1 && g.large == h.large && g.spare == h.spare && g.heads == h.heads
      && !SmallLive(h.buckets, ptr) && Live(g.buckets[idx], ptr) && !PageAligned(ptr)
      && (forall q :: SmallLive(g.buckets, q) <==> SmallLive(h.buckets, q) || q == ptr)
  {
    var (g, ptr) := AllocateFrom(h, idx);
    SmallBuckets(h, idx);
    SameRows(h, g);
    assert g.supply == if NeedsPage(h.buckets[idx]) then h.supply[1..] else h.supply;
    hide AllocateFrom;
    hide BucketsOk;
    hide SlabPage;
    hide SmallLive;
    hide LargeOk;
    hide LargePage;
    hide Reserved;
    hide Live;
    SmallPages(h, g);
    hide PagesOk;
    SmallMetas(h, g);
  }

  lemma SmallMetas(h: Heap, g: Heap)
    requires MetasOk(h) && forall k: nat :: Row(g, k) == Row(h, k)
    requires forall q :: SmallLive(h.buckets, q) ==> SmallLive(g.buckets, q)
    ensures MetasOk(g)
  {
    hide Row;
    hide SmallLive;
  }

  // ---------- large blocks ----------

  lemma PushRow(h: Heap, g: Heap, k: nat, m: Meta, ptr: nat)
    requires |g.large| == |h.large| && Row(g, k) == [m] + Row(h, k)
    requires forall l: nat :: l != k ==> Row(g, l) == Row(h, l)
    ensures Reserved(g, ptr) <==> Reserved(h, ptr) || ptr == m.address
    ensures LargePage(g, ptr) <==> LargePage(h, ptr) || (k < |h.large| && ptr == m.pagePtr)
  {
    assert Row(g, k)[0] == m;
    assert forall i: nat :: i < |Row(h, k)| ==> Row(g, k)[i + 1] == Row(h, k)[i];
    assert forall i: nat :: 0 < i < |Row(g, k)| ==> Row(g, k)[i] == Row(h, k)[i - 1];
  }

  lemma PushApart(h: Heap, g: Heap, k: nat, m: Meta)
    requires MetasApart(h) && !Reserved(h, m.address)
    requires Row(g, k) == [m] + Row(h, k) && forall l: nat :: l != k ==> Row(g, l) == Row(h, l)
    ensures MetasApart(g)
  {
    hide Row;
    forall p: nat, i: nat, l: nat, j: nat | i < |Row(g, p)| && j < |Row(g, l)|
      && Row(g, p)[i].address == Row(g, l)[j].address
      ensures p == l && i == j
    {
      var i', j' := if p == k then i - 1 else i, if l == k then j - 1 else j;
      assert i' >= 0 ==> Row(g, p)[i] == Row(h, p)[i'];
      assert j' >= 0 ==> Row(g, l)[j] == Row(h, l)[j'];
    }
  }

  /** Record `i` of row `k` has been taken out. */
  ghost predicate Dropped(h: Heap, g: Heap, k: nat, i: nat) {
    && |g.large| == |h.large| && i < |Row(h, k)| && |Row(g, k)| == |Row(h, k)| - 1
    && (forall l: nat :: l != k ==> Row(g, l) == Row(h, l))
    && (forall j: nat :: j < |Row(g, k)| ==> Row(g, k)[j] == Row(h, k)[if j < i then j else j + 1])
  }

  lemma DropSlices(h: Heap, g: Heap, k: nat, i: nat)
    requires |g.large| == |h.large| && i < |Row(h, k)|
    requires Row(g, k) == Row(h, k)[..i] + Row(h, k)[i + 1..] && forall l: nat :: l != k ==> Row(g, l) == Row(h, l)
    ensures Dropped(h, g, k, i)
  {
  }

  lemma DropRow(h: Heap, g: Heap, k: nat, i: nat, ptr: nat)
    requires MetasApart(h) && Dropped(h, g, k, i)
    ensures Reserved(g, ptr) <==> Reserved(h, ptr) && ptr != Row(h, k)[i].address
  {
    hide Row;
    if p: nat, j: nat :| j < |Row(g, p)| && Row(g, p)[j].address == ptr {
      assert Row(h, p)[if p == k && j >= i then j + 1 else j] == Row(g, p)[j];
    }
    if p: nat, j: nat :| j < |Row(h, p)| && Row(h, p)[j].address == ptr && ptr != Row(h, k)[i].address {
      assert Row(g, p)[if p == k && j > i then j - 1 else j] == Row(h, p)[j];
    }
  }

  lemma DropApart(h: Heap, g: Heap, k: nat, i: nat)
    requires MetasApart(h) && Dropped(h, g, k, i)
    ensures MetasApart(g)
  {
    hide Row;
  }

  lemma DropLargePage(h: Heap, g: Heap, k: nat, i: nat, page: nat)
    requires LargeOk(h) && Dropped(h, g, k, i)
    ensures LargePage(g, page) <==> LargePage(h, page) && !(k < |h.large| && page == Row(h, k)[i].pagePtr)
  {
    hide Row;
    hide HashPtr;
    if p: nat, j: nat :| p < |g.large| && j < |Row(g, p)| && Row(g, p)[j].pagePtr == page {
      var j' := if p == k && j >= i then j + 1 else j;
      assert Row(h, p)[j'] == Row(g, p)[j];
      if k < |h.large| && page == Row(h, k)[i].pagePtr { OneLarge(h, k, i, p, j'); }
    }
    if p: nat, j: nat :| p < |h.large| && j < |Row(h, p)| && Row(h, p)[j].pagePtr == page {
      if !(k < |h.large| && page == Row(h, k)[i].pagePtr) {
        assert Row(g, p)[if p == k && j > i then j - 1 else j] == Row(h, p)[j];
      }
    }
  }

  lemma OneLarge(h: Heap, k: nat, i: nat, l: nat, j: nat)
    requires LargeOk(h) && k < |h.large| && l < |h.large| && i < |Row(h, k)| && j < |Row(h, l)|
    requires Row(h, k)[i].pagePtr == Row(h, l)[j].pagePtr
    ensures k == l && i == j
  {
    hide Row;
    hide HashPtr;
    assert HashPtr(Row(h, k)[i].pagePtr) == k && HashPtr(Row(h, l)[j].pagePtr) == l;
  }

  lemma DropLarge(h: Heap, g: Heap, k: nat, i: nat)
    requires LargeOk(h) && Dropped(h, g, k, i)
    ensures LargeOk(g)
  {
    hide Row;
    hide HashPtr;
  }

  lemma PushLarge(h: Heap, g: Heap, k: nat, m: Meta)
    requires LargeOk(h) && |g.large| == |h.large| && (k < |h.large| ==> !LargePage(h, m.pagePtr))
    requires Row(g, k) == [m] + Row(h, k) && forall l: nat :: l != k ==> Row(g, l) == Row(h, l)
    requires k < |h.large| ==> HashPtr(m.pagePtr) == k && PageAt(m.pagePtr)
    ensures LargeOk(g)
  {
    hide Row;
    hide HashPtr;
    assert forall j: nat :: 0 < j < |Row(g, k)| ==> Row(g, k)[j] == Row(h, k)[j - 1];
  }

  /** A record in a live small block that no other record uses. */
  ghost predicate OwnsMeta(h: Heap, g: Heap, m: Meta) {
    && Good(g) && |g.supply| >= |h.supply| - 1 && SmallLive(g.buckets, m.address) && !Reserved(g, m.address)
    && (forall p :: LargePage(g, p) <==> LargePage(h, p))
    && (forall q :: UserBlock(g, q) && q != m.address <==> UserBlock(h, q))
  }

  lemma SpareRows(h: Heap, p: nat)
    requires LargeOk(h) && MetasApart(h) && h.spare != []
    ensures var g, s := h.(spare := h.spare[1..]), h.spare[0];
      && LargeOk(g) && MetasApart(g) && Reserved(h, s.address)
      && (Reserved(g, p) <==> Reserved(h, p) && p != s.address) && (LargePage(g, p) <==> LargePage(h, p))
  {
    var g, k := h.(spare := h.spare[1..]), |h.large|;
    DropSlices(h, g, k, 0);
    assert Row(h, k)[0] == h.spare[0];
    DropApart(h, g, k, 0);
    DropLarge(h, g, k, 0);
    DropRow(h, g, k, 0, p);
    DropLargePage(h, g, k, 0, p);
  }

  lemma SpareLaw(h: Heap)
    requires Good(h) && h.spare != []
    ensures OwnsMeta(h, h.(spare := h.spare[1..]), h.spare[0])
  {
    hide SmallLive;
    hide BucketsOk;
    hide SlabPage;
    hide LargeOk;
    hide LargePage;
    hide MetasApart;
    hide Reserved;
    var g, s := h.(spare := h.spare[1..]), h.spare[0];
    forall p
      ensures (Reserved(g, p) <==> Reserved(h, p) && p != s.address) && (LargePage(g, p) <==> LargePage(h, p))
    {
      SpareRows(h, p);
    }
    SpareRows(h, s.address);
    LargeNotSmall(h, s.address);
  }

  /** A large block is no small one. */
  lemma LargeNotSmall(h: Heap, ptr: nat)
    requires Good(h)
    ensures !(SmallLive(h.buckets, ptr) && LargePage(h, ptr))
  {
    if LargePage(h, ptr) {
      var k: nat, i: nat :| k < |h.large| && i < |Row(h, k)| && Row(h, k)[i].pagePtr == ptr;
      assert PageAligned(ptr);
      forall j | 0 <= j < |h.buckets| ensures !Live(h.buckets[j], ptr) {
        LivePage(h.buckets[j], ptr);
      }
    }
  }

  /** One more small block: one more block for the callers. */
  lemma UserAdds(h: Heap, g: Heap, ptr: nat)
    requires Good(h) && Good(g) && g.large == h.large && g.spare == h.spare && g.heads == h.heads
      && !SmallLive(h.buckets, ptr)
    requires forall q :: SmallLive(g.buckets, q) <==> SmallLive(h.buckets, q) || q == ptr
    ensures !Reserved(g, ptr) && SmallLive(g.buckets, ptr) && !UserBlock(h, ptr)
    ensures forall p :: LargePage(g, p) <==> LargePage(h, p)
    ensures forall q :: UserBlock(g, q) <==> UserBlock(h, q) || q == ptr
  {
    SameRows(h, g);
    LargeNotSmall(g, ptr);
    hide SmallLive;
    hide LargePage;
    hide Reserved;
    hide MetasApart;
    hide BucketsOk;
    hide LargeOk;
    hide PagesOk;
    hide Row;
  }

  lemma NewMetaLaw(h: Heap, g: Heap, ptr: nat)
    requires Good(h) && Good(g) && g.large == h.large && g.spare == h.spare && g.heads == h.heads
      && !SmallLive(h.buckets, ptr)
    requires |g.supply| >= |h.supply| - 1
      && forall q :: SmallLive(g.buckets, q) <==> SmallLive(h.buckets, q) || q == ptr
    ensures OwnsMeta(h, g, Meta(ptr, 0, 0))
  {
    UserAdds(h, g, ptr);
    hide Good;
    hide UserBlock;
    hide SmallLive;
    hide LargePage;
    hide Reserved;
  }

  lemma TakeMetaLaw(h: Heap)
    requires Good(h) && h.supply != []
    ensures OwnsMeta(h, TakeMeta(h).0, TakeMeta(h).1)
  {
    if h.spare != [] {
      SpareLaw(h);
    } else {
      assert IndexFromSize(META_SIZE) == 0;
      assert KallocSmall(h, META_SIZE) == AllocateFrom(h, 0);
      SmallLaw(h, 0);
      hide AllocateFrom;
      NewMetaLaw(h, AllocateFrom(h, 0).0, AllocateFrom(h, 0).1);
      hide OwnsMeta;
    }
  }

  /** The page becomes a large block, the record its entry. */
  lemma EnterLaw(h: Heap, m: Meta)
    requires Good(h) && h.supply != [] && m.pagePtr == h.supply[0] && SmallLive(h.buckets, m.address)
      && !Reserved(h, m.address)
    ensures var k := HashPtr(m.pagePtr);
      var g := h.(large := h.large[k := [m] + h.large[k]], supply := h.supply[1..]);
      && Good(g) && (forall p :: LargePage(g, p) <==> LargePage(h, p) || p == m.pagePtr)
      && (forall q :: UserBlock(g, q) <==> (UserBlock(h, q) && q != m.address) || q == m.pagePtr)
      && !UserBlock(h, m.pagePtr)
  {
    var k := HashPtr(m.pagePtr);
    var g := h.(large := h.large[k := [m] + h.large[k]], supply := h.supply[1..]);
    assert Row(g, k) == [m] + Row(h, k) && forall l: nat :: l != k ==> Row(g, l) == Row(h, l);
    PushApart(h, g, k, m);
    PushLarge(h, g, k, m);
    forall p { PushRow(h, g, k, m, p); }
    LargeNotSmall(h, m.pagePtr);
    PageNotLive(h, m.pagePtr);
    hide Row;
    hide SmallLive;
    hide BucketsOk;
    hide SlabPage;
    hide LargeOk;
    hide LargePage;
    hide Reserved;
    hide HashPtr;
    assert forall j | 0 <= j < |g.supply| :: g.supply[j] == h.supply[j + 1];
    forall q ensures UserBlock(g, q) <==> (UserBlock(h, q) && q != m.address) || q == m.pagePtr {
      LargeNotSmall(h, m.address);
    }
  }

  lemma PageNotLive(h: Heap, page: nat)
    requires Good(h) && PageAligned(page)
    ensures !SmallLive(h.buckets, page)
  {
    forall j | 0 <= j < |h.buckets| ensures !Live(h.buckets[j], page) {
      LivePage(h.buckets[j], page);
    }
  }

  // ---------- kalloc ----------

  lemma LargeLaw(h: Heap, sz: nat)
    requires Good(h) && |h.supply| >= 2
    ensures var (g, ptr) := KallocLarge(h, sz);
      && Good(g) && |g.supply| >= |h.supply| - 2
      && LargePage(g, ptr) && !UserBlock(h, ptr) && PageAligned(ptr) && ptr != 0
      && (forall q :: UserBlock(g, q) <==> UserBlock(h, q) || q == ptr)
  {
    var (f, meta) := TakeMeta(h);
    TakeMetaLaw(h);
    var page := f.supply[0];
    var m := meta.(pagePtr := page, pageCount := PageCount(sz));
    assert PageAt(page);
    LargeNotSmall(f, m.address);
    PageNotLive(f, page);
    hide TakeMeta;
    hide UserBlock;
    hide LargePage;
    hide SmallLive;
    hide BucketsOk;
    hide LargeOk;
    hide MetasOk;
    hide Reserved;
    hide SlabPage;
    hide PageCount;
    EnterLaw(f, m);
    hide PagesOk;
    assert m.address != page;
  }

  /** A block can hold this many bytes. */
  ghost predicate HoldsBytes(h: Heap, ptr: nat, size: nat) {
    || (exists i :: 0 <= i < |h.buckets| && Live(h.buckets[i], ptr) && ItemSizeFromIndex(i) >= size)
    || (LargePage(h, ptr) && PAGE_SIZE >= size)
  }

  const LARGEST_SERVED: nat := ItemSizeFromIndex(MAX_BUCKET_INDEX - 1)

  /** Sizes whose class is the last one, which has no bucket. */
  predicate Unserved(size: nat) { LARGEST_SERVED < size <= MAX_ITEM_SIZE }

  lemma LastClass(size: nat)
    requires 0 < size <= MAX_ITEM_SIZE
    ensures IndexFromSize(size) < MAX_BUCKET_INDEX <==> !Unserved(size)
  {
    TightFit(size);
    if IndexFromSize(size) < MAX_BUCKET_INDEX { LargerClass(IndexFromSize(size), MAX_BUCKET_INDEX - 1); }
  }

  /** The count of pages wraps to nothing for the largest sizes. */
  lemma PageCounts(size: nat)
    requires 0 < size < ADDRESSES
    ensures PageCount(size) > 1 <==> PAGE_SIZE < size <= ADDRESSES - PAGE_SIZE
  {
  }

  /** `kalloc` hands out one block that was in no use before; it stops the kernel
      for more than a page. */
  lemma KallocLaw(h: Heap, size: nat)
    requires Good(h) && |h.supply| >= 2 && size < ADDRESSES
    ensures Kalloc(h, size).Panic? <==> PAGE_SIZE < size <= ADDRESSES - PAGE_SIZE
    ensures Kalloc(h, size).Done? ==>
      var g, ptr := Kalloc(h, size).heap, Kalloc(h, size).ptr;
      && Good(g) && (ptr == 0 <==> size == 0 || Unserved(size))
      && (ptr == 0 ==> g == h)
      && (ptr != 0 ==> !UserBlock(h, ptr) && forall q :: UserBlock(g, q) <==> UserBlock(h, q) || q == ptr)
      && (ptr != 0 ==> (PageAligned(ptr) <==> size > MAX_ITEM_SIZE))
  {
    if size > 0 {
      if size <= MAX_ITEM_SIZE {
        LastClass(size);
        if IndexFromSize(size) < MAX_BUCKET_INDEX { UserSmall(h, IndexFromSize(size)); }
      } else {
        PageCounts(size);
        LargeLaw(h, size);
      }
    }
    hide Good;
    hide UserBlock;
    hide AllocateFrom;
    hide KallocLarge;
    hide PageCount;
  }

  lemma UserSmall(h: Heap, idx: nat)
    requires Good(h) && h.supply != [] && idx < MAX_BUCKET_INDEX
    ensures var (g, ptr) := AllocateFrom(h, idx);
      && Good(g) && !PageAligned(ptr) && ptr != 0 && Live(g.buckets[idx], ptr)
      && !UserBlock(h, ptr) && forall q :: UserBlock(g, q) <==> UserBlock(h, q) || q == ptr
  {
    assert MAX_BUCKET_INDEX <= |h.buckets|;
    ZeroAligned();
    hide PageAligned;
    hide AllocateFrom;
    hide Good;
    hide UserBlock;
    hide SmallLive;
    hide LargePage;
    hide Reserved;
    hide Live;
    var (g, ptr) := AllocateFrom(h, idx);
    SmallLaw(h, idx);
    UserAdds(h, g, ptr);
  }

  /** A small block is of the least class whose items are large enough. */
  lemma KallocClass(h: Heap, size: nat)
    requires Good(h) && |h.supply| >= 2 && 0 < size <= MAX_ITEM_SIZE
    requires Kalloc(h, size).Done? && Kalloc(h, size).ptr != 0
    ensures var g, ptr := Kalloc(h, size).heap, Kalloc(h, size).ptr;
      exists i: nat :: i < |g.buckets| && Live(g.buckets[i], ptr) && ItemSizeFromIndex(i) >= size
        && forall j: nat :: j < i ==> ItemSizeFromIndex(j) < size
  {
    GoodSize(h);
    LastClass(size);
    var i := IndexFromSize(size);
    assert i < MAX_BUCKET_INDEX && Kalloc(h, size) == Done(AllocateFrom(h, i).0, AllocateFrom(h, i).1);
    hide Good;
    hide Live;
    hide AllocateFrom;
    hide Kalloc;
    hide PageAligned;
    hide UserBlock;
    hide ItemSizeFromIndex;
    TightFit(size);
    UserSmall(h, i);
    forall j: nat | j < i ensures ItemSizeFromIndex(j) < size {
      LargerClass(j, i - 1);
    }
  }

  /** The record of a new large block says where it is and how many pages it has. */
  lemma RecordSays(h: Heap, size: nat)
    requires Good(h) && |h.supply| >= 2 && MAX_ITEM_SIZE < size < ADDRESSES && Kalloc(h, size).Done?
    ensures var g, page := Kalloc(h, size).heap, Kalloc(h, size).ptr;
      && |g.large| == 32 && g.large[page / 4096 % 32] != []
      && g.large[page / 4096 % 32][0].pagePtr == page
      && g.large[page / 4096 % 32][0].pageCount == (size + 4095) % 0x1_0000_0000 / 4096
  {
    TakeMetaLaw(h);
    GoodSize(h);
    GoodSize(TakeMeta(h).0);
    hide Good;
    hide TakeMeta;
    hide UserBlock;
    hide LargePage;
    CountIs(size);
    hide PageCount;
  }

  lemma CountIs(size: nat)
    ensures PageCount(size) == (size + 4095) % 0x1_0000_0000 / 4096
  {
  }

  /** The record of a large block is in the row of its page number modulo 32. */
  lemma RecordRow(h: Heap, page: nat)
    requires Good(h) && LargePage(h, page)
    ensures exists i: nat :: i < |h.large[page / 4096 % 32]| && h.large[page / 4096 % 32][i].pagePtr == page
  {
    var k: nat, i: nat :| k < |h.large| && i < |Row(h, k)| && Row(h, k)[i].pagePtr == page;
    assert k == page / 4096 % 32 && h.large[k][i].pagePtr == page;
  }

  /** The block is large enough, unless the size is within a page of the top of
      the address space: then one page is handed out all the same. */
  lemma KallocHoldsSize(h: Heap, size: nat)
    requires Good(h) && |h.supply| >= 2 && size < ADDRESSES && Kalloc(h, size).Done? && Kalloc(h, size).ptr != 0
    ensures HoldsBytes(Kalloc(h, size).heap, Kalloc(h, size).ptr, size) <==> size <= ADDRESSES - PAGE_SIZE
  {
    var g, ptr := Kalloc(h, size).heap, Kalloc(h, size).ptr;
    KallocLaw(h, size);
    if size <= MAX_ITEM_SIZE {
      LastClass(size);
      TightFit(size);
      UserSmall(h, IndexFromSize(size));
      assert Live(g.buckets[IndexFromSize(size)], ptr);
    } else {
      PageCounts(size);
      LargeLaw(h, size);
      LargeNotSmall(g, ptr);
      assert forall i :: 0 <= i < |g.buckets| ==> !Live(g.buckets[i], ptr);
    }
  }

  // ---------- kfree ----------

  lemma FindMetaLaw(h: Heap, ptr: nat)
    requires LargeOk(h)
    ensures FindMeta(h.large[HashPtr(ptr)], ptr) < |h.large[HashPtr(ptr)]| <==> LargePage(h, ptr)
  {
    var k := HashPtr(ptr);
    var i := FindMeta(h.large[k], ptr);
    if i < |h.large[k]| {
      assert Row(h, k)[i].pagePtr == ptr;
    }
    if LargePage(h, ptr) {
      var l: nat, j: nat :| l < |h.large| && j < |Row(h, l)| && Row(h, l)[j].pagePtr == ptr;
      assert l == k && h.large[k][j] in h.large[k];
      assert h.large[k][..|h.large[k]|] == h.large[k];
    }
  }

  /** A large block goes back to the page allocator, its record to the spare
      ones; any other page address changes nothing. */
  lemma KfreeLargeLaw(h: Heap, ptr: nat)
    requires Good(h) && PageAligned(ptr)
    ensures Good(KfreeLarge(h, ptr))
    ensures if UserBlock(h, ptr) then forall q :: UserBlock(KfreeLarge(h, ptr), q) <==> UserBlock(h, q) && q != ptr
      else KfreeLarge(h, ptr) == h
    ensures UserBlock(h, ptr) ==> KfreeLarge(h, ptr).supply == h.supply + [ptr]
    ensures forall q :: Reserved(KfreeLarge(h, ptr), q) <==> Reserved(h, q)
  {
    FindMetaLaw(h, ptr);
    PageNotLive(h, ptr);
    if LargePage(h, ptr) {
      LeaveLaw(h, ptr);
    }
    hide Good;
    hide LargePage;
  }

  lemma LeaveLaw(h: Heap, ptr: nat)
    requires Good(h) && PageAligned(ptr) && LargePage(h, ptr)
    requires FindMeta(h.large[HashPtr(ptr)], ptr) < |h.large[HashPtr(ptr)]|
    ensures Good(KfreeLarge(h, ptr)) && KfreeLarge(h, ptr).supply == h.supply + [ptr]
    ensures forall q :: UserBlock(KfreeLarge(h, ptr), q) <==> UserBlock(h, q) && q != ptr
    ensures forall q :: Reserved(KfreeLarge(h, ptr), q) <==> Reserved(h, q)
  {
    hide Row;
    hide Dropped;
    hide SmallLive;
    hide SlabPage;
    hide BucketsOk;
    hide LargeOk;
    hide LargePage;
    hide Reserved;
    hide MetasApart;
    hide PagesOk;
    GoodSize(h);
    HashBound(ptr);
    var k := HashPtr(ptr);
    var l := h.large[k];
    var i := FindMeta(l, ptr);
    var f := h.(large := h.large[k := l[..i] + l[i + 1..]]);
    var m := l[i].(pagePtr := 0);
    var g := f.(spare := [m] + f.spare, supply := f.supply + [ptr]);
    assert g == KfreeLarge(h, ptr);
    hide HashPtr;
    hide KfreeLarge;
    LeaveSteps(h, f, g, k, i, m);
    RowAt(h, k);
    LeaveRows(h, f, g, k, i, m);
    LeavePages(h, g, ptr);
    PageNotLive(h, ptr);
  }

  lemma HashBound(ptr: nat)
    ensures HashPtr(ptr) < LG_BUCKET_SIZE
  {
  }

  lemma RowAt(h: Heap, k: nat)
    requires k < |h.large|
    ensures Row(h, k) == h.large[k]
  {
  }

  lemma LeaveSteps(h: Heap, f: Heap, g: Heap, k: nat, i: nat, m: Meta)
    requires LargeOk(h) && MetasApart(h) && k < |h.large| && i < |h.large[k]|
    requires f == h.(large := h.large[k := h.large[k][..i] + h.large[k][i + 1..]])
    requires g == f.(spare := [m] + f.spare, supply := g.supply)
    ensures Dropped(h, f, k, i) && LargeOk(f) && MetasApart(f)
    ensures Row(g, |h.large|) == [m] + Row(f, |h.large|) && forall r: nat :: r != |h.large| ==> Row(g, r) == Row(f, r)
  {
    assert Row(f, k) == Row(h, k)[..i] + Row(h, k)[i + 1..] && forall r: nat :: r != k ==> Row(f, r) == Row(h, r);
    DropSlices(h, f, k, i);
    hide Dropped;
    hide LargeOk;
    hide MetasApart;
    DropApart(h, f, k, i);
    DropLarge(h, f, k, i);
  }

  lemma LeaveRows(h: Heap, f: Heap, g: Heap, k: nat, i: nat, m: Meta)
    requires LargeOk(h) && MetasApart(h) && Dropped(h, f, k, i) && k < |h.large|
    requires MetasApart(f) && LargeOk(f) && m.address == Row(h, k)[i].address && |g.large| == |f.large|
    requires Row(g, |h.large|) == [m] + Row(f, |h.large|) && forall r: nat :: r != |h.large| ==> Row(g, r) == Row(f, r)
    ensures LargeOk(g) && MetasApart(g)
    ensures forall p :: Reserved(g, p) <==> Reserved(h, p)
    ensures forall p :: LargePage(g, p) <==> LargePage(h, p) && p != Row(h, k)[i].pagePtr
  {
    var n := |h.large|;
    assert Reserved(h, m.address);
    DropRow(h, f, k, i, m.address);
    PushApart(f, g, n, m);
    PushLarge(f, g, n, m);
    hide Row;
    hide LargeOk;
    hide MetasApart;
    hide Reserved;
    hide LargePage;
    hide Dropped;
    forall p ensures Reserved(g, p) <==> Reserved(h, p) {
      DropRow(h, f, k, i, p);
      PushRow(f, g, n, m, p);
    }
    forall p ensures LargePage(g, p) <==> LargePage(h, p) && p != Row(h, k)[i].pagePtr {
      DropLargePage(h, f, k, i, p);
      PushRow(f, g, n, m, p);
    }
  }

  lemma LeavePages(h: Heap, g: Heap, ptr: nat)
    requires Good(h) && LargePage(h, ptr) && g.buckets == h.buckets && g.supply == h.supply + [ptr]
    requires forall p :: LargePage(g, p) <==> LargePage(h, p) && p != ptr
    ensures PagesOk(g)
  {
    var k: nat, i: nat :| k < |h.large| && i < |Row(h, k)| && Row(h, k)[i].pagePtr == ptr;
    assert PageAt(ptr);
    hide LargePage;
    hide SlabPage;
    hide BucketsOk;
    hide LargeOk;
    hide MetasOk;
  }

  lemma InHasPage(b: Bucket, p: Place)
    requires In(b, p)
    ensures HasPage(b, SlabAt(b, p).address)
  {
    assert SlabAt(b, p) in Line(b, p.kind) && SlabAt(b, p) in Slabs(b);
  }

  lemma NotFound(b: Bucket, page: nat)
    requires FindPlace(b, page).None?
    ensures !HasPage(b, page)
  {
    assert forall s | s in Slabs(b) :: s in b.partial + b.full + b.empty;
  }

  lemma {:induction false} SlabOnLaw(bs: seq<Bucket>, page: nat)
    ensures SlabOn(bs, page).Some? <==> SlabPage(bs, page)
    ensures SlabOn(bs, page).Some? ==>
      SlabOn(bs, page).value.address == page
      && exists i, p :: 0 <= i < |bs| && In(bs[i], p) && SlabAt(bs[i], p) == SlabOn(bs, page).value
  {
    if bs != [] {
      var rest := bs[1..];
      SlabOnLaw(rest, page);
      hide HasPage;
      match FindPlace(bs[0], page)
      case Some(p) =>
        assert In(bs[0], p) && SlabAt(bs[0], p) == SlabOn(bs, page).value;
        InHasPage(bs[0], p);
      case None =>
        NotFound(bs[0], page);
        if SlabOn(rest, page).Some? {
          var i, p :| 0 <= i < |rest| && In(rest[i], p) && SlabAt(rest[i], p) == SlabOn(rest, page).value;
          assert In(bs[i + 1], p) && SlabAt(bs[i + 1], p) == SlabOn(bs, page).value;
          InHasPage(bs[i + 1], p);
        }
        if i :| 0 <= i < |bs| && HasPage(bs[i], page) {
          assert i > 0 ==> HasPage(rest[i - 1], page);
        }
    }
  }

  /** The header names the bucket whose lists hold the slab, or none if the slab
      is empty. */
  lemma HeaderNamesBucket(b: Bucket, p: Place, i: nat)
    requires WellFormed(b) && In(b, p) && b.index == i < MAX_BUCKET_INDEX
    ensures var s := SlabAt(b, p);
      HasPage(b, s.address)
      && if p.kind.Empty? then s.bucket > MAX_BUCKET_INDEX else s.bucket == i
  {
    PlaceFits(b, p);
  }

  lemma SameSlab(b: Bucket, p: Place, q: Place)
    requires WellFormed(b) && In(b, p) && In(b, q) && SlabAt(b, p).address == SlabAt(b, q).address
    ensures SlabAt(b, p) == SlabAt(b, q)
  {
    PlaceFits(b, p);
    PlaceFits(b, q);
  }

  /** Only the bucket that owns the page can hold the block. */
  lemma LiveInOwner(bs: seq<Bucket>, i: nat, p: Place, ptr: nat)
    requires BucketsOk(bs) && i < |bs| && In(bs[i], p) && SlabAt(bs[i], p).address == PageOf(ptr)
    ensures SmallLive(bs, ptr) <==> Live(bs[i], ptr)
    ensures Live(bs[i], ptr) <==> Holds(SlabAt(bs[i], p), i, ptr)
    ensures p.kind.Empty? ==> !Live(bs[i], ptr)
  {
    PlaceFits(bs[i], p);
    assert HasPage(bs[i], PageOf(ptr));
    assert p.kind.Empty? ==> SlabAt(bs[i], p) in bs[i].empty;
    forall j | 0 <= j < |bs| && Live(bs[j], ptr) ensures j == i {
      LivePage(bs[j], ptr);
    }
    if Live(bs[i], ptr) {
      var s := Holder(bs[i], ptr);
      SamePage(bs[i], s, SlabAt(bs[i], p));
    }
  }

  lemma FindsSame(b: Bucket, p: Place, page: nat)
    requires WellFormed(b) && In(b, p) && SlabAt(b, p).address == page
    ensures FindPlace(b, page).Some? && SlabAt(b, FindPlace(b, page).value) == SlabAt(b, p)
  {
    assert SlabAt(b, p) in b.partial + b.full + b.empty;
    SameSlab(b, p, FindPlace(b, page).value);
  }

  /** The steps of `kfree` once the page is known to be a slab. */
  lemma KfreeKnown(h: Heap, ptr: nat, s: Slab)
    requires SlabOn(h.buckets, PageOf(ptr)) == Some(s)
    ensures s.bucket > MAX_BUCKET_INDEX ==> KfreeSmall(h, ptr) == Freed(h)
    ensures s.bucket < |h.buckets| <= MAX_BUCKET_INDEX && FindPlace(h.buckets[s.bucket], PageOf(ptr)).Some? ==>
      var b, p := h.buckets[s.bucket], FindPlace(h.buckets[s.bucket], PageOf(ptr)).value;
      KfreeSmall(h, ptr) == Freed(h.(buckets := h.buckets[s.bucket := Return(b, p, ptr)]))
  {
    hide Return;
    hide SlabOn;
    hide PageOf;
    hide ReturnForeign;
  }

  /** The slab of the page of `ptr`, and what `kfree` does with it: the bucket is
      found through the header alone. */
  lemma KfreeSmallIs(h: Heap, ptr: nat) returns (i: nat, p: Place)
    requires BucketsOk(h.buckets) && SlabOn(h.buckets, PageOf(ptr)).Some?
    ensures i < |h.buckets| && In(h.buckets[i], p) && SlabAt(h.buckets[i], p).address == PageOf(ptr)
    ensures KfreeSmall(h, ptr) ==
      Freed(if p.kind.Empty? then h else h.(buckets := h.buckets[i := Return(h.buckets[i], p, ptr)]))
  {
    hide Return;
    hide HasPage;
    hide FindPlace;
    hide PageOf;
    SlabOnLaw(h.buckets, PageOf(ptr));
    var s := SlabOn(h.buckets, PageOf(ptr)).value;
    i, p :| 0 <= i < |h.buckets| && In(h.buckets[i], p) && SlabAt(h.buckets[i], p) == s;
    assert WellFormed(h.buckets[i]) && h.buckets[i].index == i && |h.buckets| == MAX_BUCKET_INDEX;
    hide WellFormed;
    KfreeKnown(h, ptr, s);
    hide SlabOn;
    hide KfreeSmall;
    HeaderNamesBucket(h.buckets[i], p, i);
    if !p.kind.Empty? {
      FindsSame(h.buckets[i], p, PageOf(ptr));
      p := FindPlace(h.buckets[i], PageOf(ptr)).value;
      HeaderNamesBucket(h.buckets[i], p, i);
    }
  }

  /** The address is a marked slot of the header that its page seems to have. */
  predicate ForeignSlot(h: Heap, ptr: nat) {
    var f := HeaderAt(h, PageOf(ptr));
    exists i: nat :: i < ItemCountFromIndex(f.bucket) && Cells.Marked(f.bits, i) && ptr == ItemAddress(f, f.bucket, i)
  }

  /** Addresses that are no block of a caller, and do no harm: page addresses,
      those in a slab, and those in a page whose first bytes do not read as the
      header of a slab with a block there. */
  ghost predicate Harmless(h: Heap, ptr: nat) {
    var bucket := HeaderAt(h, PageOf(ptr)).bucket;
    || PageAligned(ptr) || SlabPage(h.buckets, PageOf(ptr))
    || bucket > MAX_BUCKET_INDEX || (bucket < MAX_BUCKET_INDEX && !ForeignSlot(h, ptr))
  }

  /** The header names the bucket behind the last one, or its free count asks for
      a change of lists. */
  predicate LeadsAstray(f: Slab) {
    f.bucket == MAX_BUCKET_INDEX || f.freeCount == 0 || f.freeCount == ItemCountFromIndex(f.bucket) - 1
  }

  lemma PageStarts(ptr: nat)
    requires ptr < ADDRESSES
    ensures StartsPage(PageOf(ptr))
  {
  }

  lemma NoPlace(bs: seq<Bucket>, i: nat, page: nat)
    requires i < |bs| && !SlabPage(bs, page)
    ensures FindPlace(bs[i], page).None?
  {
    var p := FindPlace(bs[i], page);
    if p.Some? { InHasPage(bs[i], p.value); }
  }

  /** The slot that `Return` sees in a page that is no slab. */
  lemma ForeignIndex(h: Heap, ptr: nat)
    requires ptr < ADDRESSES && HeaderAt(h, PageOf(ptr)).bucket <= MAX_BUCKET_INDEX
      && HeaderAt(h, PageOf(ptr)).address == PageOf(ptr)
    ensures var f := HeaderAt(h, PageOf(ptr));
      var idx := GetPointerIndex(f, f.bucket, ptr);
      ForeignSlot(h, ptr) <==> idx != INVALID_ITEM_INDEX && Cells.Marked(f.bits, idx)
  {
    var f := HeaderAt(h, PageOf(ptr));
    PageStarts(ptr);
    PointerIndex(f, f.bucket, ptr);
    hide GetPointerIndex;
    hide ItemAddress;
    hide ItemCountFromIndex;
    hide PageOf;
    hide HeaderAt;
    ItemCounts(f.bucket);
  }

  /** In a page that is no slab `kfree` goes by what the bytes there say. Nothing
      changes exactly when they name a bucket that is out of range, or an existing
      one but no marked slot at the address. */
  lemma KfreeForeignLaw(h: Heap, ptr: nat)
    requires |h.buckets| == MAX_BUCKET_INDEX && ptr < ADDRESSES && !PageAligned(ptr)
      && !SlabPage(h.buckets, PageOf(ptr))
    ensures KfreeSmall(h, ptr) == Freed(h) <==> Harmless(h, ptr)
    ensures KfreeSmall(h, ptr).Freed? ==> KfreeSmall(h, ptr).heap == h.(foreign := KfreeSmall(h, ptr).heap.foreign)
    ensures KfreeSmall(h, ptr).Wild? <==> !Harmless(h, ptr) && LeadsAstray(HeaderAt(h, PageOf(ptr)))
  {
    var page := PageOf(ptr);
    SlabOnLaw(h.buckets, page);
    var f := HeaderAt(h, page);
    assert f == h.foreign(page).(address := page);
    if f.bucket < MAX_BUCKET_INDEX {
      NoPlace(h.buckets, f.bucket, page);
      ForeignIndex(h, ptr);
      var idx := GetPointerIndex(f, f.bucket, ptr);
      assert KfreeSmall(h, ptr) == ReturnForeign(h, f, ptr);
      if ForeignSlot(h, ptr) {
        var g := h.(foreign := Overwrite(h.foreign, page, Unmark(f, idx)));
        assert Cells.Marked(h.foreign(page).bits, idx) && !Cells.Marked(g.foreign(page).bits, idx);
      }
    }
    hide SlabOn;
    hide HeaderAt;
    hide FindPlace;
    hide PageOf;
    hide GetPointerIndex;
    hide ItemCountFromIndex;
    hide ForeignSlot;
  }

  lemma Unreturned(h: Heap, i: nat, p: Place, ptr: nat)
    requires BucketsOk(h.buckets) && i < |h.buckets| && In(h.buckets[i], p) && ptr < ADDRESSES
      && !Holds(SlabAt(h.buckets[i], p), i, ptr)
    ensures h.(buckets := h.buckets[i := Return(h.buckets[i], p, ptr)]) == h
  {
    ReturnLaw(h.buckets[i], p, ptr);
    assert h.buckets[i := h.buckets[i]] == h.buckets;
  }

  lemma LargeAligned(h: Heap, ptr: nat)
    requires LargeOk(h)
    ensures LargePage(h, ptr) ==> PageAligned(ptr) && 0 < ptr < ADDRESSES
  {
    if LargePage(h, ptr) {
      var k: nat, i: nat :| k < |h.large| && i < |Row(h, k)| && Row(h, k)[i].pagePtr == ptr;
      assert PageAt(Row(h, k)[i].pagePtr);
    }
  }

  lemma NoSlabNoBlock(bs: seq<Bucket>, ptr: nat)
    requires BucketsOk(bs) && !SlabPage(bs, PageOf(ptr))
    ensures !SmallLive(bs, ptr)
  {
    forall i | 0 <= i < |bs| ensures !Live(bs[i], ptr) {
      LivePage(bs[i], ptr);
    }
  }

  lemma ReturnedBuckets(bs: seq<Bucket>, i: nat, p: Place, ptr: nat)
    requires BucketsOk(bs) && i < |bs| && In(bs[i], p) && Holds(SlabAt(bs[i], p), i, ptr) && ptr < ADDRESSES
    requires forall j | 0 <= j < |bs| && j != i :: !Live(bs[j], ptr)
    ensures var cs := bs[i := Return(bs[i], p, ptr)];
      && BucketsOk(cs) && SmallLive(bs, ptr) && (forall a :: SlabPage(cs, a) ==> SlabPage(bs, a))
      && forall q :: SmallLive(cs, q) <==> SmallLive(bs, q) && q != ptr
  {
    var b, c := bs[i], Return(bs[i], p, ptr);
    var cs := bs[i := c];
    ReturnLaw(b, p, ptr);
    PlaceFits(b, p);
    assert Live(b, ptr);
    forall a ensures HasPage(c, a) <==> HasPage(b, a) { ReturnPages(b, p, ptr, a); }
    hide Return;
    hide Live;
    hide HasPage;
    hide Holds;
    hide WellFormed;
    BucketChanges(bs, i, c, 0);
    forall a ensures SlabPage(cs, a) ==> SlabPage(bs, a) {
      SlabPageChanges(bs, i, c, a);
      assert HasPage(b, a) ==> SlabPage(bs, a);
    }
    forall q ensures SmallLive(cs, q) <==> SmallLive(bs, q) && q != ptr {
      SmallLiveChanges(bs, i, c, q);
    }
    hide SlabPage;
    hide SmallLive;
    hide BucketsOk;
  }

  /** One small block less, which was not reserved: one block less for the callers. */
  lemma UserDrops(h: Heap, g: Heap, ptr: nat)
    requires Good(h) && BucketsOk(g.buckets) && g == h.(buckets := g.buckets)
    requires !Reserved(h, ptr) && SmallLive(h.buckets, ptr) && !LargePage(h, ptr)
    requires forall a :: SlabPage(g.buckets, a) ==> SlabPage(h.buckets, a)
    requires forall q :: SmallLive(g.buckets, q) <==> SmallLive(h.buckets, q) && q != ptr
    ensures Good(g) && UserBlock(h, ptr) && forall q :: UserBlock(g, q) <==> UserBlock(h, q) && q != ptr
  {
    SameRows(h, g);
    hide Row;
    hide Reserved;
    hide LargePage;
    hide SlabPage;
    hide SmallLive;
    hide BucketsOk;
    hide LargeOk;
  }

  /** If it was a record or a list head, the callers' blocks are the same, but it is
      no longer safe from reuse. */
  lemma RecordDrops(h: Heap, g: Heap, ptr: nat)
    requires Good(h) && g == h.(buckets := g.buckets) && Reserved(h, ptr)
    requires forall q :: SmallLive(g.buckets, q) <==> SmallLive(h.buckets, q) && q != ptr
    ensures !Good(g) && forall q :: UserBlock(g, q) <==> UserBlock(h, q)
  {
    SameRows(h, g);
    assert Reserved(g, ptr);
    hide Row;
    hide Reserved;
    hide LargePage;
    hide SlabPage;
    hide SmallLive;
    hide BucketsOk;
    hide LargeOk;
    hide PagesOk;
  }

  lemma ReturnedLaw(h: Heap, i: nat, p: Place, ptr: nat)
    requires Good(h) && i < |h.buckets| && In(h.buckets[i], p) && SlabAt(h.buckets[i], p).address == PageOf(ptr)
      && Live(h.buckets[i], ptr)
    requires ptr < ADDRESSES && !LargePage(h, ptr)
    ensures var g := h.(buckets := h.buckets[i := Return(h.buckets[i], p, ptr)]);
      if Reserved(h, ptr) then !Good(g) && forall q :: UserBlock(g, q) <==> UserBlock(h, q)
      else Good(g) && UserBlock(h, ptr) && forall q :: UserBlock(g, q) <==> UserBlock(h, q) && q != ptr
  {
    LiveInOwner(h.buckets, i, p, ptr);
    forall j | 0 <= j < |h.buckets| && j != i ensures !Live(h.buckets[j], ptr) {
      LivePage(h.buckets[j], ptr);
      LivePage(h.buckets[i], ptr);
    }
    hide Live;
    hide Holds;
    hide HasPage;
    hide WellFormed;
    hide Reserved;
    hide LargePage;
    hide SlabPage;
    hide SmallLive;
    hide Return;
    ReturnedBuckets(h.buckets, i, p, ptr);
    var g := h.(buckets := h.buckets[i := Return(h.buckets[i], p, ptr)]);
    if Reserved(h, ptr) {
      RecordDrops(h, g, ptr);
    } else {
      UserDrops(h, g, ptr);
    }
  }

  lemma SlabReturned(h: Heap, i: nat, p: Place, ptr: nat)
    requires Good(h) && i < |h.buckets| && In(h.buckets[i], p) && SlabAt(h.buckets[i], p).address == PageOf(ptr)
    requires ptr < ADDRESSES && !LargePage(h, ptr) && Live(h.buckets[i], ptr) && SmallLive(h.buckets, ptr)
    ensures Frees(h, Freed(h.(buckets := h.buckets[i := Return(h.buckets[i], p, ptr)])), ptr)
  {
    ReturnedLaw(h, i, p, ptr);
    hide Good;
    hide Return;
    hide Live;
    hide Reserved;
    hide LargePage;
    hide SmallLive;
    hide Harmless;
    hide PageOf;
  }

  lemma SlabUnchanged(h: Heap, ptr: nat)
    requires Good(h) && !UserBlock(h, ptr) && !Reserved(h, ptr) && SlabPage(h.buckets, PageOf(ptr))
    ensures Frees(h, Freed(h), ptr)
  {
    hide Good;
    hide UserBlock;
    hide Reserved;
    hide SlabPage;
    assert h.(foreign := h.foreign) == h;
  }

  lemma SmallBlocks(h: Heap, ptr: nat)
    requires Good(h) && !PageAligned(ptr)
    ensures !LargePage(h, ptr) && (UserBlock(h, ptr) || Reserved(h, ptr) <==> SmallLive(h.buckets, ptr))
  {
    LargeAligned(h, ptr);
    hide SmallLive;
    hide LargePage;
  }

  /** In a slab `kfree` frees the block at the address, a caller's or a reserved one,
      and does nothing for any other address. */
  lemma KfreeSlabLaw(h: Heap, ptr: nat)
    requires Good(h) && !PageAligned(ptr) && ptr < ADDRESSES && SlabPage(h.buckets, PageOf(ptr))
    ensures Frees(h, KfreeSmall(h, ptr), ptr)
  {
    SmallBlocks(h, ptr);
    SlabOnLaw(h.buckets, PageOf(ptr));
    assert BucketsOk(h.buckets);
    hide KfreeSmall;
    hide Good;
    hide BucketsOk;
    hide Return;
    hide Live;
    hide Holds;
    hide Reserved;
    hide UserBlock;
    hide LargePage;
    hide SmallLive;
    hide SlabPage;
    hide SlabOn;
    hide Frees;
    hide PageOf;
    hide PageAligned;
    var i, p := KfreeSmallIs(h, ptr);
    LiveInOwner(h.buckets, i, p, ptr);
    if Live(h.buckets[i], ptr) {
      SlabReturned(h, i, p, ptr);
    } else {
      Unreturned(h, i, p, ptr);
      SlabUnchanged(h, ptr);
    }
  }

  /** What `kfree` does to the blocks: a caller's block is freed and nothing else
      changes; a record or list head is given up, after which the heap is no
      longer sound; for other addresses no block changes. */
  ghost predicate Frees(h: Heap, r: Freed, ptr: nat) {
    if UserBlock(h, ptr) then
      && r.Freed? && Good(r.heap) && r.heap.foreign == h.foreign
      && forall q :: UserBlock(r.heap, q) <==> UserBlock(h, q) && q != ptr
    else if Reserved(h, ptr) then
      && r.Freed? && !Good(r.heap) && r.heap.foreign == h.foreign
      && forall q :: UserBlock(r.heap, q) <==> UserBlock(h, q)
    else
      && (r == Freed(h) <==> Harmless(h, ptr))
      && (r.Freed? ==> r.heap == h.(foreign := r.heap.foreign) && Good(r.heap))
  }

  lemma FreesGood(h: Heap, r: Freed, ptr: nat)
    requires Frees(h, r, ptr)
    ensures UserBlock(h, ptr) || Reserved(h, ptr) ==> r.Freed?
    ensures r.Freed? ==> (Good(r.heap) <==> UserBlock(h, ptr) || !Reserved(h, ptr))
  {
    hide Good;
    hide UserBlock;
    hide Reserved;
    hide Harmless;
  }

  /** What other memory holds does not matter for the heap to be sound. */
  lemma ForeignFree(h: Heap, foreign: nat -> Slab)
    ensures var g := h.(foreign := foreign);
      (Good(g) <==> Good(h)) && forall q :: UserBlock(g, q) <==> UserBlock(h, q)
  {
    var g := h.(foreign := foreign);
    SameRows(h, g);
    SameRows(g, h);
    hide BucketsOk;
    hide SmallLive;
    hide SlabPage;
    hide LargeOk;
    hide LargePage;
    hide Reserved;
    hide Row;
    assert forall k: nat :: Row(g, k) == Row(h, k);
    assert MetasApart(g) <==> MetasApart(h);
  }

  /** Unless it runs wild, `kfree` leaves a sound heap exactly when it is not given
      a record or a list head, and an address that is no block of a caller changes nothing exactly
      when it is harmless. */
  lemma KfreeLaw(h: Heap, ptr: nat)
    requires Good(h) && ptr < ADDRESSES
    ensures Frees(h, Kfree(h, ptr), ptr)
  {
    ZeroAligned();
    if PageAligned(ptr) {
      PageNotLive(h, ptr);
      KfreeLargeLaw(h, ptr);
      LargeAligned(h, ptr);
      assert h.(foreign := h.foreign) == h;
    } else if SlabPage(h.buckets, PageOf(ptr)) {
      KfreeSlabLaw(h, ptr);
    } else {
      KfreeForeignLaw(h, ptr);
      NoSlabNoBlock(h.buckets, ptr);
      LargeAligned(h, ptr);
      if KfreeSmall(h, ptr).Freed? { ForeignFree(h, KfreeSmall(h, ptr).heap.foreign); }
    }
    hide Good;
    hide PageAligned;
    hide KfreeSmall;
    hide SlabPage;
    hide SmallLive;
    hide LargePage;
    hide Reserved;
  }

  /** Freeing what `kalloc` has just handed out leaves the callers' blocks as they
      were before, whatever has been written to memory in between. */
  lemma KallocKfree(h: Heap, size: nat, foreign: nat -> Slab)
    requires Good(h) && |h.supply| >= 2 && size < ADDRESSES && Kalloc(h, size).Done?
    ensures var g, ptr := Kalloc(h, size).heap.(foreign := foreign), Kalloc(h, size).ptr;
      var r := Kfree(g, ptr);
      r.Freed? && Good(r.heap) && r.heap.foreign == foreign && forall q :: UserBlock(r.heap, q) <==> UserBlock(h, q)
  {
    var g, ptr := Kalloc(h, size).heap.(foreign := foreign), Kalloc(h, size).ptr;
    KallocLaw(h, size);
    ForeignFree(Kalloc(h, size).heap, foreign);
    if ptr != 0 {
      BlockBounds(g, ptr);
      hide Good;
      hide Kalloc;
      hide UserBlock;
      KfreeLaw(g, ptr);
    }
  }

  lemma BlockBounds(h: Heap, ptr: nat)
    requires Good(h) && UserBlock(h, ptr)
    ensures ptr < ADDRESSES && !Reserved(h, ptr)
  {
    LargeAligned(h, ptr);
    if LargePage(h, ptr) {
      PageNotLive(h, ptr);
    } else {
      var i :| 0 <= i < |h.buckets| && Live(h.buckets[i], ptr);
      LivePage(h.buckets[i], ptr);
    }
  }

  // ---------- blocks do not overlap ----------

  /** The page a block of a caller lies in, and where the block ends. */
  lemma BlockEnd(h: Heap, ptr: nat)
    requires Good(h)
    ensures forall i | 0 <= i < |h.buckets| && Live(h.buckets[i], ptr) ::
      ptr + ItemSizeFromIndex(i) <= PageOf(ptr) + PAGE_SIZE
    ensures LargePage(h, ptr) ==> PageOf(ptr) == ptr
  {
    forall i | 0 <= i < |h.buckets| && Live(h.buckets[i], ptr)
      ensures ptr + ItemSizeFromIndex(i) <= PageOf(ptr) + PAGE_SIZE
    {
      var s := Holder(h.buckets[i], ptr);
    }
    LargeAligned(h, ptr);
  }

  lemma SlabNotLarge(h: Heap, i: nat, page: nat)
    requires Good(h) && i < |h.buckets| && HasPage(h.buckets[i], page)
    ensures !LargePage(h, page)
  {
    assert SlabPage(h.buckets, page);
  }

  lemma SamePageSameBucket(h: Heap, i: nat, ptr: nat, q: nat)
    requires Good(h) && i < |h.buckets| && Live(h.buckets[i], ptr) && UserBlock(h, q) && PageOf(q) == PageOf(ptr)
    ensures Live(h.buckets[i], q)
  {
    LivePage(h.buckets[i], ptr);
    SlabNotLarge(h, i, PageOf(ptr));
    LargeAligned(h, q);
    var j :| 0 <= j < |h.buckets| && Live(h.buckets[j], q);
    LivePage(h.buckets[j], q);
  }

  lemma PagesApart(p: nat, q: nat)
    requires p < q && PageOf(p) != PageOf(q)
    ensures PageOf(p) + PAGE_SIZE <= PageOf(q) <= q
  {
  }

  /** A small block of a caller ends before the next block of a caller begins. */
  lemma SmallApart(h: Heap, i: nat, ptr: nat, q: nat)
    requires Good(h) && i < |h.buckets| && Live(h.buckets[i], ptr) && UserBlock(h, q) && ptr < q
    ensures ptr + ItemSizeFromIndex(i) <= q
  {
    BlockEnd(h, ptr);
    if PageOf(q) == PageOf(ptr) {
      SamePageSameBucket(h, i, ptr, q);
      LiveApart(h.buckets[i], ptr, q);
    } else {
      PagesApart(ptr, q);
    }
    hide Live;
    hide UserBlock;
  }

  lemma SmallPageNotLarge(h: Heap, q: nat)
    requires Good(h) && SmallLive(h.buckets, q)
    ensures !LargePage(h, PageOf(q))
  {
    var j :| 0 <= j < |h.buckets| && Live(h.buckets[j], q);
    LivePage(h.buckets[j], q);
    SlabNotLarge(h, j, PageOf(q));
  }

  /** So does a large one, which fills its page. */
  lemma LargeApart(h: Heap, ptr: nat, q: nat)
    requires Good(h) && LargePage(h, ptr) && UserBlock(h, q) && ptr < q
    ensures ptr + PAGE_SIZE <= q
  {
    BlockEnd(h, ptr);
    BlockEnd(h, q);
    if SmallLive(h.buckets, q) { SmallPageNotLarge(h, q); }
    PagesApart(ptr, q);
  }

  // ---------- a new heap ----------

  function EmptyHeap(supply: seq<nat>, foreign: nat -> Slab): Heap {
    Heap(seq(MAX_BUCKET_INDEX, i requires 0 <= i < MAX_BUCKET_INDEX => Bucket(i, [], [], [])),
         seq(LG_BUCKET_SIZE, i => []), [], [], supply, foreign)
  }

  lemma EmptyBucket(i: nat)
    requires i <= MAX_BUCKET_INDEX
    ensures var b := Bucket(i, [], [], []);
      WellFormed(b) && (forall page :: !HasPage(b, page)) && forall q :: !Live(b, q)
  {
    assert Slabs(Bucket(i, [], [], [])) == multiset{};
  }

  lemma EmptyHeapGood(supply: seq<nat>, foreign: nat -> Slab)
    requires (forall k | 0 <= k < |supply| :: PageAt(supply[k]))
      && forall j, k | 0 <= j < k < |supply| :: supply[j] != supply[k]
    ensures EmptyHeap(supply, foreign).supply == supply
    ensures Good(EmptyHeap(supply, foreign)) && forall ptr :: !UserBlock(EmptyHeap(supply, foreign), ptr)
  {
    var h := EmptyHeap(supply, foreign);
    assert forall k: nat :: Row(h, k) == [];
    forall i | 0 <= i < |h.buckets| { EmptyBucket(i); }
    hide WellFormed;
    hide HasPage;
    hide Live;
    hide Row;
  }

  /** A list head in a small block. */
  function AddHead(h: Heap): (g: Heap)
    requires |h.buckets| == MAX_BUCKET_INDEX && h.supply != []
    ensures |g.buckets| == MAX_BUCKET_INDEX && |g.supply| >= |h.supply| - 1 && |g.heads| == |h.heads| + 1
  {
    var (f, ptr) := KallocSmall(h, LIST_SIZE);
    f.(heads := [ptr] + f.heads)
  }

  function AddHeads(h: Heap, n: nat): (g: Heap)
    requires |h.buckets| == MAX_BUCKET_INDEX && |h.supply| >= n
    ensures |g.buckets| == MAX_BUCKET_INDEX && |g.supply| >= |h.supply| - n && |g.heads| == |h.heads| + n
  {
    if n == 0 then h else AddHead(AddHeads(h, n - 1))
  }

  /** A block set aside for a list head is no longer a caller's. */
  lemma HeadLaw(h: Heap, ptr: nat)
    requires Good(h) && SmallLive(h.buckets, ptr) && !Reserved(h, ptr)
    ensures var g := h.(heads := [ptr] + h.heads);
      Good(g) && forall q :: UserBlock(g, q) <==> UserBlock(h, q) && q != ptr
  {
    var g, k, m := h.(heads := [ptr] + h.heads), |h.large| + 1, Meta(ptr, 0, 0);
    assert Row(g, k) == [m] + Row(h, k) && forall l: nat :: l != k ==> Row(g, l) == Row(h, l);
    PushApart(h, g, k, m);
    PushLarge(h, g, k, m);
    forall p { PushRow(h, g, k, m, p); }
    LargeNotSmall(h, ptr);
    hide Row;
    hide SmallLive;
    hide BucketsOk;
    hide SlabPage;
    hide LargeOk;
    hide LargePage;
    hide MetasApart;
    hide Reserved;
  }

  lemma AddHeadGood(h: Heap)
    requires Good(h) && h.supply != []
    ensures Good(AddHead(h)) && forall q :: UserBlock(AddHead(h), q) <==> UserBlock(h, q)
  {
    assert IndexFromSize(LIST_SIZE) == 0;
    assert KallocSmall(h, LIST_SIZE) == AllocateFrom(h, 0);
    hide Good;
    hide UserBlock;
    hide SmallLive;
    hide Live;
    hide Reserved;
    hide LargePage;
    hide AllocateFrom;
    hide KallocSmall;
    var (g, ptr) := AllocateFrom(h, 0);
    SmallLaw(h, 0);
    UserAdds(h, g, ptr);
    HeadLaw(g, ptr);
  }

  lemma GoodSize(h: Heap)
    requires Good(h)
    ensures |h.buckets| == MAX_BUCKET_INDEX && |h.large| == LG_BUCKET_SIZE
  {
  }

  lemma {:induction false} AddHeadsGood(h: Heap, n: nat)
    requires Good(h) && |h.supply| >= n
    ensures Good(AddHeads(h, n)) && forall q :: UserBlock(AddHeads(h, n), q) <==> UserBlock(h, q)
  {
    hide Good;
    hide UserBlock;
    hide AddHead;
    GoodSize(h);
    if n > 0 {
      AddHeadsGood(h, n - 1);
      AddHeadGood(AddHeads(h, n - 1));
    }
  }

  /** What `InitKalloc` sets up: empty buckets, and a list head in a small block for
      every place of the hash. */
  function NewHeap(supply: seq<nat>, foreign: nat -> Slab): Heap
    requires |supply| >= LG_BUCKET_SIZE
  {
    AddHeads(EmptyHeap(supply, foreign), LG_BUCKET_SIZE)
  }

  /** The new heap is sound, and its list heads are no blocks of callers. */
  lemma NewHeapGood(supply: seq<nat>, foreign: nat -> Slab)
    requires (forall k | 0 <= k < |supply| :: PageAt(supply[k])) && |supply| >= LG_BUCKET_SIZE
      && forall j, k | 0 <= j < k < |supply| :: supply[j] != supply[k]
    ensures var h := NewHeap(supply, foreign);
      Good(h) && |h.heads| == LG_BUCKET_SIZE && (forall ptr :: !UserBlock(h, ptr))
      && forall p | p in h.heads :: Reserved(h, p)
  {
    EmptyHeapGood(supply, foreign);
    var h := NewHeap(supply, foreign);
    forall p | p in h.heads ensures Reserved(h, p) {
      var i :| 0 <= i < |h.heads| && h.heads[i] == p;
      assert Row(h, |h.large| + 1)[i].address == p;
    }
    hide EmptyHeap;
    hide AddHeads;
    hide Good;
    hide UserBlock;
    hide Reserved;
    AddHeadsGood(EmptyHeap(supply, foreign), LG_BUCKET_SIZE);
  }

  /** A request for almost all memory is answered with one page. */
  lemma HugeRequest(h: Heap)
    requires Good(h) && |h.supply| >= 2
    ensures Kalloc(h, 0xFFFF_FFFF).Done? && Kalloc(h, 0xFFFF_FFFF).ptr != 0
      && !HoldsBytes(Kalloc(h, 0xFFFF_FFFF).heap, Kalloc(h, 0xFFFF_FFFF).ptr, 0xFFFF_FFFF)
  {
    hide Good;
    hide Kalloc;
    KallocLaw(h, 0xFFFF_FFFF);
    KallocHoldsSize(h, 0xFFFF_FFFF);
  }

  /** A request of 1921 bytes is never served, though the header file allows
      small blocks of up to 2024. */
  lemma SmallButUnserved(h: Heap)
    requires Good(h) && |h.supply| >= 2
    ensures LARGEST_SERVED == 1920 && MAX_ITEM_SIZE == 2024
    ensures Kalloc(h, 1921) == Done(h, 0)
  {
    hide Good;
    hide Kalloc;
    KallocLaw(h, 1921);
  }

  /** What a page reads like that is filled with the byte 1. */
  function Ones(): Slab {
    Slab(0, 1, 0x101, 0x101, seq(Cells.CELL_COUNT, i => seq(32, k => k % 8 == 0)))
  }

  lemma OnesSlot(page: nat)
    ensures var f := Ones().(address := page);
      && f.bucket < MAX_BUCKET_INDEX && Cells.Marked(f.bits, 0) && !LeadsAstray(f)
      && 0 < ItemCountFromIndex(f.bucket) && ItemAddress(f, f.bucket, 0) == page + 48
      && Unmark(f, 0).freeCount == 0x102
  {
    Cells.MarkedAt(Ones().bits, 0);
  }

  lemma OnesIndex(page: nat)
    requires page + 48 < ADDRESSES && StartsPage(page)
    ensures GetPointerIndex(Ones().(address := page), 1, page + 48) == 0
  {
    var f := Ones().(address := page);
    OnesSlot(page);
    hide Ones;
    hide ItemAddress;
    hide GetPointerIndex;
    hide ItemCountFromIndex;
    PointerIndex(f, 1, page + 48);
  }

  lemma InsidePage(page: nat)
    requires PageAt(page)
    ensures !PageAligned(page + 48) && PageOf(page + 48) == page
  {
  }

  lemma InsideLarge(h: Heap, page: nat)
    requires Good(h) && LargePage(h, page)
    ensures PageAt(page) && !PageAligned(page + 48) && PageOf(page + 48) == page && !SlabPage(h.buckets, page)
    ensures !UserBlock(h, page + 48) && HeaderAt(h, page) == h.foreign(page).(address := page)
  {
    var k: nat, i: nat :| k < |h.large| && i < |Row(h, k)| && Row(h, k)[i].pagePtr == page;
    assert PageAt(page) && !SlabPage(h.buckets, page);
    InsidePage(page);
    hide SlabPage;
    hide SmallLive;
    hide BucketsOk;
    hide LargeOk;
    hide LargePage;
    hide Row;
    hide PagesOk;
    hide MetasOk;
    hide SlabOn;
    hide PageOf;
    hide PageAligned;
    SlabOnLaw(h.buckets, page);
    NoSlabNoBlock(h.buckets, page + 48);
    LargeAligned(h, page + 48);
  }

  /** Freeing an address inside a large block can change the bytes of that block:
      48 bytes into a page of ones the mark and the count of the header that the
      page seems to have are rewritten. */
  lemma ForeignOverwritten(h: Heap, page: nat)
    requires Good(h) && LargePage(h, page) && h.foreign(page).(address := 0) == Ones()
    ensures !UserBlock(h, page + 48)
    ensures var r := Kfree(h, page + 48);
      && r.Freed? && r != Freed(h)
      && Cells.Marked(h.foreign(page).bits, 0) && !Cells.Marked(r.heap.foreign(page).bits, 0)
      && h.foreign(page).freeCount == 0x101 && r.heap.foreign(page).freeCount == 0x102
  {
    var ptr := page + 48;
    InsideLarge(h, page);
    OnesSlot(page);
    OnesIndex(page);
    NoPlace(h.buckets, 1, page);
    var f := HeaderAt(h, page);
    assert f == Ones().(address := page);
    assert Kfree(h, ptr) == ReturnForeign(h, f, ptr);
    hide Kfree;
    hide HeaderAt;
    hide Good;
    hide UserBlock;
    hide LargePage;
    hide PageOf;
    hide GetPointerIndex;
    hide ItemCountFromIndex;
    hide ItemAddress;
  }
}
