/** Slabs of small blocks and the bucket that moves them between its three lists
    (src/sys/include/kernel/kalloc/small_slab.h,
    src/sys/kernel/src/kalloc/small_bucket.cpp), as values. */
module SlabModel {

  import Powers
  import opened BitmapCells
  import opened SmallItemHash
  import opened Shared

  const ADDRESSES: nat := 0x1_0000_0000
  const NO_BUCKET: nat := 0xFF
  const INVALID_ITEM_INDEX: nat := 0xFFFF_FFFF
  const EMPTY_MAX: nat := 4

  // ---------- slabs ----------

  /** The header of the page at `address`. */
  datatype Slab = Slab(address: nat, bucket: nat, itemSize: nat, freeCount: nat, bits: Bitmap) {

    function ItemStart(): nat { address + SLAB_SIZE }
  }

  function NewSlab(page: nat): Slab { Slab(page, NO_BUCKET, 0, 0, Blank()) }

  function Setup(s: Slab, bucket: nat): Slab {
    s.(bucket := bucket, itemSize := ItemSizeFromIndex(bucket), freeCount := ItemCountFromIndex(bucket))
  }

  function Reset(s: Slab): Slab { s.(bucket := NO_BUCKET, itemSize := 0, freeCount := 0) }

  /** The count is a 16-bit word. */
  function Mark(s: Slab, idx: nat): Slab {
    s.(bits := Set(s.bits, idx), freeCount := (s.freeCount + 0xFFFF) % 0x1_0000)
  }

  function Unmark(s: Slab, idx: nat): Slab {
    s.(bits := Clear(s.bits, idx), freeCount := (s.freeCount + 1) % 0x1_0000)
  }

  function ItemAddress(s: Slab, bucket: nat, idx: nat): nat {
    s.ItemStart() + idx * ItemSizeFromIndex(bucket)
  }

  /** The slot of a pointer; the subtraction wraps around. */
  function GetPointerIndex(s: Slab, bucket: nat, ptr: nat): nat {
    var addr := (ptr - s.ItemStart()) % ADDRESSES;
    if addr % ItemSizeFromIndex(bucket) != 0 then INVALID_ITEM_INDEX
    else
      var result := addr / ItemSizeFromIndex(bucket);
      if result >= ItemCountFromIndex(bucket) then INVALID_ITEM_INDEX else result
  }

  /** The slots in use. */
  ghost function Slots(m: Bitmap): set<nat> {
    set i: nat | i < BIT_COUNT && Marked(m, i)
  }

  // ---------- buckets ----------

  datatype Kind = Partial | Full | Empty

  datatype Place = Place(kind: Kind, i: nat)

  datatype Bucket = Bucket(index: nat, partial: seq<Slab>, full: seq<Slab>, empty: seq<Slab>)

  function Line(b: Bucket, kind: Kind): seq<Slab> {
    match kind
    case Partial => b.partial
    case Full => b.full
    case Empty => b.empty
  }

  predicate In(b: Bucket, p: Place) { p.i < |Line(b, p.kind)| }

  function SlabAt(b: Bucket, p: Place): Slab
    requires In(b, p)
  {
    Line(b, p.kind)[p.i]
  }

  /** A slab set up for the bucket, with a free slot. */
  ghost predicate Usable(index: nat, s: Slab) {
    && s.bucket == index && s.itemSize == ItemSizeFromIndex(index)
    && (forall i :: i in Slots(s.bits) ==> i < ItemCountFromIndex(index))
    && s.freeCount == ItemCountFromIndex(index) - |Slots(s.bits)| > 0
  }

  /** The marked slots of a slab fix its list. */
  ghost predicate Fits(index: nat, kind: Kind, s: Slab) {
    match kind
    case Partial => Usable(index, s) && Slots(s.bits) != {}
    case Full =>
      && s.bucket == index && s.itemSize == ItemSizeFromIndex(index) && s.freeCount == 0
      && forall i: nat :: Marked(s.bits, i) <==> i < ItemCountFromIndex(index)
    case Empty =>
      && s.bucket == NO_BUCKET && s.itemSize == 0 && s.freeCount == 0
      && forall i: nat :: !Marked(s.bits, i)
  }

  /** `address` is the start of a page of the address space. */
  predicate StartsPage(address: nat) {
    address % PAGE_SIZE == 0 && address + PAGE_SIZE <= ADDRESSES
  }

  predicate PageAt(address: nat) {
    address % PAGE_SIZE == 0 && 0 < address && address + PAGE_SIZE < ADDRESSES
  }

  /** All slabs of the bucket, in whatever list. */
  ghost function Slabs(b: Bucket): multiset<Slab> {
    multiset(b.partial) + multiset(b.full) + multiset(b.empty)
  }

  /** The slabs lie on different pages, and none is listed twice. */
  ghost predicate Apart(t: multiset<Slab>) {
    && (forall s | s in t :: t[s] == 1)
    && (forall r, s | r in t && s in t && r.address == s.address :: r == s)
  }

  /** Every slab of the list belongs there by its marks. */
  ghost predicate AllFit(index: nat, kind: Kind, l: seq<Slab>) {
    forall s | s in l :: PageAt(s.address) && Fits(index, kind, s)
  }

  ghost predicate WellFormed(b: Bucket) {
    && b.index <= MAX_BUCKET_INDEX && Apart(Slabs(b))
    && AllFit(b.index, Partial, b.partial) && AllFit(b.index, Full, b.full) && AllFit(b.index, Empty, b.empty)
  }

  /** While an allocation is under way the first partial slab may be unused. */
  ghost predicate Ready(b: Bucket) {
    && b.index <= MAX_BUCKET_INDEX && Apart(Slabs(b)) && b.partial != []
    && PageAt(b.partial[0].address) && Usable(b.index, b.partial[0])
    && AllFit(b.index, Partial, b.partial[1..]) && AllFit(b.index, Full, b.full) && AllFit(b.index, Empty, b.empty)
  }

  // ---------- live blocks ----------

  ghost predicate Holds(s: Slab, index: nat, ptr: nat) {
    exists i: nat :: Marked(s.bits, i) && ptr == ItemAddress(s, index, i)
  }

  ghost predicate Held(t: multiset<Slab>, index: nat, ptr: nat) {
    exists s :: s in t && Holds(s, index, ptr)
  }

  /** `ptr` has been handed out and not yet returned. */
  ghost predicate Live(b: Bucket, ptr: nat) {
    Held(Slabs(b), b.index, ptr)
  }

  ghost predicate FreshPage(b: Bucket, page: nat) {
    PageAt(page) && forall s | s in Slabs(b) :: s.address != page
  }

  // ---------- operations ----------

  function GetAvailableSlab(b: Bucket, page: nat): (r: Bucket)
    ensures r.partial != []
  {
    if b.partial != [] then b
    else if b.empty != [] then b.(partial := [Setup(b.empty[0], b.index)], empty := b.empty[1..])
    else b.(partial := [Setup(NewSlab(page), b.index)])
  }

  function TakeSlot(b: Bucket): (r: (Bucket, nat))
    requires b.partial != []
  {
    var slab := b.partial[0];
    var idx := FirstClearFrom(slab.bits, 0);
    var marked := Mark(slab, idx);
    var ptr := ItemAddress(marked, b.index, idx);
    if marked.freeCount == 0 then (b.(partial := b.partial[1..], full := [marked] + b.full), ptr)
    else (b.(partial := [marked] + b.partial[1..]), ptr)
  }

  function Allocate(b: Bucket, page: nat): (Bucket, nat) {
    TakeSlot(GetAvailableSlab(b, page))
  }

  function Without(l: seq<Slab>, i: nat): seq<Slab>
    requires i < |l|
  {
    l[..i] + l[i + 1..]
  }

  /** `Return` of a pointer to the slab at `p`. */
  function Return(b: Bucket, p: Place, ptr: nat): Bucket
    requires In(b, p)
  {
    var slab := SlabAt(b, p);
    var idx := GetPointerIndex(slab, b.index, ptr);
    if idx == INVALID_ITEM_INDEX || !Marked(slab.bits, idx) then b
    else
      MoveOn(b, p, Unmark(slab, idx))
  }

  /** Where a slab goes that has just got a slot back. */
  function MoveOn(b: Bucket, p: Place, cleared: Slab): Bucket
    requires In(b, p)
  {
    var lastCount := SlabAt(b, p).freeCount;
    match p.kind
    case Full => b.(full := Without(b.full, p.i), partial := b.partial + [cleared])
    case Partial =>
      if lastCount == ItemCountFromIndex(b.index) - 1 then
        b.(partial := Without(b.partial, p.i), empty := b.empty + [Reset(cleared)])
      else b.(partial := b.partial[p.i := cleared])
    case Empty => b
  }

  lemma WithoutUpdate(l: seq<Slab>, i: nat, s: Slab)
    requires i < |l|
    ensures Without(l[i := s], i) == Without(l, i)
    ensures i == 0 ==> Without(l, i) == l[1..] && l[i := s] == [s] + l[1..]
  {
  }

  /** The empty slabs that stay. */
  function Collect(b: Bucket): Bucket {
    b.(empty := if |b.empty| > EMPTY_MAX then b.empty[..EMPTY_MAX] else b.empty)
  }

  // ---------- slots ----------

  ghost function SlotsUpTo(m: Bitmap, n: nat): set<nat> {
    set i: nat | i < n && Marked(m, i)
  }

  lemma {:induction false} SlotsBelow(m: Bitmap, n: nat)
    ensures |SlotsUpTo(m, n)| <= n
    ensures |SlotsUpTo(m, n)| == n <==> forall i: nat :: i < n ==> Marked(m, i)
  {
    hide Marked;
    if n > 0 {
      SlotsBelow(m, n - 1);
      if Marked(m, n - 1) {
        assert SlotsUpTo(m, n) == SlotsUpTo(m, n - 1) + {n - 1};
      } else {
        assert SlotsUpTo(m, n) == SlotsUpTo(m, n - 1);
      }
    } else {
      assert SlotsUpTo(m, 0) == {};
    }
  }

  lemma SlotsAll(index: nat, m: Bitmap)
    requires index <= MAX_BUCKET_INDEX && forall i :: i in Slots(m) ==> i < ItemCountFromIndex(index)
    ensures |Slots(m)| == ItemCountFromIndex(index) <==>
      forall i: nat :: Marked(m, i) <==> i < ItemCountFromIndex(index)
  {
    var n := ItemCountFromIndex(index);
    ItemCounts(index);
    SlotsBelow(m, n);
    assert Slots(m) == SlotsUpTo(m, n);
    assert forall i: nat :: Marked(m, i) ==> i in Slots(m);
  }

  lemma SlotSet(m: Bitmap, i: nat)
    requires i < BIT_COUNT
    ensures !Marked(m, i) ==> Slots(Set(m, i)) == Slots(m) + {i} && |Slots(Set(m, i))| == |Slots(m)| + 1
    ensures Marked(m, i) ==> Slots(Clear(m, i)) == Slots(m) - {i} && |Slots(Clear(m, i))| == |Slots(m)| - 1
  {
    assert !Marked(m, i) ==> Slots(Set(m, i)) == Slots(m) + {i};
    assert Marked(m, i) ==> i in Slots(m) && Slots(Clear(m, i)) == Slots(m) - {i};
  }

  /** A usable slab has a first free slot, inside its items. */
  lemma FirstFreeSlot(index: nat, s: Slab)
    requires index <= MAX_BUCKET_INDEX && Usable(index, s)
    ensures FirstClearFrom(s.bits, 0) < ItemCountFromIndex(index) && !Marked(s.bits, FirstClearFrom(s.bits, 0))
  {
    var n := ItemCountFromIndex(index);
    ItemCounts(index);
    SlotsAll(index, s.bits);
    var j: nat :| Marked(s.bits, j) != (j < n);
    assert Marked(s.bits, j) ==> j in Slots(s.bits);
    assert !Marked(s.bits, j) && FirstClearFrom(s.bits, 0) <= j;
  }

  // ---------- addresses ----------

  /** Items of one page lie behind its header, inside the page, one after the
      other. */
  lemma ItemBounds(s: Slab, index: nat, i: nat)
    requires index <= MAX_BUCKET_INDEX && StartsPage(s.address) && i < ItemCountFromIndex(index)
    ensures var ptr := ItemAddress(s, index, i);
      && s.address + SLAB_SIZE <= ptr && ptr + ItemSizeFromIndex(index) <= s.address + PAGE_SIZE
      && ptr - ptr % PAGE_SIZE == s.address && ptr % PAGE_SIZE != 0
  {
    hide ItemSizeFromIndex;
    hide ItemCountFromIndex;
    var size, n := ItemSizeFromIndex(index), ItemCountFromIndex(index);
    ItemCounts(index);
    LastItem(i, n, size);
    var off := SLAB_SIZE + i * size;
    Offset(s.address, off);
    assert ItemAddress(s, index, i) == s.address + off;
  }

  lemma LastItem(i: nat, n: nat, size: nat)
    requires i < n && n * size <= MAX_PAGE_SPACE && size > 0
    ensures SLAB_SIZE + i * size + size <= PAGE_SIZE
  {
    Times(i + 1, n, size);
    assert (i + 1) * size == i * size + size;
  }

  lemma Times(a: nat, b: nat, c: nat)
    requires a <= b
    ensures a * c <= b * c
  {
  }

  lemma Offset(address: nat, off: nat)
    requires address % PAGE_SIZE == 0 && off < PAGE_SIZE
    ensures (address + off) % PAGE_SIZE == off
  {
    Powers.DivIs(address + off, PAGE_SIZE, address / PAGE_SIZE, off);
  }

  lemma ItemsApart(s: Slab, index: nat, i: nat, j: nat)
    requires i < j
    ensures ItemAddress(s, index, i) + ItemSizeFromIndex(index) <= ItemAddress(s, index, j)
  {
    hide ItemSizeFromIndex;
    hide ItemCountFromIndex;
    var size := ItemSizeFromIndex(index);
    Times(i + 1, j, size);
    assert (i + 1) * size == i * size + size;
  }

  /** The slot of a pointer is found exactly for the addresses of the items. */
  lemma PointerIndex(s: Slab, index: nat, ptr: nat)
    requires index <= MAX_BUCKET_INDEX && StartsPage(s.address) && ptr < ADDRESSES
    ensures var idx := GetPointerIndex(s, index, ptr);
      && (idx == INVALID_ITEM_INDEX || (idx < ItemCountFromIndex(index) && ptr == ItemAddress(s, index, idx)))
      && forall i: nat :: i < ItemCountFromIndex(index) && ptr == ItemAddress(s, index, i) ==> idx == i
  {
    hide ItemSizeFromIndex;
    hide ItemCountFromIndex;
    var size, n := ItemSizeFromIndex(index), ItemCountFromIndex(index);
    var addr := (ptr - s.ItemStart()) % ADDRESSES;
    ItemCounts(index);
    Division(addr, size);
    var idx := addr / size;
    if addr % size == 0 && idx < n {
      ItemBounds(s, index, idx);
      WrapsTo(ptr, s.ItemStart(), addr);
    }
    forall i: nat | i < n && ptr == ItemAddress(s, index, i) ensures GetPointerIndex(s, index, ptr) == i {
      ItemBounds(s, index, i);
      assert addr == i * size;
      Powers.MultipleOf(i, size);
    }
  }

  lemma Division(a: nat, b: nat)
    requires b > 0
    ensures a % b == 0 ==> a == (a / b) * b
  {
  }

  lemma WrapsTo(ptr: nat, start: nat, addr: nat)
    requires ptr < ADDRESSES && start < ADDRESSES && addr == (ptr - start) % ADDRESSES && start + addr < ADDRESSES
    ensures ptr == start + addr
  {
    assert addr == if ptr < start then ptr - start + ADDRESSES else ptr - start;
  }

  // ---------- slabs changing lists ----------

  lemma ReplaceApart(t: multiset<Slab>, s: Slab, m: Slab)
    requires Apart(t) && s in t && m.address == s.address
    ensures Apart(t - multiset{s} + multiset{m})
  {
    var u := t - multiset{s};
    assert forall x | x in u :: x in t && x != s;
  }

  lemma ReplaceHeld(t: multiset<Slab>, s: Slab, m: Slab, index: nat, ptr: nat)
    requires Apart(t) && s in t
    ensures Held(t - multiset{s} + multiset{m}, index, ptr) <==>
      Held(t - multiset{s}, index, ptr) || Holds(m, index, ptr)
    ensures Held(t, index, ptr) <==> Held(t - multiset{s}, index, ptr) || Holds(s, index, ptr)
  {
    hide Holds;
    var u := t - multiset{s};
    assert forall x | x in u + multiset{m} :: x in u || x == m;
    assert m in u + multiset{m};
    assert forall x | x in t :: x in u || x == s;
  }

  lemma HeadTail(l: seq<Slab>)
    requires l != []
    ensures multiset(l[1..]) == multiset(l) - multiset{l[0]}
    ensures l[0] in multiset(l) && forall s | s in l[1..] :: s in l
  {
    assert l == [l[0]] + l[1..];
  }

  lemma RemovedAt(l: seq<Slab>, i: nat)
    requires i < |l|
    ensures multiset(Without(l, i)) == multiset(l) - multiset{l[i]}
    ensures l[i] in multiset(l) && forall s | s in Without(l, i) :: s in l
  {
    assert l == l[..i] + [l[i]] + l[i + 1..];
  }

  // ---------- a slab with a free slot ----------

  lemma UsableSetup(index: nat, s: Slab)
    requires index <= MAX_BUCKET_INDEX && forall i: nat :: !Marked(s.bits, i)
    ensures Usable(index, Setup(s, index)) && forall ptr :: !Holds(Setup(s, index), index, ptr) && !Holds(s, index, ptr)
  {
    ItemCounts(index);
    assert Slots(s.bits) == {};
  }

  lemma AvailableEmpty(b: Bucket, page: nat)
    requires WellFormed(b) && b.partial == [] && b.empty != []
    ensures var c := GetAvailableSlab(b, page); Ready(c) && forall ptr :: Live(c, ptr) <==> Live(b, ptr)
  {
    var c, e := GetAvailableSlab(b, page), b.empty[0];
    var n := c.partial[0];
    HeadTail(b.empty);
    assert e in b.empty;
    UsableSetup(b.index, e);
    assert Slabs(c) == Slabs(b) - multiset{e} + multiset{n};
    hide Fits;
    hide Usable;
    hide Holds;
    ReplaceApart(Slabs(b), e, n);
    forall ptr ensures Live(c, ptr) <==> Live(b, ptr) {
      ReplaceHeld(Slabs(b), e, n, b.index, ptr);
    }
  }

  lemma AvailableNew(b: Bucket, page: nat)
    requires WellFormed(b) && FreshPage(b, page) && b.partial == [] && b.empty == []
    ensures var c := GetAvailableSlab(b, page); Ready(c) && forall ptr :: Live(c, ptr) <==> Live(b, ptr)
  {
    var c := GetAvailableSlab(b, page);
    var n := c.partial[0];
    UsableSetup(b.index, NewSlab(page));
    assert Slabs(c) == Slabs(b) + multiset{n};
    hide Fits;
    hide Usable;
    hide Holds;
  }

  /** Finding a slab hands out nothing. */
  lemma AvailableLaw(b: Bucket, page: nat)
    requires WellFormed(b) && FreshPage(b, page)
    ensures Ready(GetAvailableSlab(b, page))
    ensures forall ptr :: Live(GetAvailableSlab(b, page), ptr) <==> Live(b, ptr)
  {
    if b.partial != [] {
      assert b.partial[0] in b.partial;
      assert forall s | s in b.partial[1..] :: s in b.partial;
    } else if b.empty != [] {
      AvailableEmpty(b, page);
    } else {
      AvailableNew(b, page);
    }
  }

  // ---------- taking a slot ----------

  /** A block of the page at `address`, behind the header and inside the page. */
  ghost predicate InPage(address: nat, index: nat, ptr: nat) {
    && ptr % PAGE_SIZE != 0 && ptr - ptr % PAGE_SIZE == address
    && address + SLAB_SIZE <= ptr && ptr + ItemSizeFromIndex(index) <= address + PAGE_SIZE
  }

  ghost predicate SlotsBounded(index: nat, s: Slab) {
    forall i: nat :: Marked(s.bits, i) ==> i < ItemCountFromIndex(index)
  }

  lemma FitsBounded(index: nat, kind: Kind, s: Slab)
    requires Fits(index, kind, s) || Usable(index, s)
    ensures SlotsBounded(index, s)
  {
    forall i: nat | Marked(s.bits, i) ensures i < ItemCountFromIndex(index) {
      if Usable(index, s) { assert i in Slots(s.bits); }
    }
  }

  lemma HeldInPage(s: Slab, index: nat, ptr: nat)
    requires index <= MAX_BUCKET_INDEX && PageAt(s.address) && SlotsBounded(index, s) && Holds(s, index, ptr)
    ensures InPage(s.address, index, ptr)
  {
    var i: nat :| Marked(s.bits, i) && ptr == ItemAddress(s, index, i);
    ItemBounds(s, index, i);
  }

  ghost predicate Bounded(b: Bucket) {
    b.index <= MAX_BUCKET_INDEX && Apart(Slabs(b))
    && forall s | s in Slabs(b) :: PageAt(s.address) && SlotsBounded(b.index, s)
  }

  lemma WellFormedBounded(b: Bucket)
    requires WellFormed(b) || Ready(b)
    ensures Bounded(b)
  {
    forall s | s in Slabs(b) ensures PageAt(s.address) && SlotsBounded(b.index, s) {
      if s in b.full {
        FitsBounded(b.index, Full, s);
      } else if s in b.empty {
        FitsBounded(b.index, Empty, s);
      } else {
        if Ready(b) { assert b.partial == [b.partial[0]] + b.partial[1..]; }
        FitsBounded(b.index, Partial, s);
      }
    }
  }

  /** A block in the page of one slab is not held by another. */
  lemma NotBeside(b: Bucket, s: Slab, ptr: nat)
    requires Bounded(b) && s in Slabs(b) && InPage(s.address, b.index, ptr)
    ensures !Held(Slabs(b) - multiset{s}, b.index, ptr)
  {
    if r :| r in Slabs(b) - multiset{s} && Holds(r, b.index, ptr) {
      HeldInPage(r, b.index, ptr);
    }
  }

  /** No other slot has the address of slot `idx`. */
  lemma OneAddress(s: Slab, index: nat, idx: nat)
    ensures !Marked(s.bits, idx) ==> !Holds(s, index, ItemAddress(s, index, idx))
  {
    if i: nat :| Marked(s.bits, i) && ItemAddress(s, index, idx) == ItemAddress(s, index, i) {
      if i < idx { ItemsApart(s, index, i, idx); }
      if idx < i { ItemsApart(s, index, idx, i); }
    }
  }

  lemma MarkedCount(s: Slab, index: nat, idx: nat)
    requires index <= MAX_BUCKET_INDEX && Usable(index, s) && idx < ItemCountFromIndex(index) && !Marked(s.bits, idx)
    ensures Mark(s, idx).freeCount == s.freeCount - 1 == ItemCountFromIndex(index) - |Slots(Mark(s, idx).bits)|
    ensures Slots(Mark(s, idx).bits) == Slots(s.bits) + {idx}
  {
    ItemCounts(index);
    SlotSet(s.bits, idx);
  }

  lemma MarkedFits(s: Slab, index: nat, idx: nat)
    requires index <= MAX_BUCKET_INDEX && Usable(index, s) && idx < ItemCountFromIndex(index) && !Marked(s.bits, idx)
    ensures var m := Mark(s, idx); Fits(index, if m.freeCount == 0 then Full else Partial, m)
  {
    MarkedCount(s, index, idx);
    var m := Mark(s, idx);
    assert forall i :: i in Slots(m.bits) ==> i < ItemCountFromIndex(index);
    SlotsAll(index, m.bits);
    assert m.bucket == s.bucket && m.itemSize == s.itemSize && idx in Slots(m.bits);
    hide Slots;
    hide Mark;
    hide ItemCountFromIndex;
    hide ItemSizeFromIndex;
  }

  lemma MarkedHolds(s: Slab, index: nat, idx: nat, q: nat)
    requires idx < BIT_COUNT
    ensures Holds(Mark(s, idx), index, q) <==> Holds(s, index, q) || q == ItemAddress(s, index, idx)
  {
    var m := Mark(s, idx);
    if i: nat :| Marked(s.bits, i) && q == ItemAddress(s, index, i) {
      assert Marked(m.bits, i) && q == ItemAddress(m, index, i);
    }
    if q == ItemAddress(s, index, idx) { assert Marked(m.bits, idx) && q == ItemAddress(m, index, idx); }
    if i: nat :| Marked(m.bits, i) && q == ItemAddress(m, index, i) {
      assert q == ItemAddress(s, index, i);
    }
  }

  lemma MarkedSlab(s: Slab, index: nat)
    requires index <= MAX_BUCKET_INDEX && PageAt(s.address) && Usable(index, s)
    ensures var idx := FirstClearFrom(s.bits, 0);
      var m, ptr := Mark(s, idx), ItemAddress(s, index, idx);
      && Fits(index, if m.freeCount == 0 then Full else Partial, m)
      && !Holds(s, index, ptr) && (forall q :: Holds(m, index, q) <==> Holds(s, index, q) || q == ptr)
      && InPage(s.address, index, ptr)
  {
    var idx := FirstClearFrom(s.bits, 0);
    FirstFreeSlot(index, s);
    ItemCounts(index);
    MarkedFits(s, index, idx);
    ItemBounds(s, index, idx);
    forall q {
      MarkedHolds(s, index, idx, q);
    }
    OneAddress(s, index, idx);
  }

  lemma TakeSlabs(b: Bucket)
    requires b.partial != []
    ensures var c, s := TakeSlot(b).0, b.partial[0];
      Slabs(c) == Slabs(b) - multiset{s} + multiset{Mark(s, FirstClearFrom(s.bits, 0))}
  {
    hide Mark;
    HeadTail(b.partial);
  }

  lemma AllFitCons(index: nat, kind: Kind, m: Slab, l: seq<Slab>)
    requires PageAt(m.address) && Fits(index, kind, m) && AllFit(index, kind, l)
    ensures AllFit(index, kind, [m] + l) && AllFit(index, kind, l + [m])
  {
  }

  /** The slab changes its list by its marks alone. */
  lemma TakeMoves(b: Bucket)
    requires Ready(b)
    ensures WellFormed(TakeSlot(b).0) && TakeSlot(b).0.index == b.index
  {
    var s := b.partial[0];
    var m := Mark(s, FirstClearFrom(s.bits, 0));
    MarkedSlab(s, b.index);
    TakeSlabs(b);
    HeadTail(b.partial);
    ReplaceApart(Slabs(b), s, m);
    hide Fits;
    hide Usable;
    hide Apart;
    hide Slabs;
    if m.freeCount == 0 {
      AllFitCons(b.index, Full, m, b.full);
    } else {
      AllFitCons(b.index, Partial, m, b.partial[1..]);
    }
    hide AllFit;
  }

  /** The block comes from a slot that was free, and nothing else changes hands. */
  lemma TakeLaw(b: Bucket)
    requires Ready(b)
    ensures var (c, ptr) := TakeSlot(b);
      && WellFormed(c) && c.index == b.index
      && !Live(b, ptr) && (forall q :: Live(c, q) <==> Live(b, q) || q == ptr)
      && InPage(b.partial[0].address, b.index, ptr)
  {
    var s := b.partial[0];
    var m := Mark(s, FirstClearFrom(s.bits, 0));
    var (c, ptr) := TakeSlot(b);
    assert ptr == ItemAddress(s, b.index, FirstClearFrom(s.bits, 0));
    TakeMoves(b);
    TakeSlabs(b);
    MarkedSlab(s, b.index);
    WellFormedBounded(b);
    NotBeside(b, s, ptr);
    HeadTail(b.partial);
    hide Fits;
    hide Usable;
    hide Holds;
    hide InPage;
    hide TakeSlot;
    hide Mark;
    forall q ensures Live(c, q) <==> Live(b, q) || q == ptr {
      ReplaceHeld(Slabs(b), s, m, b.index, q);
    }
    ReplaceHeld(Slabs(b), s, m, b.index, ptr);
  }

  /** A block handed out was not in use, does not overlap one in use, and lies in
      the page of a slab of the bucket; all else stays in use as it was. */
  lemma AllocateLaw(b: Bucket, page: nat)
    requires WellFormed(b) && FreshPage(b, page)
    ensures var (c, ptr) := Allocate(b, page);
      && WellFormed(c) && c.index == b.index
      && !Live(b, ptr) && (forall q :: Live(c, q) <==> Live(b, q) || q == ptr)
      && InPage(GetAvailableSlab(b, page).partial[0].address, b.index, ptr)
  {
    AvailableLaw(b, page);
    TakeLaw(GetAvailableSlab(b, page));
  }

  /** Where slot `i` of the page at `start` is. */
  function SlotAt(start: nat, index: nat, i: nat): nat { start + 48 + i * ItemSizeFromIndex(index) }

  /** The page a block is taken from: the first partial slab, the first empty one if
      there is none, and the new page only if there is none of those either. */
  function Source(b: Bucket, page: nat): nat {
    if b.partial != [] then b.partial[0].address else if b.empty != [] then b.empty[0].address else page
  }

  lemma AvailableAt(b: Bucket, page: nat)
    requires WellFormed(b) && FreshPage(b, page)
    ensures var s := GetAvailableSlab(b, page).partial[0];
      && s.address == Source(b, page) && PageAt(s.address) && Usable(b.index, s)
      && GetAvailableSlab(b, page).index == b.index
      && (b.partial == [] ==> !Marked(s.bits, 0))
      && (forall i: nat :: Marked(s.bits, i) ==> Live(b, ItemAddress(s, b.index, i)))
  {
    var a := GetAvailableSlab(b, page);
    AvailableLaw(b, page);
    var s := a.partial[0];
    if b.partial == [] && b.empty != [] { assert b.empty[0] in b.empty; }
    assert s in Slabs(a);
    forall i: nat | Marked(s.bits, i) ensures Live(b, ItemAddress(s, b.index, i)) {
      assert Holds(s, a.index, ItemAddress(s, b.index, i));
      assert Live(a, ItemAddress(s, b.index, i));
    }
  }

  /** Where a block comes from: the lowest slot of that page that is free. */
  lemma AllocateWhere(b: Bucket, page: nat)
    requires WellFormed(b) && FreshPage(b, page)
    ensures var ptr, start := Allocate(b, page).1, Source(b, page);
      && ptr - ptr % 4096 == start && (b.partial == [] ==> ptr == start + 48)
      && forall i: nat :: SlotAt(start, b.index, i) < ptr ==> Live(b, SlotAt(start, b.index, i))
  {
    hide WellFormed;
    hide Live;
    hide FreshPage;
    var a := GetAvailableSlab(b, page);
    var s := a.partial[0];
    AvailableAt(b, page);
    IndexBound(b);
    FirstFreeSlot(b.index, s);
    var idx, ptr := FirstClearFrom(s.bits, 0), Allocate(b, page).1;
    assert ptr == ItemAddress(s, b.index, idx);
    ItemBounds(s, b.index, idx);
    hide Allocate;
    hide GetAvailableSlab;
    hide Usable;
    hide ItemSizeFromIndex;
    forall i: nat | SlotAt(s.address, b.index, i) < ptr ensures Live(b, SlotAt(s.address, b.index, i)) {
      if i >= idx { Times(idx, i, ItemSizeFromIndex(b.index)); }
      assert i < BIT_COUNT;
      assert Marked(s.bits, i) && SlotAt(s.address, b.index, i) == ItemAddress(s, b.index, i);
    }
  }

  lemma IndexBound(b: Bucket)
    requires WellFormed(b)
    ensures b.index <= MAX_BUCKET_INDEX
  {
  }

  // ---------- returning a slot ----------

  lemma UnmarkedCount(s: Slab, index: nat, kind: Kind, idx: nat)
    requires index <= MAX_BUCKET_INDEX && kind != Empty && Fits(index, kind, s) && Marked(s.bits, idx)
    ensures idx < ItemCountFromIndex(index) && Unmark(s, idx).freeCount == s.freeCount + 1 <= ItemCountFromIndex(index)
    ensures Slots(Clear(s.bits, idx)) == Slots(s.bits) - {idx}
    ensures s.freeCount + 1 == ItemCountFromIndex(index) - |Slots(Clear(s.bits, idx))|
    ensures kind.Full? ==> s.freeCount + 1 != ItemCountFromIndex(index)
    ensures forall i :: i in Slots(s.bits) ==> i < ItemCountFromIndex(index)
  {
    ItemCounts(index);
    FitsBounded(index, kind, s);
    SlotSet(s.bits, idx);
    assert forall i :: i in Slots(s.bits) ==> i < ItemCountFromIndex(index);
    SlotsAll(index, s.bits);
  }

  lemma UnmarkedSlab(s: Slab, index: nat, kind: Kind, idx: nat)
    requires index <= MAX_BUCKET_INDEX && PageAt(s.address) && kind != Empty && Fits(index, kind, s)
      && Marked(s.bits, idx)
    ensures var m := Unmark(s, idx);
      && m.freeCount == s.freeCount + 1 && m.address == s.address && Reset(m).address == s.address
      && (if m.freeCount == ItemCountFromIndex(index) then Fits(index, Empty, Reset(m)) else Fits(index, Partial, m))
      && (kind.Full? ==> m.freeCount != ItemCountFromIndex(index))
      && (forall q :: Holds(m, index, q) <==> Holds(s, index, q) && q != ItemAddress(s, index, idx))
  {
    var m := Unmark(s, idx);
    UnmarkedCount(s, index, kind, idx);
    assert m.freeCount == ItemCountFromIndex(index) - |Slots(m.bits)|;
    assert forall i: nat :: Marked(m.bits, i) ==> i in Slots(m.bits);
    forall q ensures Holds(m, index, q) <==> Holds(s, index, q) && q != ItemAddress(s, index, idx) {
      if Holds(m, index, q) {
        var i: nat :| Marked(m.bits, i) && q == ItemAddress(m, index, i);
        assert Marked(s.bits, i) && q == ItemAddress(s, index, i);
        if i < idx { ItemsApart(s, index, i, idx); } else { ItemsApart(s, index, idx, i); }
      }
      if Holds(s, index, q) && q != ItemAddress(s, index, idx) {
        var i: nat :| Marked(s.bits, i) && q == ItemAddress(s, index, i);
        assert Marked(m.bits, i) && q == ItemAddress(m, index, i);
      }
    }
  }

  ghost predicate Returnable(b: Bucket, p: Place, ptr: nat) {
    WellFormed(b) && In(b, p) && ptr < ADDRESSES
  }

  lemma PlaceFits(b: Bucket, p: Place)
    requires WellFormed(b) && In(b, p)
    ensures var s := SlabAt(b, p);
      && s in Slabs(b) && PageAt(s.address) && Fits(b.index, p.kind, s)
      && (p.kind.Full? <==> p.kind != Empty && s.freeCount == 0)
  {
    var s := SlabAt(b, p);
    assert s in Line(b, p.kind);
  }

  /** What `Return` does with the slab. */
  ghost function Changed(b: Bucket, p: Place, idx: nat): Slab
    requires In(b, p)
  {
    var m := Unmark(SlabAt(b, p), idx);
    if m.freeCount == ItemCountFromIndex(b.index) && p.kind.Partial? then Reset(m) else m
  }

  lemma AllFitWithout(index: nat, kind: Kind, l: seq<Slab>, i: nat)
    requires AllFit(index, kind, l) && i < |l|
    ensures AllFit(index, kind, Without(l, i))
  {
    RemovedAt(l, i);
  }

  lemma AllFitUpdate(index: nat, kind: Kind, l: seq<Slab>, i: nat, m: Slab)
    requires AllFit(index, kind, l) && i < |l| && PageAt(m.address) && Fits(index, kind, m)
    ensures AllFit(index, kind, l[i := m])
  {
  }

  /** A marked slot of the slab at `p`. */
  ghost predicate Hit(b: Bucket, p: Place, ptr: nat, idx: nat) {
    && Returnable(b, p, ptr) && p.kind != Empty && Marked(SlabAt(b, p).bits, idx)
    && GetPointerIndex(SlabAt(b, p), b.index, ptr) == idx != INVALID_ITEM_INDEX
    && (p.kind.Full? <==> SlabAt(b, p).freeCount == 0)
  }

  ghost predicate Replaced(b: Bucket, c: Bucket, s: Slab, m: Slab) {
    && c.index == b.index && Slabs(c) == Slabs(b) - multiset{s} + multiset{m}
    && AllFit(b.index, Partial, c.partial) && AllFit(b.index, Full, c.full) && AllFit(b.index, Empty, c.empty)
  }

  lemma ReturnFull(b: Bucket, p: Place, ptr: nat, idx: nat)
    requires Hit(b, p, ptr, idx) && p.kind.Full?
    requires var m := Unmark(SlabAt(b, p), idx); PageAt(m.address) && Fits(b.index, Partial, m)
    ensures Replaced(b, Return(b, p, ptr), SlabAt(b, p), Unmark(SlabAt(b, p), idx))
  {
    hide Fits;
    hide AllFit;
    hide Unmark;
    hide ItemSizeFromIndex;
    hide ItemCountFromIndex;
    hide Marked;
    hide GetPointerIndex;
    RemovedAt(b.full, p.i);
    AllFitCons(b.index, Partial, Unmark(SlabAt(b, p), idx), b.partial);
    AllFitWithout(b.index, Full, b.full, p.i);
  }

  lemma ReturnLast(b: Bucket, p: Place, ptr: nat, idx: nat)
    requires Hit(b, p, ptr, idx) && p.kind.Partial? && SlabAt(b, p).freeCount == ItemCountFromIndex(b.index) - 1
    requires var m := Reset(Unmark(SlabAt(b, p), idx)); PageAt(m.address) && Fits(b.index, Empty, m)
    ensures Replaced(b, Return(b, p, ptr), SlabAt(b, p), Reset(Unmark(SlabAt(b, p), idx)))
  {
    hide Fits;
    hide AllFit;
    hide Unmark;
    hide ItemSizeFromIndex;
    hide ItemCountFromIndex;
    hide Marked;
    hide GetPointerIndex;
    RemovedAt(b.partial, p.i);
    AllFitCons(b.index, Empty, Reset(Unmark(SlabAt(b, p), idx)), b.empty);
    AllFitWithout(b.index, Partial, b.partial, p.i);
  }

  lemma ReturnInPlace(b: Bucket, p: Place, ptr: nat, idx: nat)
    requires Hit(b, p, ptr, idx) && p.kind.Partial? && SlabAt(b, p).freeCount != ItemCountFromIndex(b.index) - 1
    requires var m := Unmark(SlabAt(b, p), idx); PageAt(m.address) && Fits(b.index, Partial, m)
    ensures Replaced(b, Return(b, p, ptr), SlabAt(b, p), Unmark(SlabAt(b, p), idx))
  {
    hide Fits;
    hide AllFit;
    hide Unmark;
    hide ItemSizeFromIndex;
    hide ItemCountFromIndex;
    hide Marked;
    hide GetPointerIndex;
    assert SlabAt(b, p) in multiset(b.partial);
    AllFitUpdate(b.index, Partial, b.partial, p.i, Unmark(SlabAt(b, p), idx));
  }

  /** The slab moves on as its marks now demand. */
  lemma ReturnMoves(b: Bucket, p: Place, ptr: nat, idx: nat)
    requires Hit(b, p, ptr, idx)
    ensures Replaced(b, Return(b, p, ptr), SlabAt(b, p), Changed(b, p, idx))
      && Changed(b, p, idx).address == SlabAt(b, p).address
  {
    var s := SlabAt(b, p);
    PlaceFits(b, p);
    UnmarkedSlab(s, b.index, p.kind, idx);
    hide Replaced;
    hide Fits;
    hide Return;
    hide AllFit;
    hide Unmark;
    hide Reset;
    hide Holds;
    hide WellFormed;
    if p.kind.Full? {
      ReturnFull(b, p, ptr, idx);
    } else if s.freeCount == ItemCountFromIndex(b.index) - 1 {
      ReturnLast(b, p, ptr, idx);
    } else {
      ReturnInPlace(b, p, ptr, idx);
    }
  }

  /** Returning a pointer frees exactly the block it names; a pointer that names
      no slot in use of the slab changes nothing. */
  lemma ReturnLaw(b: Bucket, p: Place, ptr: nat)
    requires Returnable(b, p, ptr)
    ensures p.kind.Full? <==> p.kind != Empty && SlabAt(b, p).freeCount == 0
    ensures var c, s := Return(b, p, ptr), SlabAt(b, p);
      && WellFormed(c) && c.index == b.index
      && (if Holds(s, b.index, ptr) then forall q :: Live(c, q) <==> Live(b, q) && q != ptr else c == b)
  {
    var s, idx := SlabAt(b, p), GetPointerIndex(SlabAt(b, p), b.index, ptr);
    PlaceFits(b, p);
    FitsBounded(b.index, p.kind, s);
    PointerIndex(s, b.index, ptr);
    assert Holds(s, b.index, ptr) <==> idx != INVALID_ITEM_INDEX && Marked(s.bits, idx);
    if Holds(s, b.index, ptr) {
      var m := Changed(b, p, idx);
      ReturnMoves(b, p, ptr, idx);
      UnmarkedSlab(s, b.index, p.kind, idx);
      ReplaceApart(Slabs(b), s, m);
      WellFormedBounded(b);
      HeldInPage(s, b.index, ptr);
      NotBeside(b, s, ptr);
      hide Fits;
      hide AllFit;
      hide Apart;
      hide Return;
      forall q ensures Live(Return(b, p, ptr), q) <==> Live(b, q) && q != ptr {
        ReplaceHeld(Slabs(b), s, m, b.index, q);
        assert Holds(m, b.index, q) <==> Holds(Unmark(s, idx), b.index, q);
      }
    }
  }

  ghost function Addresses(l: seq<Slab>): seq<nat> {
    seq(|l|, i requires 0 <= i < |l| => l[i].address)
  }

  /** Where the slab goes that has got a slot back: a full one behind all partial
      ones, one whose last block it was behind all empty ones; any other stays at
      its place. */
  lemma ReturnWhere(b: Bucket, p: Place, ptr: nat)
    requires Returnable(b, p, ptr) && Holds(SlabAt(b, p), b.index, ptr)
    ensures var c, s := Return(b, p, ptr), SlabAt(b, p);
      if p.kind.Full? then
        && Addresses(c.partial) == Addresses(b.partial) + [s.address]
        && Addresses(c.full) == Addresses(Without(b.full, p.i)) && c.empty == b.empty
      else if |Slots(s.bits)| == 1 then
        && Addresses(c.empty) == Addresses(b.empty) + [s.address]
        && Addresses(c.partial) == Addresses(Without(b.partial, p.i)) && c.full == b.full
      else
        Addresses(c.partial) == Addresses(b.partial) && c.full == b.full && c.empty == b.empty
  {
    hide Return;
    hide MoveOn;
    hide WellFormed;
    hide Holds;
    hide ItemCountFromIndex;
    var m := ReturnMovesOn(b, p, ptr);
    MoveOnWhere(b, p, m);
  }

  lemma ReturnMovesOn(b: Bucket, p: Place, ptr: nat) returns (m: Slab)
    requires Returnable(b, p, ptr) && Holds(SlabAt(b, p), b.index, ptr)
    ensures p.kind != Empty && m.address == SlabAt(b, p).address && Return(b, p, ptr) == MoveOn(b, p, m)
    ensures p.kind.Partial? ==>
      (SlabAt(b, p).freeCount == ItemCountFromIndex(b.index) - 1 <==> |Slots(SlabAt(b, p).bits)| == 1)
  {
    var s, idx := SlabAt(b, p), GetPointerIndex(SlabAt(b, p), b.index, ptr);
    PlaceFits(b, p);
    FitsBounded(b.index, p.kind, s);
    PointerIndex(s, b.index, ptr);
    hide GetPointerIndex;
    hide WellFormed;
    hide ItemSizeFromIndex;
    hide ItemCountFromIndex;
    hide MoveOn;
    ItemCounts(b.index);
    m := Unmark(s, idx);
  }

  lemma MoveOnWhere(b: Bucket, p: Place, m: Slab)
    requires In(b, p) && p.kind != Empty && m.address == SlabAt(b, p).address
    ensures var c, s := MoveOn(b, p, m), SlabAt(b, p);
      if p.kind.Full? then
        && Addresses(c.partial) == Addresses(b.partial) + [s.address]
        && Addresses(c.full) == Addresses(Without(b.full, p.i)) && c.empty == b.empty
      else if s.freeCount == ItemCountFromIndex(b.index) - 1 then
        && Addresses(c.empty) == Addresses(b.empty) + [s.address]
        && Addresses(c.partial) == Addresses(Without(b.partial, p.i)) && c.full == b.full
      else
        Addresses(c.partial) == Addresses(b.partial) && c.full == b.full && c.empty == b.empty
  {
    hide ItemCountFromIndex;
  }

  // ---------- the blocks in use ----------

  /** Blocks in use lie in the page of their slab and do not overlap. */
  lemma LiveApart(b: Bucket, ptr: nat, q: nat)
    requires WellFormed(b) && Live(b, ptr) && Live(b, q) && ptr < q
    ensures ptr + ItemSizeFromIndex(b.index) <= q
  {
    var r := Holder(b, ptr);
    var s := Holder(b, q);
    SamePage(b, r, s);
    hide WellFormed;
    hide Slabs;
    if r == s {
      HeldApart(r, b.index, ptr, q);
    } else if r.address < s.address {
      Powers.MultiplesApart(r.address, s.address, PAGE_SIZE);
    } else {
      Powers.MultiplesApart(s.address, r.address, PAGE_SIZE);
    }
    hide Holds;
  }

  lemma HeldApart(s: Slab, index: nat, ptr: nat, q: nat)
    requires Holds(s, index, ptr) && Holds(s, index, q) && ptr < q
    ensures ptr + ItemSizeFromIndex(index) <= q
  {
    var i: nat :| Marked(s.bits, i) && ptr == ItemAddress(s, index, i);
    var j: nat :| Marked(s.bits, j) && q == ItemAddress(s, index, j);
    if i < j { ItemsApart(s, index, i, j); } else if j < i { ItemsApart(s, index, j, i); }
  }

  lemma SamePage(b: Bucket, r: Slab, s: Slab)
    requires WellFormed(b) && r in Slabs(b) && s in Slabs(b)
    ensures r.address == s.address ==> r == s
  {
  }

  /** The page of a block in use is the page of the one slab that holds it. */
  lemma Holder(b: Bucket, ptr: nat) returns (s: Slab)
    requires WellFormed(b) && Live(b, ptr)
    ensures s in Slabs(b) && Holds(s, b.index, ptr) && PageAt(s.address) && InPage(s.address, b.index, ptr)
    ensures s.bucket == b.index && s !in b.empty
  {
    s :| s in Slabs(b) && Holds(s, b.index, ptr);
    WellFormedBounded(b);
    HeldInPage(s, b.index, ptr);
    assert s in b.empty ==> !Holds(s, b.index, ptr) by { EmptyHolds(b); }
    assert s in b.partial ==> Fits(b.index, Partial, s);
    assert s in b.full ==> Fits(b.index, Full, s);
  }

  lemma EmptyHolds(b: Bucket)
    requires AllFit(b.index, Empty, b.empty)
    ensures forall s, ptr | s in b.empty :: !Holds(s, b.index, ptr)
  {
    assert forall s | s in b.empty :: Fits(b.index, Empty, s);
  }

  lemma CollectLaw(b: Bucket)
    requires WellFormed(b)
    ensures WellFormed(Collect(b)) && Collect(b).index == b.index
    ensures |b.empty| <= 4 ==> Collect(b) == b
    ensures |b.empty| > 4 ==> Collect(b) == b.(empty := b.empty[..4])
    ensures forall ptr :: Live(Collect(b), ptr) <==> Live(b, ptr)
  {
    var c := Collect(b);
    if |b.empty| > EMPTY_MAX {
      var gone := b.empty[EMPTY_MAX..];
      assert b.empty == c.empty + gone;
      assert Slabs(b) == Slabs(c) + multiset(gone);
      assert forall s | s in c.empty :: s in b.empty;
      EmptyHolds(b);
      hide Fits;
      hide Holds;
      assert forall s | s in Slabs(c) :: s in Slabs(b) && Slabs(c)[s] <= Slabs(b)[s];
      forall ptr ensures Live(c, ptr) <==> Live(b, ptr) {
        assert forall s | s in Slabs(b) :: s in Slabs(c) || s in b.empty;
      }
    }
  }

  /** A bucket starts with no slab. */
  lemma NewBucket(index: nat)
    requires index <= MAX_BUCKET_INDEX
    ensures WellFormed(Bucket(index, [], [], [])) && forall ptr :: !Live(Bucket(index, [], [], []), ptr)
  {
    assert Slabs(Bucket(index, [], [], [])) == multiset{};
  }

  // ---------- runs ----------

  datatype Op = Take(page: nat) | Give(at: Place, ptr: nat) | Gc

  ghost predicate Legal(b: Bucket, op: Op) {
    match op
    case Take(page) => FreshPage(b, page)
    case Give(at, ptr) => Returnable(b, at, ptr)
    case Gc => true
  }

  /** The bucket, and the blocks its callers hold. */
  datatype State = State(b: Bucket, held: set<nat>)

  ghost function Step(st: State, op: Op): State
    requires Legal(st.b, op)
  {
    match op
    case Take(page) =>
      var (c, ptr) := Allocate(st.b, page);
      State(c, st.held + {ptr})
    case Give(at, ptr) =>
      State(Return(st.b, at, ptr), if Holds(SlabAt(st.b, at), st.b.index, ptr) then st.held - {ptr} else st.held)
    case Gc => State(Collect(st.b), st.held)
  }

  ghost predicate Sound(st: State) {
    WellFormed(st.b) && forall ptr: nat :: Live(st.b, ptr) <==> ptr in st.held
  }

  lemma StepSound(st: State, op: Op)
    requires Sound(st) && Legal(st.b, op)
    ensures Sound(Step(st, op)) && Step(st, op).b.index == st.b.index
    ensures op.Take? ==> Allocate(st.b, op.page).1 !in st.held
  {
    hide Live;
    hide WellFormed;
    hide Allocate;
    hide Return;
    hide Holds;
    hide InPage;
    hide GetAvailableSlab;
    match op
    case Take(page) => AllocateLaw(st.b, page);
    case Give(at, ptr) => ReturnLaw(st.b, at, ptr);
    case Gc => CollectLaw(st.b);
  }

  ghost predicate LegalRun(st: State, ops: seq<Op>)
    decreases |ops|
  {
    ops != [] ==> Legal(st.b, ops[0]) && LegalRun(Step(st, ops[0]), ops[1..])
  }

  ghost function Run(st: State, ops: seq<Op>): State
    requires LegalRun(st, ops)
    decreases |ops|
  {
    if ops == [] then st else Run(Step(st, ops[0]), ops[1..])
  }

  /** Over every run each slab stays in the list its marks call for, and the
      marked slots are exactly the blocks callers hold. */
  lemma {:induction false} RunSound(st: State, ops: seq<Op>)
    requires Sound(st) && LegalRun(st, ops)
    ensures Sound(Run(st, ops)) && Run(st, ops).b.index == st.b.index
    decreases |ops|
  {
    if ops != [] {
      StepSound(st, ops[0]);
      RunSound(Step(st, ops[0]), ops[1..]);
    }
  }

  /** A new bucket has no slabs; two blocks held after any run from it do not
      overlap. */
  lemma RunFromNew(index: nat, ops: seq<Op>, ptr: nat, q: nat)
    requires index <= MAX_BUCKET_INDEX && LegalRun(State(Bucket(index, [], [], []), {}), ops)
    ensures var st := Run(State(Bucket(index, [], [], []), {}), ops);
      Sound(st) && (ptr in st.held && q in st.held && ptr < q ==> ptr + ItemSizeFromIndex(index) <= q)
  {
    var empty := State(Bucket(index, [], [], []), {});
    NewBucket(index);
    RunSound(empty, ops);
    var st := Run(empty, ops);
    if ptr in st.held && q in st.held && ptr < q {
      LiveApart(st.b, ptr, q);
    }
  }

  /** Taking a block and giving it back leaves the same blocks in use. */
  lemma TakeThenGive(b: Bucket, page: nat, at: Place)
    requires WellFormed(b) && FreshPage(b, page)
    requires var (c, ptr) := Allocate(b, page);
      In(c, at) && SlabAt(c, at).address == ptr - ptr % PAGE_SIZE
      && ptr < ADDRESSES
    ensures var (c, ptr) := Allocate(b, page);
      && Holds(SlabAt(c, at), b.index, ptr)
      && Legal(c, Give(at, ptr)) && forall q :: Live(Return(c, at, ptr), q) <==> Live(b, q)
  {
    var (c, ptr) := Allocate(b, page);
    AllocateLaw(b, page);
    hide Allocate;
    hide GetAvailableSlab;
    hide Return;
    hide Fits;
    var s := Holder(c, ptr);
    PlaceFits(c, at);
    SamePage(c, s, SlabAt(c, at));
    hide WellFormed;
    hide Live;
    hide Slabs;
    ReturnLaw(c, at, ptr);
  }
}
