/** The kernel heap with its loops over classes and records
    (src/sys/kernel/src/kalloc/kalloc.cpp). */
module KernelHeap {

  import opened KallocModel
  import opened KallocPages
  import M = SlabModel
  import H = SmallItemHash
  import Cells = BitmapCells
  import opened Shared

  class Allocator {
    var smBuckets: seq<M.Bucket>
    var lgBuckets: seq<seq<Meta>>
    var freeLargeMetas: seq<Meta>
    var listHeads: seq<nat>
    var pages: seq<nat>
    var foreign: nat -> M.Slab

    function State(): Heap
      reads this
    {
      Heap(smBuckets, lgBuckets, freeLargeMetas, listHeads, pages, foreign)
    }

    ghost predicate Valid()
      reads this
    {
      Good(State())
    }

    constructor (pages: seq<nat>, foreign: nat -> M.Slab)
      requires (forall k | 0 <= k < |pages| :: M.PageAt(pages[k])) && |pages| >= LG_BUCKET_SIZE
        && forall j, k | 0 <= j < k < |pages| :: pages[j] != pages[k]
      ensures Valid() && State() == NewHeap(pages, foreign)
    {
      hide Good;
      hide EmptyHeap;
      hide AddHead;
      var heap := EmptyHeap(pages, foreign);
      EmptyHeapGood(pages, foreign);
      GoodSize(heap);
      smBuckets, lgBuckets, freeLargeMetas, listHeads := heap.buckets, heap.large, heap.spare, heap.heads;
      this.pages, this.foreign := heap.supply, heap.foreign;
      new;
      for i := 0 to LG_BUCKET_SIZE
        invariant Valid() && State() == AddHeads(heap, i)
      {
        AddHeadGood(State());
        NewHead();
      }
    }

    method NewHead()
      requires Valid() && pages != []
      modifies this
      ensures State() == AddHead(old(State()))
    {
      var ptr := KallocSmall(LIST_SIZE);
      listHeads := [ptr] + listHeads;
    }

    /** Tries one class after the other until one has a block. */
    method KallocSmall(sz: nat) returns (result: nat)
      requires Valid() && 0 < sz <= H.MAX_ITEM_SIZE && pages != []
      modifies this
      ensures (State(), result) == KallocModel.KallocSmall(old(State()), sz)
      ensures result == 0 <==> Unserved(sz)
    {
      LastClass(sz);
      ghost var was := State();
      result := 0;
      var idx := H.IndexFromSize(sz);
      while idx < H.MAX_BUCKET_INDEX && result == 0
        invariant if result == 0 then State() == was && idx == H.IndexFromSize(sz)
          else H.IndexFromSize(sz) < H.MAX_BUCKET_INDEX && (State(), result) == AllocateFrom(was, H.IndexFromSize(sz))
        decreases H.MAX_BUCKET_INDEX - idx, result == 0
      {
        UserSmall(was, idx);
        var (heap, ptr) := AllocateFrom(State(), idx);
        smBuckets, pages, result := heap.buckets, heap.supply, ptr;
        idx := idx + 1;
      }
    }

    method KallocLarge(sz: nat) returns (result: nat)
      requires Valid() && |pages| >= 2
      modifies this
      ensures (State(), result) == KallocModel.KallocLarge(old(State()), sz)
    {
      ghost var was := State();
      TakeMetaLaw(was);
      var meta;
      if freeLargeMetas != [] {
        meta := freeLargeMetas[0];
        freeLargeMetas := freeLargeMetas[1..];
      } else {
        var ptr := KallocSmall(META_SIZE);
        meta := Meta(ptr, 0, 0);
      }
      assert (State(), meta) == TakeMeta(was);
      result := pages[0];
      pages := pages[1..];
      meta := meta.(pagePtr := result, pageCount := PageCount(sz));
      var idx := HashPtr(result);
      lgBuckets := lgBuckets[idx := [meta] + lgBuckets[idx]];
    }

    /** A block for the caller, or zero; more than a page stops the kernel. */
    method Allocate(size: nat) returns (panic: bool, ptr: nat)
      requires Valid() && |pages| >= 2 && size < M.ADDRESSES
      modifies this
      ensures panic <==> PAGE_SIZE < size <= M.ADDRESSES - PAGE_SIZE
      ensures !panic ==> Valid() && KallocModel.Kalloc(old(State()), size) == Done(State(), ptr)
      ensures !panic ==> (ptr == 0 <==> size == 0 || Unserved(size))
      ensures !panic && ptr != 0 ==>
        (HoldsBytes(State(), ptr, size) <==> size <= M.ADDRESSES - PAGE_SIZE)
      ensures !panic && ptr != 0 ==>
        !UserBlock(old(State()), ptr) && forall q :: UserBlock(State(), q) <==> UserBlock(old(State()), q) || q == ptr
      ensures !panic ==> SamePages(old(State()), State())
    {
      hide Owned;
      ghost var was := State();
      KallocLaw(was, size);
      if KallocModel.Kalloc(was, size).Done? { KallocSamePages(was, size); }
      if KallocModel.Kalloc(was, size).Done? && KallocModel.Kalloc(was, size).ptr != 0 { KallocHoldsSize(was, size); }
      PageCounts(if size == 0 then 1 else size);
      hide Good;
      hide UserBlock;
      hide HoldsBytes;
      panic, ptr := false, 0;
      if size == 0 {
        return;
      }
      if size <= H.MAX_ITEM_SIZE {
        ptr := KallocSmall(size);
      } else if PageCount(size) > 1 {
        panic := true;
      } else {
        ptr := KallocLarge(size);
      }
    }

    /** The record of a large block, found by walking the row of its hash. */
    method RemoveMeta(ptr: nat) returns (found: bool)
      requires Valid()
      modifies this
      ensures State() == KfreeLarge(old(State()), ptr)
      ensures found <==> LargePage(old(State()), ptr)
      ensures pages == if found then old(pages) + [ptr] else old(pages)
    {
      FindMetaLaw(State(), ptr);
      hide Good;
      hide LargePage;
      var bucket := HashPtr(ptr);
      var l := lgBuckets[bucket];
      var i := 0;
      while i < |l|
        invariant i <= |l| && State() == old(State()) && forall m | m in l[..i] :: m.pagePtr != ptr
      {
        if l[i].pagePtr == ptr {
          FindMetaIs(l, ptr, i);
          lgBuckets := lgBuckets[bucket := l[..i] + l[i + 1..]];
          pages := pages + [l[i].pagePtr];
          freeLargeMetas := [l[i].(pagePtr := 0)] + freeLargeMetas;
          return true;
        }
        i := i + 1;
      }
      FindMetaIs(l, ptr, i);
      return false;
    }

    lemma {:induction false} FindMetaIs(l: seq<Meta>, ptr: nat, i: nat)
      requires i <= |l| && (i < |l| ==> l[i].pagePtr == ptr) && forall m | m in l[..i] :: m.pagePtr != ptr
      ensures FindMeta(l, ptr) == i
    {
      if i > 0 {
        assert l[0] in l[..i];
        assert forall m | m in l[1..][..i - 1] :: m in l[..i];
        FindMetaIs(l[1..], ptr, i - 1);
      }
    }

    /** The block at `ptr` goes back to the bucket that the header of the page names. */
    method FreeSmall(ptr: nat) returns (wild: bool)
      modifies this
      ensures KfreeSmall(old(State()), ptr) == if wild then Wild else Freed(State())
    {
      hide M.Return;
      hide HeaderAt;
      hide FindPlace;
      wild := false;
      match GetSlabFromPtr(State(), ptr)
      case None =>
      case Some(slab) =>
        if slab.bucket >= |smBuckets| {
          return true;
        }
        match FindPlace(smBuckets[slab.bucket], PageOf(ptr))
        case Some(at) => smBuckets := smBuckets[slab.bucket := M.Return(smBuckets[slab.bucket], at, ptr)];
        case None => wild := ReturnToForeign(slab, ptr);
    }

    /** Clears the mark that the header seems to have. */
    method ReturnToForeign(slab: M.Slab, ptr: nat) returns (wild: bool)
      modifies this
      ensures ReturnForeign(old(State()), slab, ptr) == if wild then Wild else Freed(State())
    {
      hide M.GetPointerIndex;
      hide H.ItemCountFromIndex;
      hide M.Unmark;
      wild := false;
      var idx := M.GetPointerIndex(slab, slab.bucket, ptr);
      if idx == M.INVALID_ITEM_INDEX {
        return;
      }
      if Cells.Marked(slab.bits, idx) {
        var lastCount := slab.freeCount;
        if lastCount == 0 || lastCount == H.ItemCountFromIndex(slab.bucket) - 1 {
          return true;
        }
        foreign := Overwrite(foreign, PageOf(ptr), M.Unmark(slab, idx));
      }
    }

    /** Frees the block at `ptr`, found through the hash of a page address or the
        header of the page. What happens for other addresses depends on what their
        page holds; after `wild` nothing is known. */
    method Free(ptr: nat) returns (wild: bool)
      requires Valid() && ptr < M.ADDRESSES
      modifies this
      ensures Kfree(old(State()), ptr) == if wild then Wild else Freed(State())
      ensures Frees(old(State()), if wild then Wild else Freed(State()), ptr)
      ensures !wild && !Reserved(old(State()), ptr) ==> Valid()
      ensures !wild ==> SamePages(old(State()), State())
      ensures LargePage(old(State()), ptr) ==> !wild && pages == old(pages) + [ptr]
    {
      KfreeLaw(State(), ptr);
      if LargePage(State(), ptr) { FreedToSupply(State(), ptr); }
      if Kfree(State(), ptr).Freed? { KfreeSamePages(State(), ptr); }
      hide Owned;
      hide LargePage;
      FreesGood(State(), Kfree(State(), ptr), ptr);
      hide Good;
      hide Frees;
      hide Reserved;
      hide KfreeLarge;
      hide KfreeSmall;
      wild := false;
      if ptr == 0 {
        return;
      }
      if PageAligned(ptr) {
        var found := RemoveMeta(ptr);
      } else {
        wild := FreeSmall(ptr);
      }
    }
  }
}
