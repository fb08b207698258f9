/** The bucket of one size class, moving slabs between its lists in place
    (src/sys/kernel/src/kalloc/small_bucket.cpp). */
module SmallBucket {

  import opened IntrusiveList
  import M = SlabModel
  import opened SmallItemHash
  import opened Shared
  import Cells = BitmapCells

  type SlabNode = Node<M.Slab>

  class SmallItemBucket {
    const index: nat
    const partial: List<M.Slab>
    const full: List<M.Slab>
    const empty: List<M.Slab>

    ghost function State(): M.Bucket
      reads partial, full, empty, partial.nodes, full.nodes, empty.nodes
    {
      M.Bucket(index, Items(partial.nodes), Items(full.nodes), Items(empty.nodes))
    }

    /** The three lists are intact and share no node. */
    ghost predicate Shape()
      reads partial, full, empty, partial.nodes, full.nodes, empty.nodes
    {
      && partial != full && full != empty && partial != empty
      && partial.Valid() && full.Valid() && empty.Valid()
      && (forall n | n in partial.nodes :: n !in full.nodes && n !in empty.nodes)
      && (forall n | n in full.nodes :: n !in empty.nodes)
    }

    ghost predicate Valid()
      reads partial, full, empty, partial.nodes, full.nodes, empty.nodes
    {
      Shape() && M.WellFormed(State())
    }

    constructor (index: nat)
      requires index <= MAX_BUCKET_INDEX
      ensures Valid() && this.index == index && State() == M.Bucket(index, [], [], [])
      ensures fresh(partial) && fresh(full) && fresh(empty)
    {
      M.NewBucket(index);
      this.index := index;
      partial := new List<M.Slab>();
      full := new List<M.Slab>();
      empty := new List<M.Slab>();
      new;
      assert State() == M.Bucket(index, [], [], []);
      hide M.WellFormed;
    }

    // ---------- moves between the lists ----------

    /** The slab is in none of the lists. */
    ghost predicate Loose(slab: SlabNode)
      reads partial, full, empty
    {
      slab !in partial.nodes && slab !in full.nodes && slab !in empty.nodes
    }

    /** An unused slab: the first empty one, or the header of a new page. */
    method PopEmpty(page: nat) returns (slab: SlabNode)
      requires Shape() && partial.nodes == []
      modifies empty, empty.nodes`Prev, empty.nodes`Next
      ensures Shape() && full.nodes == old(full.nodes) && partial.nodes == [] && Loose(slab)
      ensures old(empty.nodes) == [] ==> fresh(slab) && slab.item == M.NewSlab(page)
      ensures old(empty.nodes) != [] ==> slab == old(empty.nodes)[0] && slab.item == old(State()).empty[0]
      ensures State() == old(State()).(empty := if old(State()).empty == [] then [] else old(State()).empty[1..])
    {
      hide Items;
      var popped := empty.PopFront();
      StillChained(full.nodes);
      StillItems(full.nodes);
      assert Items(empty.nodes) == if old(State()).empty == [] then [] else old(State()).empty[1..];
      if popped == null {
        slab := new Node<M.Slab>(M.NewSlab(page));
      } else {
        slab := popped;
      }
    }

    method PushFrontPartial(slab: SlabNode)
      requires Shape() && Loose(slab)
      modifies partial, slab`Prev, slab`Next, partial.nodes`Prev, partial.nodes`Next
      ensures Shape() && partial.nodes == [slab] + old(partial.nodes)
      ensures full.nodes == old(full.nodes) && empty.nodes == old(empty.nodes)
      ensures State() == old(State()).(partial := [slab.item] + old(State()).partial)
    {
      hide Items;
      partial.PushFront(slab);
      StillChained(full.nodes);
      StillChained(empty.nodes);
      StillItems(full.nodes);
      StillItems(empty.nodes);
      assert Items(partial.nodes) == [slab.item] + old(State()).partial;
    }

    method PushBackPartial(slab: SlabNode)
      requires Shape() && Loose(slab)
      modifies partial, slab`Prev, slab`Next, partial.nodes`Prev, partial.nodes`Next
      ensures Shape() && partial.nodes == old(partial.nodes) + [slab]
      ensures full.nodes == old(full.nodes) && empty.nodes == old(empty.nodes)
      ensures State() == old(State()).(partial := old(State()).partial + [slab.item])
    {
      hide Items;
      partial.PushBack(slab);
      StillChained(full.nodes);
      StillChained(empty.nodes);
      StillItems(full.nodes);
      StillItems(empty.nodes);
      assert Items(partial.nodes) == old(State()).partial + [slab.item];
    }

    method PushFrontFull(slab: SlabNode)
      requires Shape() && Loose(slab)
      modifies full, slab`Prev, slab`Next, full.nodes`Prev, full.nodes`Next
      ensures Shape() && full.nodes == [slab] + old(full.nodes)
      ensures partial.nodes == old(partial.nodes) && empty.nodes == old(empty.nodes)
      ensures State() == old(State()).(full := [slab.item] + old(State()).full)
    {
      hide Items;
      full.PushFront(slab);
      StillChained(partial.nodes);
      StillChained(empty.nodes);
      StillItems(partial.nodes);
      StillItems(empty.nodes);
      assert Items(full.nodes) == [slab.item] + old(State()).full;
    }

    method PushBackEmpty(slab: SlabNode)
      requires Shape() && Loose(slab)
      modifies empty, slab`Prev, slab`Next, empty.nodes`Prev, empty.nodes`Next
      ensures Shape() && empty.nodes == old(empty.nodes) + [slab]
      ensures partial.nodes == old(partial.nodes) && full.nodes == old(full.nodes)
      ensures State() == old(State()).(empty := old(State()).empty + [slab.item])
    {
      hide Items;
      empty.PushBack(slab);
      StillChained(partial.nodes);
      StillChained(full.nodes);
      StillItems(partial.nodes);
      StillItems(full.nodes);
      assert Items(empty.nodes) == old(State()).empty + [slab.item];
    }

    method RemovePartial(slab: SlabNode, ghost i: nat)
      requires Shape() && i < |partial.nodes| && slab == partial.nodes[i]
      modifies partial, partial.nodes`Prev, partial.nodes`Next
      ensures Shape() && Loose(slab) && partial.nodes == old(partial.nodes)[..i] + old(partial.nodes)[i + 1..]
      ensures full.nodes == old(full.nodes) && empty.nodes == old(empty.nodes)
      ensures State() == old(State()).(partial := M.Without(old(State()).partial, i))
    {
      hide Items;
      partial.Remove(slab, i);
      StillChained(full.nodes);
      StillChained(empty.nodes);
      StillItems(full.nodes);
      StillItems(empty.nodes);
      assert Items(partial.nodes) == M.Without(old(State()).partial, i);
    }

    /** Writes the header of a slab; the lists stay as they are. */
    method LabelPartial(slab: SlabNode, ghost i: nat, item: M.Slab)
      requires Shape() && i < |partial.nodes| && slab == partial.nodes[i]
      modifies slab`item
      ensures Shape() && slab.item == item
      ensures State() == old(State()).(partial := old(State()).partial[i := item])
    {
      hide Items;
      assert forall k | 0 <= k < |partial.nodes| && k != i :: partial.nodes[k] != slab by {
        assert Distinct(partial.nodes);
      }
      slab.item := item;
      StillChained(partial.nodes);
      StillChained(full.nodes);
      StillChained(empty.nodes);
      StillItems(full.nodes);
      StillItems(empty.nodes);
      assert Items(partial.nodes) == old(State()).partial[i := item];
    }

    method RemoveFull(slab: SlabNode, ghost i: nat)
      requires Shape() && i < |full.nodes| && slab == full.nodes[i]
      modifies full, full.nodes`Prev, full.nodes`Next
      ensures Shape() && Loose(slab) && full.nodes == old(full.nodes)[..i] + old(full.nodes)[i + 1..]
      ensures partial.nodes == old(partial.nodes) && empty.nodes == old(empty.nodes)
      ensures State() == old(State()).(full := M.Without(old(State()).full, i))
    {
      hide Items;
      full.Remove(slab, i);
      StillChained(partial.nodes);
      StillChained(empty.nodes);
      StillItems(partial.nodes);
      StillItems(empty.nodes);
      assert Items(full.nodes) == M.Without(old(State()).full, i);
    }

    /** Writes the header of a slab; the lists stay as they are. */
    method LabelFull(slab: SlabNode, ghost i: nat, item: M.Slab)
      requires Shape() && i < |full.nodes| && slab == full.nodes[i]
      modifies slab`item
      ensures Shape() && slab.item == item
      ensures State() == old(State()).(full := old(State()).full[i := item])
    {
      hide Items;
      assert forall k | 0 <= k < |full.nodes| && k != i :: full.nodes[k] != slab by { assert Distinct(full.nodes); }
      slab.item := item;
      StillChained(partial.nodes);
      StillChained(full.nodes);
      StillChained(empty.nodes);
      StillItems(partial.nodes);
      StillItems(empty.nodes);
      assert Items(full.nodes) == old(State()).full[i := item];
    }

    method LabelLoose(slab: SlabNode, item: M.Slab)
      requires Shape() && Loose(slab)
      modifies slab`item
      ensures Shape() && slab.item == item && State() == old(State())
    {
      hide Items;
      slab.item := item;
      StillChained(partial.nodes);
      StillChained(full.nodes);
      StillChained(empty.nodes);
      StillItems(partial.nodes);
      StillItems(full.nodes);
      StillItems(empty.nodes);
    }

    // ---------- the bucket ----------

    method GetAvailableSlab(page: nat) returns (slab: SlabNode)
      requires Shape()
      modifies partial, empty, empty.nodes
      ensures Shape() && partial.nodes != [] && slab == partial.nodes[0] && full.nodes == old(full.nodes)
      ensures State() == M.GetAvailableSlab(old(State()), page)
      ensures old(partial.nodes) != [] ==> partial.nodes == old(partial.nodes)
      ensures old(partial.nodes) == [] ==> partial.nodes == [slab] && (fresh(slab) || slab in old(empty.nodes))
    {
      hide Items;
      assert partial.first == null <==> partial.nodes == [];
      assert partial.first != null ==> partial.first == partial.nodes[0];
      hide List.Valid;
      if partial.first != null {
        return partial.first;
      }
      slab := PopEmpty(page);
      LabelLoose(slab, M.Setup(slab.item, index));
      PushFrontPartial(slab);
    }

    /** Takes the first free slot of the first partial slab, which is full after
        its last one. */
    method TakeSlot(slab: SlabNode) returns (ptr: nat)
      requires Shape() && partial.nodes != [] && slab == partial.nodes[0]
      modifies partial, full, partial.nodes, full.nodes`Prev, full.nodes`Next
      ensures Shape() && (State(), ptr) == M.TakeSlot(old(State()))
    {
      hide Items;
      hide List.Valid;
      hide M.Mark;
      hide M.ItemAddress;
      ghost var was := State();
      assert was.partial[0] == slab.item;
      var idx := Cells.FirstClear(slab.item.bits);
      var marked := M.Mark(slab.item, idx);
      M.WithoutUpdate(was.partial, 0, marked);
      LabelPartial(slab, 0, marked);
      if marked.freeCount == 0 {
        RemovePartial(slab, 0);
        PushFrontFull(slab);
      }
      ptr := M.ItemAddress(marked, index, idx);
    }

    /** A block of the bucket's size that was not in use before. */
    method Allocate(page: nat) returns (ptr: nat)
      requires Valid() && M.FreshPage(State(), page)
      modifies partial, full, empty, partial.nodes, full.nodes`Prev, full.nodes`Next, empty.nodes
      ensures Valid() && (State(), ptr) == M.Allocate(old(State()), page)
      ensures !M.Live(old(State()), ptr) && forall q :: M.Live(State(), q) <==> M.Live(old(State()), q) || q == ptr
    {
      ghost var was := State();
      M.AllocateLaw(was, page);
      hide M.GetAvailableSlab;
      hide M.TakeSlot;
      hide M.WellFormed;
      hide M.Live;
      var slab := GetAvailableSlab(page);
      ptr := TakeSlot(slab);
    }

    ghost predicate At(slab: SlabNode, at: M.Place)
      reads partial, full, empty
    {
      match at.kind
      case Partial => at.i < |partial.nodes| && slab == partial.nodes[at.i]
      case Full => at.i < |full.nodes| && slab == full.nodes[at.i]
      case Empty => at.i < |empty.nodes| && slab == empty.nodes[at.i]
    }

    /** Frees the block at `ptr`; a pointer that is no block in use of the slab
        changes nothing. */
    method Return(slab: SlabNode, ptr: nat, ghost at: M.Place)
      requires Valid() && M.In(State(), at) && At(slab, at) && ptr < M.ADDRESSES
      modifies partial, full, empty, slab, partial.nodes`Prev, partial.nodes`Next,
        full.nodes`Prev, full.nodes`Next, empty.nodes`Prev, empty.nodes`Next
      ensures Valid() && State() == M.Return(old(State()), at, ptr)
      ensures if M.Holds(old(slab.item), index, ptr)
        then forall q :: M.Live(State(), q) <==> M.Live(old(State()), q) && q != ptr
        else State() == old(State())
    {
      ghost var was := State();
      assert M.SlabAt(was, at) == slab.item;
      M.ReturnLaw(was, at, ptr);
      M.PlaceFits(was, at);
      assert at.kind.Empty? ==> forall i :: !Cells.Marked(slab.item.bits, i);
      hide Items;
      hide List.Valid;
      hide M.WellFormed;
      hide M.Live;
      hide M.Holds;
      hide M.Fits;
      hide M.Unmark;
      hide M.Reset;
      hide M.GetPointerIndex;
      hide ItemCountFromIndex;
      var idx := M.GetPointerIndex(slab.item, index, ptr);
      if idx == M.INVALID_ITEM_INDEX {
        return;
      }
      if Cells.Marked(slab.item.bits, idx) {
        MoveOn(slab, M.Unmark(slab.item, idx), at);
      }
    }

    /** Where a slab goes that has just got a slot back. */
    method MoveOn(slab: SlabNode, cleared: M.Slab, ghost at: M.Place)
      requires Shape() && M.In(State(), at) && At(slab, at) && at.kind != M.Empty
        && (at.kind.Full? <==> slab.item.freeCount == 0)
      modifies partial, full, empty, slab, partial.nodes`Prev, partial.nodes`Next,
        full.nodes`Prev, full.nodes`Next, empty.nodes`Prev, empty.nodes`Next
      ensures Shape() && State() == M.MoveOn(old(State()), at, cleared)
    {
      hide Items;
      hide List.Valid;
      hide ItemCountFromIndex;
      ghost var was := State();
      assert M.SlabAt(was, at) == slab.item;
      var lastCount := slab.item.freeCount;
      if lastCount == 0 {
        M.WithoutUpdate(was.full, at.i, cleared);
        LabelFull(slab, at.i, cleared);
        RemoveFull(slab, at.i);
        PushBackPartial(slab);
      } else if lastCount == ItemCountFromIndex(index) - 1 {
        M.WithoutUpdate(was.partial, at.i, M.Reset(cleared));
        LabelPartial(slab, at.i, M.Reset(cleared));
        RemovePartial(slab, at.i);
        PushBackEmpty(slab);
      } else {
        LabelPartial(slab, at.i, cleared);
      }
    }

    /** Gives up empty slabs until four are left. */
    method GC()
      requires Valid()
      modifies empty, empty.nodes`Prev, empty.nodes`Next
      ensures Valid() && State() == M.Collect(old(State()))
      ensures forall q :: M.Live(State(), q) <==> M.Live(old(State()), q)
    {
      M.CollectLaw(State());
      hide M.WellFormed;
      hide M.Live;
      ReleaseEmpty();
    }

    method ReleaseEmpty()
      requires Shape()
      modifies empty, empty.nodes`Prev, empty.nodes`Next
      ensures Shape() && State() == M.Collect(old(State()))
    {
      hide Items;
      assert empty.count == |empty.nodes|;
      hide List.Valid;
      while empty.count > M.EMPTY_MAX
        invariant Shape() && empty.count == |empty.nodes| && empty.nodes <= old(empty.nodes)
        invariant M.Collect(State()) == M.Collect(old(State()))
        decreases empty.count
      {
        PopBackEmpty();
      }
    }

    method PopBackEmpty()
      requires Shape() && empty.nodes != []
      modifies empty, empty.nodes`Prev, empty.nodes`Next
      ensures Shape() && empty.nodes == old(empty.nodes)[..|old(empty.nodes)| - 1] && empty.count == |empty.nodes|
      ensures State() == old(State()).(empty := old(State()).empty[..|old(empty.nodes)| - 1])
    {
      hide Items;
      var slab := empty.PopBack();
      StillChained(partial.nodes);
      StillChained(full.nodes);
      StillItems(partial.nodes);
      StillItems(full.nodes);
      assert Items(empty.nodes) == old(State()).empty[..|old(empty.nodes)| - 1];
    }
  }
}
