/** The kernel's page table (src/sys/kernel/arch/x86_64/src/page_table.cpp),
    writing the tables of PageTableModel in place. */
module PageTables {

  import opened PageTableModel
  import opened Shared
  import W = HardwareWalk

  // ---------- page flags ----------

  const PAGE_WRITE: bv32 := 0x1
  const PAGE_EXECUTE: bv32 := 0x2
  const PAGE_KERNEL: bv32 := 0x80

  predicate HasAny(flags: bv32, items: bv32) { flags & items != 0 }

  predicate IsSet(flags: bv32, items: bv32) { flags & items == items }

  function MapToEntryFlags(flags: bv32): (r: bv64)
    ensures r & EXEC_DISABLE == 0 && GoodFlags(r | PRESENT)
    ensures r & 0x2 != 0 <==> flags & 0x1 != 0 || flags & 0x2 != 0
    ensures r & 0x4 != 0 <==> flags & 0x80 == 0
    ensures r & 0xFFFF_FFFF_FFFF_FFF9 == 0
    ensures Grants(r | PRESENT) & WRITABLE != 0 <==> IsSet(flags, PAGE_WRITE) || IsSet(flags, PAGE_EXECUTE)
    ensures Grants(r | PRESENT) & USER != 0 <==> !IsSet(flags, PAGE_KERNEL)
  {
    var result := if HasAny(flags, PAGE_WRITE | PAGE_EXECUTE) then WRITABLE else 0;
    if !IsSet(flags, PAGE_KERNEL) then result | USER else result
  }

  // ---------- the steps of the loop ----------

  lemma StepDown(t: Tables, root: bv64, page: bv64, level: nat, p: bv64, v: bv64, f: bv64)
    requires level < MAX_LEVELS
      && Below(t, root, page, level, Index(v, level), Address(Entry(t.mem, page, Index(v, level))))
    ensures var child := Address(Entry(t.mem, page, Index(v, level)));
      IsTable(t, child, level - 1) && MapFrom(t, child, level - 1, p, v, f) == MapFrom(t, page, level, p, v, f)
  {
    ChildOf(t, root, page, level, Index(v, level), Address(Entry(t.mem, page, Index(v, level))));
  }

  lemma StepAttached(t: Tables, root: bv64, page: bv64, level: nat, p: bv64, v: bv64, f: bv64)
    requires level < MAX_LEVELS && Gap(t, root, page, level, Index(v, level), f)
    ensures var u := Attach(t, page, level, Index(v, level), f);
      && Below(u, root, page, level, Index(v, level), Address(Entry(u.mem, page, Index(v, level))))
      && Entry(u.mem, page, Index(v, level)) == MakeEntry(t.supply[0], f)
      && MapFrom(u, page, level, p, v, f) == MapFrom(t, page, level, p, v, f)
  {
    AttachBelow(t, root, page, level, Index(v, level), f);
    AttachEntry(t, root, page, level, Index(v, level), f);
    MapAttached(t, root, page, level, p, v, f);
  }

  lemma StepFails(t: Tables, page: bv64, level: nat, p: bv64, v: bv64, f: bv64)
    requires 0 < level < MAX_LEVELS && !Present(Entry(t.mem, page, Index(v, level))) && t.supply == []
    ensures MapFrom(t, page, level, p, v, f) == Outcome(false, t)
  {
  }

  lemma StepLast(t: Tables, page: bv64, p: bv64, v: bv64, f: bv64)
    ensures MapFrom(t, page, 0, p, v, f) == Outcome(true, SetEntry(t, page, Index(v, 0), MakeEntry(p, f)))
  {
  }

  lemma ShiftIndex(v: bv64, level: nat)
    requires level < MAX_LEVELS
    ensures EntryShift(level) <= 64 && IndexAt(v, EntryShift(level)) == Index(v, level)
  {
    Shifts();
  }

  lemma ShiftDown(level: nat)
    requires 0 < level < MAX_LEVELS
    ensures EntryShift(level) - SHIFT_INC == EntryShift(level - 1)
  {
    Shifts();
  }

  class PageTable {
    var root: bv64
    var mem: Memory
    var supply: seq<bv64>
    ghost var place: Places

    ghost function State(): Tables
      reads this
    {
      Tables(mem, supply, place)
    }

    ghost predicate Valid()
      reads this
    {
      WellFormed(State(), root)
    }

    /** Adopts the tables under a given root. */
    constructor (root: bv64, mem: Memory, supply: seq<bv64>, ghost place: Places)
      requires WellFormed(Tables(mem, supply, place), root)
      ensures Valid() && this.root == root && State() == Tables(mem, supply, place)
    {
      this.root := root;
      this.mem := mem;
      this.supply := supply;
      this.place := place;
    }

    /** A fresh zeroed page, or zero when there is none. */
    method AllocatePage() returns (page: bv64)
      requires Valid()
      modifies `supply
      ensures old(supply) == [] ==> page == 0 && supply == []
      ensures old(supply) != [] ==> page == old(supply)[0] && page != 0 && supply == old(supply)[1..]
    {
      if supply == [] {
        page := 0;
      } else {
        assert Fresh(State(), supply[0]);
        page := supply[0];
        supply := supply[1..];
      }
    }

    /** Points an entry to a fresh page. */
    method AddTable(table: bv64, level: nat, index: bv64, entryFlags: bv64) returns (page: bv64)
      requires Valid() && level > 0
      modifies `mem, `supply, `place
      ensures page == 0 <==> old(supply) == []
      ensures page == 0 ==> State() == old(State())
      ensures page != 0 ==> page == old(supply)[0] && State() == Attach(old(State()), table, level, index, entryFlags)
    {
      page := AllocatePage();
      if page != 0 {
        mem := Write(mem, Slot(table, index), MakeEntry(page, entryFlags));
        place := Put(place, page, Place(level - 1, table, index));
      }
    }

    /** The descent has come to `table`, and what is left to do from there
        completes the whole call. */
    ghost predicate Reached(was: Tables, table: bv64, level: nat, p: bv64, v: bv64, f: bv64)
      reads this
      requires level < MAX_LEVELS
    {
      && Valid() && IsTable(State(), table, level)
      && MapFrom(State(), table, level, p, v, f) == MapOne(was, root, p, v, f)
    }

    /** The table below an entry, attached first if the entry is missing; one
        round of the loop of `MapSinglePage`. */
    method NextTable(table: bv64, level: nat, shift: bv64, entryFlags: bv64,
                     ghost was: Tables, ghost paddr: bv64, vaddr: bv64) returns (ok: bool, next: bv64)
      requires GoodFlags(entryFlags) && 0 < level < MAX_LEVELS && shift == EntryShift(level)
      requires Reached(was, table, level, paddr, vaddr, entryFlags)
      modifies `mem, `supply, `place
      ensures !ok ==> MapOne(was, root, paddr, vaddr, entryFlags) == Outcome(false, State())
      ensures ok ==> Reached(was, next, level - 1, paddr, vaddr, entryFlags)
    {
      hide WellFormed;
      hide Address;
      hide Present;
      hide MakeEntry;
      hide Slot;
      hide GoodFlags;
      hide MapFrom;
      hide Index;
      hide MapOne;
      hide Large;
      hide Attach;
      ghost var now := State();
      ShiftIndex(vaddr, level);
      hide EntryShift;
      hide IndexAt;
      var index := IndexAt(vaddr, shift);
      var entry := Entry(mem, table, index);
      if !Present(entry) {
        var newPage := AddTable(table, level, index, entryFlags);
        if newPage == 0 {
          StepFails(now, table, level, paddr, vaddr, entryFlags);
          return false, 0;
        }
        entry := MakeEntry(newPage, entryFlags);
        StepAttached(now, root, table, level, paddr, vaddr, entryFlags);
      }
      StepDown(State(), root, table, level, paddr, vaddr, entryFlags);
      return true, Address(entry);
    }

    method SetWord(table: bv64, index: bv64, entry: bv64)
      modifies `mem
      ensures State() == SetEntry(old(State()), table, index, entry)
    {
      mem := Write(mem, Slot(table, index), entry);
    }

    /** The loop over the levels and the last write. */
    method Descend(paddr: bv64, vaddr: bv64, entryFlags: bv64) returns (ok: bool)
      requires Valid() && GoodFlags(entryFlags)
      modifies this
      ensures root == old(root)
      ensures MapOne(old(State()), root, paddr, vaddr, entryFlags) == Outcome(ok, State())
    {
      ghost var was := State();
      hide Reached;
      hide GoodFlags;
      hide EntryShift;
      hide MapOne;
      hide Valid;
      hide SetEntry;
      hide MakeEntry;
      hide IndexAt;
      FirstReached(paddr, vaddr, entryFlags);
      ShiftIndex(vaddr, 0);

      var shift := EntryShift(MAX_LEVELS - 1);
      var table := root;
      var i := MAX_LEVELS - 1;
      while i > 0
        invariant 0 <= i < MAX_LEVELS && shift == EntryShift(i)
        invariant root == old(root) && Reached(was, table, i, paddr, vaddr, entryFlags)
      {
        ShiftDown(i);
        var found, next := NextTable(table, i, shift, entryFlags, was, paddr, vaddr);
        if !found {
          return false;
        }
        table, i, shift := next, i - 1, shift - SHIFT_INC;
      }
      LastReached(was, table, paddr, vaddr, entryFlags);
      SetWord(table, IndexAt(vaddr, shift), MakeEntry(paddr, entryFlags));
      return true;
    }

    lemma FirstReached(p: bv64, v: bv64, f: bv64)
      requires Valid()
      ensures Reached(State(), root, TOP, p, v, f)
    {
      RootIsTable(State(), root);
    }

    lemma LastReached(was: Tables, table: bv64, p: bv64, v: bv64, f: bv64)
      requires Reached(was, table, 0, p, v, f)
      ensures MapOne(was, root, p, v, f) ==
        Outcome(true, SetEntry(State(), table, IndexAt(v, EntryShift(0)), MakeEntry(p, f)))
    {
      ShiftIndex(v, 0);
      StepLast(State(), table, p, v, f);
    }

    /** The kernel stops when no page can be allocated; that is `ok == false`. */
    method MapSinglePage(paddr: bv64, vaddr: bv64, entryFlags: bv64) returns (ok: bool)
      requires Valid() && GoodFlags(entryFlags)
      modifies this
      ensures Valid() && root == old(root)
      ensures MapOne(old(State()), root, paddr, vaddr, entryFlags) == Outcome(ok, State())
      ensures ok ==>
        var rights := Grants(entryFlags) & Upper(old(mem), root, TOP, vaddr);
        Translate(State(), root, vaddr) == Some(Translation(Address(paddr), entryFlags, rights))
      ensures forall w | !ok || !SamePage(vaddr, w) :: Translate(State(), root, w) == Translate(old(State()), root, w)
      ensures ok <==> Missing(old(mem), root, TOP, vaddr) <= |old(supply)|
      ensures ok ==> W.Found(W.Look(mem, root, 3, vaddr), paddr, entryFlags)
      ensures forall w | !ok || W.PageNumber(w) != W.PageNumber(vaddr) ::
        W.Look(mem, root, 3, w) == W.Look(old(mem), root, 3, w)
    {
      hide W.Look;
      ghost var was := State();
      W.MapSeen(was, root, paddr, vaddr, entryFlags);
      MapOneLaw(was, root, paddr, vaddr, entryFlags);
      RootIsTable(was, root);
      SupplyLaw(was, root, root, TOP, paddr, vaddr, entryFlags);
      hide WellFormed;
      hide Walk;
      hide Upper;
      hide Grants;
      hide SamePage;
      hide Missing;
      hide Address;
      hide GoodFlags;
      hide MapFrom;
      ok := Descend(paddr, vaddr, entryFlags);
    }

    /** The present flag is added automatically. */
    method MapPage(paddr: bv64, vaddr: bv64, flags: bv32) returns (ok: bool)
      requires Valid()
      modifies this
      ensures Valid() && root == old(root)
      ensures MapOne(old(State()), root, paddr, vaddr, MapToEntryFlags(flags) | PRESENT) == Outcome(ok, State())
      ensures ok ==> W.Found(W.Look(mem, root, 3, vaddr), paddr, MapToEntryFlags(flags) | 0x1)
    {
      hide MapToEntryFlags;
      hide MapOne;
      hide W.Look;
      var entryFlags := MapToEntryFlags(flags) | PRESENT;
      ok := MapSinglePage(paddr, vaddr, entryFlags);
    }
  }
}
