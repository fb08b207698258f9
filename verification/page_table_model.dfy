/** Four-level translation tables, their walk (section 5.3 of the AMD64
    Architecture Programmer's Manual, Volume 2) and the mapping of one page
    (src/sys/kernel/arch/x86_64/src/page_table.cpp). */
module PageTableModel {

  import opened Shared

  // ---------- words ----------

  const PRESENT: bv64 := 0x1
  const WRITABLE: bv64 := 0x2
  const USER: bv64 := 0x4
  const LARGE_ENTRY: bv64 := 0x80
  const EXEC_DISABLE: bv64 := 0x8000_0000_0000_0000

  const ENTRY_ADDRESS_MASK: bv64 := 0x000F_FFFF_FFFF_F000
  const ENTITY_INDEX_MASK: bv64 := 511
  const MAX_LEVELS: nat := 4
  const SHIFT_BASE: bv64 := 12
  const SHIFT_INC: bv64 := 9

  /** The bits of a virtual address that the walk looks at. */
  const PAGE_BITS: bv64 := 0x0000_FFFF_FFFF_F000

  function EntryShift(level: nat): bv64 {
    if level == 0 then SHIFT_BASE else EntryShift(level - 1) + SHIFT_INC
  }

  lemma Shifts()
    ensures EntryShift(0) == 12 && EntryShift(1) == 21 && EntryShift(2) == 30 && EntryShift(3) == 39
  {
  }

  function IndexAt(v: bv64, shift: bv64): (i: bv64)
    requires shift <= 64
    ensures i < 512
  {
    (v >> shift) & ENTITY_INDEX_MASK
  }

  function Index(v: bv64, level: nat): (i: bv64)
    requires level < MAX_LEVELS
    ensures i < 512
  {
    Shifts();
    IndexAt(v, EntryShift(level))
  }

  function Address(entry: bv64): bv64 { entry & ENTRY_ADDRESS_MASK }

  function Flags(entry: bv64): bv64 { entry & !ENTRY_ADDRESS_MASK }

  /** The entry that points to the page of `p` with flags `f`. */
  function MakeEntry(p: bv64, f: bv64): bv64 { Address(p) | f }

  predicate Large(entry: bv64) { entry & LARGE_ENTRY != 0 }

  predicate Present(entry: bv64) { entry & PRESENT != 0 }

  predicate Aligned(p: bv64) { Address(p) == p }

  /** The address of entry `i` of the table at `p`; entries are eight bytes. */
  function Slot(p: bv64, i: bv64): bv64 { p | (i << 3) }

  lemma SlotInjective(p: bv64, i: bv64, q: bv64, j: bv64)
    requires Aligned(p) && Aligned(q) && i < 512 && j < 512 && Slot(p, i) == Slot(q, j)
    ensures p == q && i == j
  {
  }

  /** What the walk reads back out of an entry made of a page and flags. */
  lemma EntryAddress(p: bv64, f: bv64)
    requires f & ENTRY_ADDRESS_MASK == 0
    ensures Address(MakeEntry(p, f)) == Address(p)
  {
  }

  lemma EntryFlags(p: bv64, f: bv64)
    requires f & ENTRY_ADDRESS_MASK == 0
    ensures Flags(MakeEntry(p, f)) == f
  {
  }

  lemma EntryPresent(p: bv64, f: bv64)
    requires Present(f)
    ensures Present(MakeEntry(p, f))
  {
  }

  /** Two addresses lie in the same page exactly when all four indices agree. */
  ghost predicate SamePage(v: bv64, w: bv64) {
    v & PAGE_BITS == w & PAGE_BITS
  }

  ghost predicate Agree(v: bv64, w: bv64, levels: nat)
    requires levels <= MAX_LEVELS
  {
    forall l: nat :: l < levels ==> Index(v, l) == Index(w, l)
  }

  lemma SamePageAgrees(v: bv64, w: bv64)
    ensures SamePage(v, w) <==> Agree(v, w, MAX_LEVELS)
  {
    Shifts();
    if SamePage(v, w) {
      PageIndices(v, w);
      forall l: nat | l < MAX_LEVELS ensures Index(v, l) == Index(w, l) {
        if l == 0 {} else if l == 1 {} else if l == 2 {} else { assert l == 3; }
      }
    }
    if Agree(v, w, MAX_LEVELS) {
      assert Index(v, 0) == Index(w, 0) && Index(v, 1) == Index(w, 1)
        && Index(v, 2) == Index(w, 2) && Index(v, 3) == Index(w, 3);
      IndicesPage(v, w);
    }
  }

  lemma PageIndices(v: bv64, w: bv64)
    requires v & PAGE_BITS == w & PAGE_BITS
    ensures IndexAt(v, 12) == IndexAt(w, 12) && IndexAt(v, 21) == IndexAt(w, 21)
    ensures IndexAt(v, 30) == IndexAt(w, 30) && IndexAt(v, 39) == IndexAt(w, 39)
  {
  }

  lemma IndicesPage(v: bv64, w: bv64)
    requires IndexAt(v, 12) == IndexAt(w, 12) && IndexAt(v, 21) == IndexAt(w, 21)
    requires IndexAt(v, 30) == IndexAt(w, 30) && IndexAt(v, 39) == IndexAt(w, 39)
    ensures v & PAGE_BITS == w & PAGE_BITS
  {
  }

  // ---------- tables ----------

  /** Where a table hangs: its level, and the entry of the table above that
      points to it. */
  datatype Place = Place(level: nat, parent: bv64, index: bv64)

  type Memory = bv64 -> bv64
  type Places = bv64 -> Option<Place>

  /** Physical memory by eight-byte word, the pages `AllocatePage` will hand
      out, and the pages in use as tables. */
  datatype Tables = Tables(mem: Memory, supply: seq<bv64>, place: Places)

  function Write(mem: Memory, a: bv64, e: bv64): Memory {
    b => if b == a then e else mem(b)
  }

  function Put(place: Places, page: bv64, at: Place): Places {
    q => if q == page then Some(at) else place(q)
  }

  function Entry(mem: Memory, page: bv64, i: bv64): bv64 {
    mem(Slot(page, i))
  }

  ghost predicate IsTable(t: Tables, page: bv64, level: nat) {
    t.place(page).Some? && t.place(page).value.level == level
  }

  ghost predicate Zeroed(mem: Memory, page: bv64) {
    forall i: bv64 | i < 512 :: Entry(mem, page, i) == 0
  }

  /** The page of `t` that this entry leads to hangs exactly there, and nowhere
      else; large entries are not used. */
  ghost predicate LeadsDown(t: Tables, page: bv64, i: bv64)
    requires t.place(page).Some?
  {
    var e := Entry(t.mem, page, i);
    Present(e) && t.place(page).value.level > 0 ==>
      && !Large(e)
      && t.place(Address(e)).Some?
      && t.place(Address(e)).value == Place(t.place(page).value.level - 1, page, i)
  }

  /** A table other than the root hangs from a present entry of another one. */
  ghost predicate Hangs(t: Tables, root: bv64, page: bv64)
    requires t.place(page).Some?
  {
    var at := t.place(page).value;
    if page == root then at.level == MAX_LEVELS - 1
    else
      && t.place(at.parent).Some? && t.place(at.parent).value.level == at.level + 1 && at.index < 512
      && Present(Entry(t.mem, at.parent, at.index)) && Address(Entry(t.mem, at.parent, at.index)) == page
  }

  ghost predicate Fresh(t: Tables, page: bv64) {
    Aligned(page) && page != 0 && t.place(page).None? && Zeroed(t.mem, page)
  }

  /** The tables are disjoint pages that form a tree under the root, and the
      supply holds fresh, zeroed pages. */
  ghost predicate WellFormed(t: Tables, root: bv64) {
    && t.place(root).Some?
    && (forall page | t.place(page).Some? ::
          Aligned(page) && t.place(page).value.level < MAX_LEVELS && Hangs(t, root, page))
    && (forall page, i: bv64 | t.place(page).Some? && i < 512 :: LeadsDown(t, page, i))
    && (forall k | 0 <= k < |t.supply| :: Fresh(t, t.supply[k]))
    && (forall j, k | 0 <= j < k < |t.supply| :: t.supply[j] != t.supply[k])
  }

  // ---------- the walk ----------

  /** The page frame, the flags of the last entry, and the rights that the
      entries of all levels grant together. */
  datatype Translation = Translation(frame: bv64, flags: bv64, rights: bv64)

  const RIGHTS: bv64 := WRITABLE | USER | EXEC_DISABLE

  /** The rights one entry grants, as bits that are set when granted: the
      disable-execution bit is turned around. */
  function Grants(entry: bv64): bv64 {
    (entry ^ EXEC_DISABLE) & RIGHTS
  }

  function Walk(mem: Memory, page: bv64, level: nat, v: bv64): Option<Translation>
    requires level < MAX_LEVELS
    decreases level
  {
    var e := Entry(mem, page, Index(v, level));
    if !Present(e) then None
    else if level == 0 then Some(Translation(Address(e), Flags(e), Grants(e)))
    else Under(e, Walk(mem, Address(e), level - 1, v))
  }

  function Under(e: bv64, w: Option<Translation>): Option<Translation> {
    if w.None? then None else Some(w.value.(rights := w.value.rights & Grants(e)))
  }

  /** The rights granted by the entries above the last level that are already
      there on the way to `v`. */
  function Upper(mem: Memory, page: bv64, level: nat, v: bv64): bv64
    requires level < MAX_LEVELS
    decreases level
  {
    var e := Entry(mem, page, Index(v, level));
    if level == 0 || !Present(e) then RIGHTS
    else Grants(e) & Upper(mem, Address(e), level - 1, v)
  }

  // ---------- mapping ----------

  datatype Outcome = Outcome(ok: bool, t: Tables)

  function SetEntry(t: Tables, page: bv64, i: bv64, e: bv64): Tables {
    t.(mem := Write(t.mem, Slot(page, i), e))
  }

  /** A missing entry gets the next page of the supply. */
  function Attach(t: Tables, page: bv64, level: nat, i: bv64, f: bv64): Tables
    requires level > 0 && t.supply != []
  {
    var child := t.supply[0];
    Tables(Write(t.mem, Slot(page, i), MakeEntry(child, f)), t.supply[1..],
           Put(t.place, child, Place(level - 1, page, i)))
  }

  /** What `MapSinglePage` does from the table `page` of `level` down. */
  function MapFrom(t: Tables, page: bv64, level: nat, p: bv64, v: bv64, f: bv64): Outcome
    requires level < MAX_LEVELS
    decreases level
  {
    var i := Index(v, level);
    var e := Entry(t.mem, page, i);
    if level == 0 then Outcome(true, SetEntry(t, page, i, MakeEntry(p, f)))
    else if Present(e) then MapFrom(t, Address(e), level - 1, p, v, f)
    else if t.supply == [] then Outcome(false, t)
    else MapFrom(Attach(t, page, level, i, f), Address(MakeEntry(t.supply[0], f)), level - 1, p, v, f)
  }

  /** Flags a caller may pass: present, small, and clear of the address bits. */
  predicate GoodFlags(f: bv64) {
    Present(f) && !Large(f) && f & ENTRY_ADDRESS_MASK == 0
  }

  // ---------- frames ----------

  /** Only one word of the table `page` differs between the memories. */
  ghost predicate OneEntry(t: Tables, m: Memory, page: bv64, i: bv64) {
    forall q, j: bv64 | Aligned(q) && j < 512 && (q != page || j != i) :: Entry(m, q, j) == Entry(t.mem, q, j)
  }

  lemma SetOne(t: Tables, page: bv64, i: bv64, e: bv64)
    requires Aligned(page) && i < 512
    ensures var m := Write(t.mem, Slot(page, i), e); OneEntry(t, m, page, i) && Entry(m, page, i) == e
  {
    hide Slot;
    hide Aligned;
    var a := Slot(page, i);
    var m := Write(t.mem, a, e);
    forall q, j: bv64 | Aligned(q) && j < 512 && (q != page || j != i) ensures Entry(m, q, j) == Entry(t.mem, q, j) {
      if Slot(q, j) == a { SlotInjective(q, j, page, i); }
    }
  }

  /** A changed entry of `page` is out of reach of the walk from any other
      table of the same level or a lower one. */
  lemma {:induction false} WalkElsewhere(t: Tables, root: bv64, m: Memory, page: bv64, i: bv64, q: bv64,
          level: nat, w: bv64)
    requires WellFormed(t, root) && OneEntry(t, m, page, i)
    requires t.place(page).Some? && level <= t.place(page).value.level && q != page && IsTable(t, q, level)
    ensures Walk(m, q, level, w) == Walk(t.mem, q, level, w)
    decreases level
  {
    var j := Index(w, level);
    var e := Entry(t.mem, q, j);
    assert Entry(m, q, j) == e;
    if level > 0 && Present(e) {
      assert LeadsDown(t, q, j);
      WalkElsewhere(t, root, m, page, i, Address(e), level - 1, w);
    }
  }

  lemma WalkZeroed(m: Memory, page: bv64, level: nat, w: bv64)
    requires Zeroed(m, page) && level < MAX_LEVELS
    ensures Walk(m, page, level, w) == None
  {
    assert Entry(m, page, Index(w, level)) == 0;
  }

  // ---------- one step ----------

  lemma LeafKeeps(t: Tables, root: bv64, page: bv64, i: bv64, e: bv64)
    requires WellFormed(t, root) && IsTable(t, page, 0) && i < 512
    ensures WellFormed(SetEntry(t, page, i, e), root)
  {
    hide Slot;
    hide Present;
    hide Address;
    var u := SetEntry(t, page, i, e);
    SetOne(t, page, i, e);
    forall q | u.place(q).Some? ensures Aligned(q) && u.place(q).value.level < MAX_LEVELS && Hangs(u, root, q) {
      assert Hangs(t, root, q);
    }
    forall q, j: bv64 | u.place(q).Some? && j < 512 ensures LeadsDown(u, q, j) {
      assert LeadsDown(t, q, j);
    }
    forall k | 0 <= k < |u.supply| ensures Fresh(u, u.supply[k]) {
      assert Fresh(t, t.supply[k]);
    }
  }

  /** A missing entry of the table `page`, and a page to put there. */
  ghost predicate Gap(t: Tables, root: bv64, page: bv64, level: nat, i: bv64, f: bv64) {
    && WellFormed(t, root) && IsTable(t, page, level) && level > 0 && i < 512
    && !Present(Entry(t.mem, page, i)) && t.supply != [] && GoodFlags(f)
  }

  lemma AttachEntry(t: Tables, root: bv64, page: bv64, level: nat, i: bv64, f: bv64)
    requires Gap(t, root, page, level, i, f)
    ensures var u, child := Attach(t, page, level, i, f), t.supply[0];
      && IsTable(u, child, level - 1) && page != child
      && Address(Entry(u.mem, page, i)) == child && Present(Entry(u.mem, page, i))
      && Entry(u.mem, page, i) == MakeEntry(child, f)
      && OneEntry(t, u.mem, page, i) && Zeroed(u.mem, child) && !Large(Entry(u.mem, page, i))
  {
    hide Slot;
    hide MakeEntry;
    hide Present;
    hide Address;
    hide Large;
    hide LeadsDown;
    hide Hangs;
    var u, child := Attach(t, page, level, i, f), t.supply[0];
    assert Fresh(t, child);
    SetOne(t, page, i, MakeEntry(child, f));
    EntryAddress(child, f);
    EntryPresent(child, f);
    NotLarge(child, f);
  }

  lemma AttachHangs(t: Tables, root: bv64, page: bv64, level: nat, i: bv64, f: bv64, q: bv64)
    requires Gap(t, root, page, level, i, f)
    requires Attach(t, page, level, i, f).place(q).Some?
    ensures var u := Attach(t, page, level, i, f);
      Aligned(q) && u.place(q).value.level < MAX_LEVELS
      && Hangs(u, root, q)
  {
    AttachEntry(t, root, page, level, i, f);
    assert Fresh(t, t.supply[0]);
    hide Slot;
    hide Present;
    hide Address;
    hide LeadsDown;
    if q != t.supply[0] {
      assert Hangs(t, root, q);
    }
  }

  lemma AttachLeads(t: Tables, root: bv64, page: bv64, level: nat, i: bv64, f: bv64, q: bv64, j: bv64)
    requires Gap(t, root, page, level, i, f)
    requires Attach(t, page, level, i, f).place(q).Some? && j < 512
    ensures LeadsDown(Attach(t, page, level, i, f), q, j)
  {
    var u, child := Attach(t, page, level, i, f), t.supply[0];
    AttachEntry(t, root, page, level, i, f);
    assert Fresh(t, child);
    ZeroEntry();
    hide Slot;
    hide Present;
    hide Address;
    hide Hangs;
    if q == child {
      assert Entry(u.mem, q, j) == 0;
    } else {
      assert LeadsDown(t, q, j);
    }
  }

  lemma AttachSupply(t: Tables, root: bv64, page: bv64, level: nat, i: bv64, f: bv64, k: nat)
    requires Gap(t, root, page, level, i, f)
    requires k < |t.supply| - 1
    ensures Fresh(Attach(t, page, level, i, f), t.supply[k + 1])
  {
    AttachEntry(t, root, page, level, i, f);
    assert Fresh(t, t.supply[k + 1]);
    hide Slot;
    hide Present;
    hide LeadsDown;
    hide Hangs;
  }

  lemma AttachKeeps(t: Tables, root: bv64, page: bv64, level: nat, i: bv64, f: bv64)
    requires Gap(t, root, page, level, i, f)
    ensures WellFormed(Attach(t, page, level, i, f), root)
  {
    var u := Attach(t, page, level, i, f);
    forall q | u.place(q).Some? ensures Aligned(q) && u.place(q).value.level < MAX_LEVELS && Hangs(u, root, q) {
      AttachHangs(t, root, page, level, i, f, q);
    }
    forall q, j: bv64 | u.place(q).Some? && j < 512 ensures LeadsDown(u, q, j) {
      AttachLeads(t, root, page, level, i, f, q, j);
    }
    forall k | 0 <= k < |u.supply| ensures Fresh(u, u.supply[k]) {
      AttachSupply(t, root, page, level, i, f, k);
    }
    hide Slot;
    hide Present;
    hide LeadsDown;
    hide Hangs;
    hide Fresh;
    hide Aligned;
  }

  lemma NotLarge(p: bv64, f: bv64)
    requires !Large(f)
    ensures !Large(MakeEntry(p, f))
  {
  }

  lemma ZeroEntry()
    ensures !Present(0)
  {
  }

  // ---------- the whole descent ----------

  /** No table is lost or moved, and of the tables of `level` or above only
      entry `i` of `page` may change. */
  ghost predicate Frame(t: Tables, u: Tables, page: bv64, level: nat, i: bv64) {
    && (forall q | t.place(q).Some? :: u.place(q) == t.place(q))
    && (forall q, j: bv64 | t.place(q).Some? && t.place(q).value.level >= level && j < 512 && (q != page || j != i) ::
          Entry(u.mem, q, j) == Entry(t.mem, q, j))
  }

  /** The walks from the other tables of `level` stay as they are. */
  ghost predicate Beside(t: Tables, u: Tables, page: bv64, level: nat)
    requires level < MAX_LEVELS
  {
    forall q, w | IsTable(t, q, level) && q != page :: Walk(u.mem, q, level, w) == Walk(t.mem, q, level, w)
  }

  /** The walk of `v` from `page` yields the new page; every other walk, or all
      of them when the supply ran out, stays as it is. */
  ghost predicate Maps(t: Tables, o: Outcome, page: bv64, level: nat, p: bv64, v: bv64, f: bv64)
    requires level < MAX_LEVELS
  {
    && (o.ok ==>
      Walk(o.t.mem, page, level, v) == Some(Translation(Address(p), f, Grants(f) & Upper(t.mem, page, level, v))))
    && (forall w | !o.ok || !Agree(v, w, level + 1) :: Walk(o.t.mem, page, level, w) == Walk(t.mem, page, level, w))
  }

  lemma MeetLaws(a: bv64, b: bv64, c: bv64)
    ensures (a & b) & c == a & (c & b) && Grants(a) & RIGHTS == Grants(a) && Grants(a) & Grants(a) == Grants(a)
  {
  }

  lemma EntryGrants(p: bv64, f: bv64)
    ensures Grants(MakeEntry(p, f)) == Grants(f)
  {
  }

  lemma BesideOne(t: Tables, root: bv64, u: Tables, page: bv64, level: nat, i: bv64)
    requires WellFormed(t, root) && IsTable(t, page, level) && level < MAX_LEVELS && OneEntry(t, u.mem, page, i)
    ensures Beside(t, u, page, level)
  {
    forall q, w | IsTable(t, q, level) && q != page ensures Walk(u.mem, q, level, w) == Walk(t.mem, q, level, w) {
      WalkElsewhere(t, root, u.mem, page, i, q, level, w);
    }
    hide WellFormed;
    hide Walk;
    hide OneEntry;
  }

  /** What the last level of the walk sees of a changed entry. */
  lemma LastEntry(t: Tables, m: Memory, page: bv64, p: bv64, v: bv64, f: bv64, w: bv64)
    requires Aligned(page) && OneEntry(t, m, page, Index(v, 0))
      && Entry(m, page, Index(v, 0)) == MakeEntry(p, f) && GoodFlags(f)
    ensures Walk(m, page, 0, v) == Some(Translation(Address(p), f, Grants(f)))
    ensures !Agree(v, w, 1) ==> Walk(m, page, 0, w) == Walk(t.mem, page, 0, w)
  {
    EntryAddress(p, f);
    EntryFlags(p, f);
    EntryPresent(p, f);
    EntryGrants(p, f);
    hide Slot;
    hide MakeEntry;
    hide Present;
    hide Address;
    hide Grants;
    hide Flags;
    hide Index;
  }

  lemma LeafMaps(t: Tables, root: bv64, page: bv64, p: bv64, v: bv64, f: bv64)
    requires WellFormed(t, root) && IsTable(t, page, 0) && GoodFlags(f)
    ensures var o := MapFrom(t, page, 0, p, v, f);
      WellFormed(o.t, root) && Frame(t, o.t, page, 0, Index(v, 0))
      && Beside(t, o.t, page, 0) && Maps(t, o, page, 0, p, v, f)
  {
    var i, e := Index(v, 0), MakeEntry(p, f);
    var o := MapFrom(t, page, 0, p, v, f);
    LeafKeeps(t, root, page, i, e);
    SetOne(t, page, i, e);
    BesideOne(t, root, o.t, page, 0, i);
    MeetLaws(f, 0, 0);
    forall w {
      LastEntry(t, o.t.mem, page, p, v, f, w);
    }
    hide Slot;
    hide MakeEntry;
    hide Present;
    hide Address;
    hide LeadsDown;
    hide Hangs;
    hide Grants;
    hide Walk;
    hide Index;
    hide WellFormed;
  }

  // From a table to the one below: what holds of the descent from `child`
  // holds of the descent from `page`.

  ghost predicate Below(t: Tables, root: bv64, page: bv64, level: nat, i: bv64, child: bv64) {
    && WellFormed(t, root) && IsTable(t, page, level) && 0 < level < MAX_LEVELS && i < 512
    && Present(Entry(t.mem, page, i)) && child == Address(Entry(t.mem, page, i))
  }

  lemma ChildOf(t: Tables, root: bv64, page: bv64, level: nat, i: bv64, child: bv64)
    requires Below(t, root, page, level, i, child)
    ensures IsTable(t, child, level - 1) && t.place(child) == Some(Place(level - 1, page, i)) && child != page
  {
    assert LeadsDown(t, page, i);
  }

  lemma FrameUp(t: Tables, u: Tables, root: bv64, page: bv64, level: nat, i: bv64, child: bv64, k: bv64)
    requires Below(t, root, page, level, i, child) && Frame(t, u, child, level - 1, k)
    ensures Frame(t, u, page, level, i) && Entry(u.mem, page, i) == Entry(t.mem, page, i)
  {
    ChildOf(t, root, page, level, i, child);
    hide WellFormed;
    hide Slot;
  }

  lemma WalkDown(t: Tables, u: Tables, root: bv64, page: bv64, level: nat, i: bv64, child: bv64, q: bv64, w: bv64)
    requires Below(t, root, page, level, i, child)
    requires Beside(t, u, child, level - 1) && IsTable(t, q, level) && (q != page || Index(w, level) != i)
    requires Entry(u.mem, q, Index(w, level)) == Entry(t.mem, q, Index(w, level))
    ensures Walk(u.mem, q, level, w) == Walk(t.mem, q, level, w)
  {
    var e := Entry(t.mem, q, Index(w, level));
    ChildOf(t, root, page, level, i, child);
    if Present(e) {
      ChildOf(t, root, q, level, Index(w, level), Address(e));
      assert Walk(u.mem, Address(e), level - 1, w) == Walk(t.mem, Address(e), level - 1, w);
    }
    hide WellFormed;
    hide Slot;
    hide Present;
    hide Index;
    hide Address;
  }

  lemma BesideUp(t: Tables, u: Tables, root: bv64, page: bv64, level: nat, i: bv64, child: bv64, k: bv64)
    requires Below(t, root, page, level, i, child) && Frame(t, u, child, level - 1, k) && Beside(t, u, child, level - 1)
    ensures Beside(t, u, page, level)
  {
    forall q, w | IsTable(t, q, level) && q != page ensures Walk(u.mem, q, level, w) == Walk(t.mem, q, level, w) {
      FrameUp(t, u, root, page, level, i, child, k);
      WalkDown(t, u, root, page, level, i, child, q, w);
    }
    hide WellFormed;
    hide Walk;
    hide Frame;
    hide Below;
    hide Index;
    hide Entry;
  }

  /** The walk through the entry that the descent takes. */
  lemma WalkThrough(m: Memory, page: bv64, level: nat, w: bv64)
    requires 0 < level < MAX_LEVELS && Present(Entry(m, page, Index(w, level)))
    ensures var e := Entry(m, page, Index(w, level));
      && Walk(m, page, level, w) == Under(e, Walk(m, Address(e), level - 1, w))
      && Upper(m, page, level, w) == Grants(e) & Upper(m, Address(e), level - 1, w)
  {
    hide Present;
    hide Grants;
    hide Address;
  }

  lemma NewUp(t: Tables, o: Outcome, root: bv64, page: bv64, level: nat, child: bv64, k: bv64, p: bv64,
          v: bv64, f: bv64)
    requires level < MAX_LEVELS && Below(t, root, page, level, Index(v, level), child)
    requires Frame(t, o.t, child, level - 1, k) && Maps(t, o, child, level - 1, p, v, f) && o.ok
    ensures Walk(o.t.mem, page, level, v) == Some(Translation(Address(p), f, Grants(f) & Upper(t.mem, page, level, v)))
  {
    var e := Entry(t.mem, page, Index(v, level));
    FrameUp(t, o.t, root, page, level, Index(v, level), child, k);
    WalkThrough(t.mem, page, level, v);
    WalkThrough(o.t.mem, page, level, v);
    MeetLaws(Grants(f), Upper(t.mem, child, level - 1, v), Grants(e));
    hide WellFormed;
    hide Walk;
    hide Upper;
    hide Index;
    hide Address;
    hide Present;
    hide Grants;
    hide Entry;
    hide Frame;
  }

  lemma SameUp(t: Tables, o: Outcome, root: bv64, page: bv64, level: nat, child: bv64, k: bv64, v: bv64, w: bv64)
    requires level < MAX_LEVELS && Below(t, root, page, level, Index(v, level), child)
    requires Frame(t, o.t, child, level - 1, k) && Index(w, level) == Index(v, level)
    requires Walk(o.t.mem, child, level - 1, w) == Walk(t.mem, child, level - 1, w)
    ensures Walk(o.t.mem, page, level, w) == Walk(t.mem, page, level, w)
  {
    hide WellFormed;
    hide Walk;
    hide Upper;
    hide Index;
    hide Address;
    hide Present;
    hide Grants;
    hide Entry;
    hide Frame;
    FrameUp(t, o.t, root, page, level, Index(v, level), child, k);
    WalkThrough(t.mem, page, level, w);
    WalkThrough(o.t.mem, page, level, w);
  }

  lemma ApartUp(t: Tables, u: Tables, root: bv64, page: bv64, level: nat, i: bv64, child: bv64, k: bv64, w: bv64)
    requires level < MAX_LEVELS && Below(t, root, page, level, i, child)
    requires Frame(t, u, child, level - 1, k) && Beside(t, u, child, level - 1) && Index(w, level) != i
    ensures Walk(u.mem, page, level, w) == Walk(t.mem, page, level, w)
  {
    hide WellFormed;
    hide Walk;
    hide Beside;
    hide Index;
    hide Address;
    hide Present;
    hide Entry;
    FrameUp(t, u, root, page, level, i, child, k);
    assert Entry(u.mem, page, Index(w, level)) == Entry(t.mem, page, Index(w, level));
    WalkDown(t, u, root, page, level, i, child, page, w);
  }

  lemma OtherUp(t: Tables, o: Outcome, root: bv64, page: bv64, level: nat, child: bv64, k: bv64, p: bv64,
          v: bv64, f: bv64, w: bv64)
    requires level < MAX_LEVELS && Below(t, root, page, level, Index(v, level), child)
    requires Frame(t, o.t, child, level - 1, k) && Beside(t, o.t, child, level - 1)
      && Maps(t, o, child, level - 1, p, v, f)
    requires !o.ok || !Agree(v, w, level + 1)
    ensures Walk(o.t.mem, page, level, w) == Walk(t.mem, page, level, w)
  {
    hide WellFormed;
    hide Walk;
    hide Upper;
    hide Beside;
    hide Frame;
    hide Below;
    hide Index;
    hide Grants;
    hide Address;
    if Index(w, level) == Index(v, level) {
      assert Agree(v, w, level) ==> Agree(v, w, level + 1);
      SameUp(t, o, root, page, level, child, k, v, w);
    } else {
      ApartUp(t, o.t, root, page, level, Index(v, level), child, k, w);
    }
  }

  lemma MapsUp(t: Tables, o: Outcome, root: bv64, page: bv64, level: nat, child: bv64, k: bv64, p: bv64,
          v: bv64, f: bv64)
    requires level < MAX_LEVELS && Below(t, root, page, level, Index(v, level), child)
    requires Frame(t, o.t, child, level - 1, k) && Beside(t, o.t, child, level - 1)
      && Maps(t, o, child, level - 1, p, v, f)
    ensures Maps(t, o, page, level, p, v, f)
  {
    if o.ok {
      NewUp(t, o, root, page, level, child, k, p, v, f);
    }
    forall w | !o.ok || !Agree(v, w, level + 1) ensures Walk(o.t.mem, page, level, w) == Walk(t.mem, page, level, w) {
      OtherUp(t, o, root, page, level, child, k, p, v, f, w);
    }
    hide WellFormed;
    hide Walk;
    hide Upper;
    hide Beside;
    hide Frame;
    hide Below;
    hide Index;
    hide Grants;
    hide Address;
    hide Agree;
  }

  // The step that attaches a page first.

  lemma AttachBelow(t: Tables, root: bv64, page: bv64, level: nat, i: bv64, f: bv64)
    requires Gap(t, root, page, level, i, f) && level < MAX_LEVELS
    ensures var u := Attach(t, page, level, i, f);
      Below(u, root, page, level, i, t.supply[0]) && Beside(t, u, page, level) && Frame(t, u, page, level, i)
  {
    AttachEntry(t, root, page, level, i, f);
    AttachKeeps(t, root, page, level, i, f);
    BesideOne(t, root, Attach(t, page, level, i, f), page, level, i);
    assert Fresh(t, t.supply[0]);
    hide Slot;
    hide Address;
    hide Present;
    hide MakeEntry;
    hide Walk;
    hide LeadsDown;
    hide Hangs;
    hide Beside;
  }

  lemma PageAligned(t: Tables, root: bv64, page: bv64)
    requires WellFormed(t, root) && t.place(page).Some?
    ensures Aligned(page)
  {
  }

  lemma AttachHit(t: Tables, root: bv64, page: bv64, level: nat, i: bv64, f: bv64, w: bv64)
    requires Gap(t, root, page, level, i, f) && level < MAX_LEVELS && Index(w, level) == i
    ensures var u := Attach(t, page, level, i, f);
      && Walk(u.mem, page, level, w) == None == Walk(t.mem, page, level, w)
      && Upper(u.mem, page, level, w) == Grants(f) && Upper(t.mem, page, level, w) == RIGHTS
  {
    var u := Attach(t, page, level, i, f);
    AttachEntry(t, root, page, level, i, f);
    WalkZeroed(u.mem, t.supply[0], level - 1, w);
    WalkThrough(u.mem, page, level, w);
    EntryGrants(t.supply[0], f);
    MeetLaws(f, 0, 0);
    ZeroEntry();
    assert Entry(u.mem, t.supply[0], Index(w, level - 1)) == 0;
    hide WellFormed;
    hide Slot;
    hide Address;
    hide Present;
    hide MakeEntry;
    hide Grants;
    hide Index;
  }

  lemma AttachMiss(t: Tables, root: bv64, page: bv64, level: nat, i: bv64, f: bv64, w: bv64)
    requires Gap(t, root, page, level, i, f) && level < MAX_LEVELS && Index(w, level) != i
    ensures Walk(Attach(t, page, level, i, f).mem, page, level, w) == Walk(t.mem, page, level, w)
  {
    hide WellFormed;
    hide Slot;
    hide Address;
    hide Present;
    hide MakeEntry;
    hide Index;
    var u, j := Attach(t, page, level, i, f), Index(w, level);
    AttachEntry(t, root, page, level, i, f);
    PageAligned(t, root, page);
    var e := Entry(t.mem, page, j);
    assert Entry(u.mem, page, j) == e;
    hide Entry;
    if Present(e) {
      ChildOf(t, root, page, level, j, Address(e));
      WalkElsewhere(t, root, u.mem, page, i, Address(e), level - 1, w);
      WalkThrough(u.mem, page, level, w);
      WalkThrough(t.mem, page, level, w);
    }
  }

  /** Attaching an empty table changes no walk, and the new entry withholds
      none of the rights asked for. */
  lemma AttachMaps(t: Tables, o: Outcome, root: bv64, page: bv64, level: nat, p: bv64, v: bv64, f: bv64)
    requires level < MAX_LEVELS && Gap(t, root, page, level, Index(v, level), f)
    requires Maps(Attach(t, page, level, Index(v, level), f), o, page, level, p, v, f)
    ensures Maps(t, o, page, level, p, v, f)
  {
    var i := Index(v, level);
    var u := Attach(t, page, level, i, f);
    AttachHit(t, root, page, level, i, f, v);
    MeetLaws(f, 0, 0);
    hide Gap;
    hide Walk;
    hide Upper;
    hide Index;
    hide Grants;
    hide Address;
    hide Attach;
    hide Agree;
    forall w | !o.ok || !Agree(v, w, level + 1) ensures Walk(o.t.mem, page, level, w) == Walk(t.mem, page, level, w) {
      if Index(w, level) == i {
        AttachHit(t, root, page, level, i, f, w);
      } else {
        AttachMiss(t, root, page, level, i, f, w);
      }
    }
  }

  /** Everything a descent does: the tables stay a tree of disjoint pages, only
      the path of `v` is touched, and the walk of `v` alone changes. */
  ghost predicate Descends(t: Tables, root: bv64, o: Outcome, page: bv64, level: nat, p: bv64, v: bv64, f: bv64)
    requires level < MAX_LEVELS
  {
    && WellFormed(o.t, root) && Frame(t, o.t, page, level, Index(v, level))
    && Beside(t, o.t, page, level) && Maps(t, o, page, level, p, v, f)
  }

  lemma {:induction false} MapLaw(t: Tables, root: bv64, page: bv64, level: nat, p: bv64, v: bv64, f: bv64)
    requires level < MAX_LEVELS && WellFormed(t, root) && IsTable(t, page, level) && GoodFlags(f)
    ensures Descends(t, root, MapFrom(t, page, level, p, v, f), page, level, p, v, f)
    decreases level
  {
    var i := Index(v, level);
    var e := Entry(t.mem, page, i);
    if level == 0 {
      LeafMaps(t, root, page, p, v, f);
    } else if Present(e) {
      PresentLaw(t, root, page, level, p, v, f);
    } else if t.supply != [] {
      AbsentLaw(t, root, page, level, p, v, f);
    }
    hide WellFormed;
    hide Walk;
    hide Upper;
    hide Entry;
    hide Index;
    hide Present;
    hide Grants;
    hide Address;
  }

  lemma {:induction false} PresentLaw(t: Tables, root: bv64, page: bv64, level: nat, p: bv64, v: bv64, f: bv64)
    requires level < MAX_LEVELS && GoodFlags(f)
    requires Below(t, root, page, level, Index(v, level), Address(Entry(t.mem, page, Index(v, level))))
    ensures Descends(t, root, MapFrom(t, page, level, p, v, f), page, level, p, v, f)
    decreases level, 0
  {
    hide WellFormed;
    hide Walk;
    hide Upper;
    hide Entry;
    hide Index;
    hide Present;
    hide Grants;
    hide Address;
    hide GoodFlags;
    hide Frame;
    hide Beside;
    hide Maps;
    var i, k := Index(v, level), Index(v, level - 1);
    var child := Address(Entry(t.mem, page, i));
    var o := MapFrom(t, child, level - 1, p, v, f);
    assert MapFrom(t, page, level, p, v, f) == o;
    ChildOf(t, root, page, level, i, child);
    MapLaw(t, root, child, level - 1, p, v, f);
    hide MapFrom;
    hide Below;
    FrameUp(t, o.t, root, page, level, i, child, k);
    BesideUp(t, o.t, root, page, level, i, child, k);
    MapsUp(t, o, root, page, level, child, k, p, v, f);
  }

  lemma Compose(t: Tables, u: Tables, o: Tables, page: bv64, level: nat, i: bv64)
    requires level < MAX_LEVELS && Frame(t, u, page, level, i) && Beside(t, u, page, level)
    requires Frame(u, o, page, level, i) && Beside(u, o, page, level)
    ensures Frame(t, o, page, level, i) && Beside(t, o, page, level)
  {
    hide Walk;
    hide Entry;
    forall q, w | IsTable(t, q, level) && q != page ensures Walk(o.mem, q, level, w) == Walk(t.mem, q, level, w) {
      assert IsTable(u, q, level);
    }
  }

  lemma {:induction false} AbsentLaw(t: Tables, root: bv64, page: bv64, level: nat, p: bv64, v: bv64, f: bv64)
    requires level < MAX_LEVELS && Gap(t, root, page, level, Index(v, level), f)
    ensures Descends(t, root, MapFrom(t, page, level, p, v, f), page, level, p, v, f)
    decreases level, 1
  {
    hide MapFrom;
    hide WellFormed;
    hide Walk;
    hide Upper;
    hide Entry;
    hide Index;
    hide Present;
    hide Grants;
    hide Address;
    hide Attach;
    hide Frame;
    hide Beside;
    hide Maps;
    hide Below;
    var i := Index(v, level);
    var u := Attach(t, page, level, i, f);
    var o := MapFrom(u, page, level, p, v, f);
    AttachBelow(t, root, page, level, i, f);
    MapAttached(t, root, page, level, p, v, f);
    PresentLaw(u, root, page, level, p, v, f);
    hide Gap;
    Compose(t, u, o.t, page, level, i);
    AttachMaps(t, o, root, page, level, p, v, f);
  }

  /** Descending into the table just attached is descending again. */
  lemma MapAttached(t: Tables, root: bv64, page: bv64, level: nat, p: bv64, v: bv64, f: bv64)
    requires level < MAX_LEVELS && Gap(t, root, page, level, Index(v, level), f)
    ensures var u := Attach(t, page, level, Index(v, level), f);
      && MapFrom(t, page, level, p, v, f) == MapFrom(u, page, level, p, v, f)
      && Address(Entry(u.mem, page, Index(v, level))) == t.supply[0]
  {
    AttachEntry(t, root, page, level, Index(v, level), f);
    EntryAddress(t.supply[0], f);
    assert Fresh(t, t.supply[0]);
    hide WellFormed;
    hide Walk;
    hide Slot;
    hide Index;
    hide Present;
    hide MakeEntry;
    hide Address;
  }

  // ---------- one call ----------

  const TOP: nat := MAX_LEVELS - 1

  function Translate(t: Tables, root: bv64, v: bv64): Option<Translation> {
    Walk(t.mem, root, TOP, v)
  }

  function MapOne(t: Tables, root: bv64, p: bv64, v: bv64, f: bv64): Outcome {
    MapFrom(t, root, TOP, p, v, f)
  }

  /** Mapping a page updates the translation of that page and of no other. */
  lemma MapOneLaw(t: Tables, root: bv64, p: bv64, v: bv64, f: bv64)
    requires WellFormed(t, root) && GoodFlags(f)
    ensures var o := MapOne(t, root, p, v, f);
      && WellFormed(o.t, root)
      && (o.ok ==> Translate(o.t, root, v) == Some(Translation(Address(p), f, Grants(f) & Upper(t.mem, root, TOP, v))))
      && (forall w | !o.ok || !SamePage(v, w) :: Translate(o.t, root, w) == Translate(t, root, w))
      && (forall w | o.ok && SamePage(v, w) :: Translate(o.t, root, w) == Translate(o.t, root, v))
  {
    var o := MapOne(t, root, p, v, f);
    assert Hangs(t, root, root);
    MapLaw(t, root, root, TOP, p, v, f);
    hide WellFormed;
    hide Walk;
    hide Upper;
    hide MapFrom;
    hide Grants;
    hide Address;
    hide SamePage;
    hide Agree;
    forall w | !o.ok || !SamePage(v, w) ensures Translate(o.t, root, w) == Translate(t, root, w) {
      SamePageAgrees(v, w);
    }
    forall w | o.ok && SamePage(v, w) ensures Translate(o.t, root, w) == Translate(o.t, root, v) {
      SamePageAgrees(v, w);
      SameWalk(o.t.mem, root, TOP, v, w);
    }
  }

  lemma {:induction false} SameWalk(m: Memory, page: bv64, level: nat, v: bv64, w: bv64)
    requires level < MAX_LEVELS && Agree(v, w, level + 1)
    ensures Walk(m, page, level, v) == Walk(m, page, level, w)
    decreases level
  {
    hide Index;
    hide Present;
    hide Address;
    assert Index(v, level) == Index(w, level);
    if level > 0 && Present(Entry(m, page, Index(v, level))) {
      SameWalk(m, Address(Entry(m, page, Index(v, level))), level - 1, v, w);
    }
  }

  // ---------- how many pages a call needs ----------

  /** The number of tables that are missing on the way to `v`. */
  function Missing(m: Memory, page: bv64, level: nat, v: bv64): nat
    requires level < MAX_LEVELS
    decreases level
  {
    var e := Entry(m, page, Index(v, level));
    if level == 0 then 0
    else if !Present(e) then level
    else Missing(m, Address(e), level - 1, v)
  }

  /** A call fails exactly when the supply is short of the missing tables, and
      takes exactly those from its front. */
  lemma {:induction false} SupplyLaw(t: Tables, root: bv64, page: bv64, level: nat, p: bv64, v: bv64, f: bv64)
    requires level < MAX_LEVELS && WellFormed(t, root) && IsTable(t, page, level) && GoodFlags(f)
    ensures var o, n := MapFrom(t, page, level, p, v, f), Missing(t.mem, page, level, v);
      && (o.ok <==> n <= |t.supply|)
      && o.t.supply == if o.ok then t.supply[n..] else []
    decreases level
  {
    hide WellFormed;
    hide Index;
    hide Present;
    hide Address;
    hide Entry;
    hide Large;
    var i := Index(v, level);
    var e := Entry(t.mem, page, i);
    if level == 0 {
    } else if Present(e) {
      ChildOf(t, root, page, level, i, Address(e));
      SupplyLaw(t, root, Address(e), level - 1, p, v, f);
    } else if t.supply != [] {
      SupplyAttached(t, root, page, level, p, v, f);
    }
  }

  lemma {:induction false} SupplyAttached(t: Tables, root: bv64, page: bv64, level: nat, p: bv64, v: bv64, f: bv64)
    requires level < MAX_LEVELS && Gap(t, root, page, level, Index(v, level), f)
    ensures var o := MapFrom(t, page, level, p, v, f);
      && (o.ok <==> level <= |t.supply|)
      && o.t.supply == if o.ok then t.supply[level..] else []
    decreases level, 0
  {
    var i, child := Index(v, level), t.supply[0];
    var u := Attach(t, page, level, i, f);
    AttachEntry(t, root, page, level, i, f);
    AttachKeeps(t, root, page, level, i, f);
    EntryAddress(child, f);
    assert Fresh(t, child);
    ZeroEntry();
    hide WellFormed;
    hide Index;
    hide Present;
    hide Address;
    hide MakeEntry;
    hide Slot;
    assert MapFrom(t, page, level, p, v, f) == MapFrom(u, child, level - 1, p, v, f);
    assert Missing(u.mem, child, level - 1, v) == level - 1 by {
      assert Entry(u.mem, child, Index(v, level - 1)) == 0;
    }
    SupplyLaw(u, root, child, level - 1, p, v, f);
  }

  // ---------- rights ----------

  /** The rights asked for take effect exactly when every table entry that was
      already on the way grants them too: existing entries are never widened. */
  lemma RightsTakeEffect(t: Tables, root: bv64, p: bv64, v: bv64, f: bv64)
    requires WellFormed(t, root) && GoodFlags(f) && MapOne(t, root, p, v, f).ok
    ensures Translate(MapOne(t, root, p, v, f).t, root, v).Some?
    ensures Translate(MapOne(t, root, p, v, f).t, root, v).value.rights == Grants(f)
      <==> Grants(f) & Upper(t.mem, root, TOP, v) == Grants(f)
  {
    MapOneLaw(t, root, p, v, f);
  }

  /** An entry that a call adds above the last level carries that call's flags. */
  lemma EntryAdded(t: Tables, root: bv64, page: bv64, level: nat, p: bv64, v: bv64, f: bv64)
    requires level < MAX_LEVELS && Gap(t, root, page, level, Index(v, level), f)
    ensures Entry(MapFrom(t, page, level, p, v, f).t.mem, page, Index(v, level)) == MakeEntry(t.supply[0], f)
    ensures Present(MakeEntry(t.supply[0], f))
  {
    var i, child := Index(v, level), t.supply[0];
    var u := Attach(t, page, level, i, f);
    AttachBelow(t, root, page, level, i, f);
    AttachEntry(t, root, page, level, i, f);
    MapAttached(t, root, page, level, p, v, f);
    hide WellFormed;
    hide Walk;
    hide Upper;
    hide Address;
    hide Entry;
    hide MakeEntry;
    hide Present;
    hide Beside;
    hide Attach;
    MapLaw(u, root, child, level - 1, p, v, f);
    FrameUp(u, MapFrom(u, child, level - 1, p, v, f).t, root, page, level, i, child, Index(v, level - 1));
  }

  /** The first mapping under an entry of the root limits the rights of every
      later one there. */
  lemma FirstMappingLimits(t: Tables, root: bv64, p: bv64, v: bv64, f: bv64, w: bv64)
    requires WellFormed(t, root) && GoodFlags(f)
    requires !Present(Entry(t.mem, root, Index(v, TOP))) && t.supply != [] && Index(w, TOP) == Index(v, TOP)
    ensures var rights := Upper(MapOne(t, root, p, v, f).t.mem, root, TOP, w); rights & Grants(f) == rights
  {
    var m := MapOne(t, root, p, v, f).t.mem;
    assert Hangs(t, root, root);
    EntryAdded(t, root, root, TOP, p, v, f);
    EntryGrants(t.supply[0], f);
    WalkThrough(m, root, TOP, w);
    MeetTwice(Grants(f), Upper(m, Address(MakeEntry(t.supply[0], f)), TOP - 1, w));
    hide WellFormed;
    hide Grants;
    hide Upper;
    hide Walk;
    hide MapFrom;
  }

  lemma MeetTwice(a: bv64, b: bv64)
    ensures (a & b) & a == a & b
  {
  }

  // ---------- a request whose rights do not take effect ----------

  const ROOT: bv64 := 0x1000

  function EmptyTables(): Tables {
    Tables(_ => 0, [0x2000, 0x3000, 0x4000], Put(_ => None, ROOT, Place(TOP, 0, 0)))
  }

  lemma EmptyTablesFit()
    ensures WellFormed(EmptyTables(), ROOT)
  {
    var t := EmptyTables();
    ZeroEntry();
    forall k | 0 <= k < |t.supply| ensures Fresh(t, t.supply[k]) {
    }
  }

  /** A read-only page, then its writable neighbour: the neighbour's entry says
      writable, its translation does not. */
  lemma NarrowNeighbour()
    ensures var first := MapOne(EmptyTables(), ROOT, 0x10000, 0, PRESENT);
      var second := MapOne(first.t, ROOT, 0x11000, 0x1000, PRESENT | WRITABLE);
      && first.ok && second.ok && Translate(second.t, ROOT, 0x1000).Some?
      && Translate(second.t, ROOT, 0x1000).value.flags & WRITABLE != 0
      && Translate(second.t, ROOT, 0x1000).value.rights & WRITABLE == 0
  {
    var t, f, g := EmptyTables(), PRESENT, PRESENT | WRITABLE;
    var first := MapOne(t, ROOT, 0x10000, 0, f);
    EmptyTablesFit();
    assert Hangs(t, ROOT, ROOT);
    SupplyLaw(t, ROOT, ROOT, TOP, 0x10000, 0, f);
    EmptyMissing();
    NeighbourFlags();
    hide WellFormed;
    hide GoodFlags;
    hide Walk;
    hide Upper;
    hide MapFrom;
    hide Missing;
    hide Index;
    hide EmptyTables;
    hide Grants;
    MapOneLaw(t, ROOT, 0x10000, 0, f);
    FirstMappingLimits(t, ROOT, 0x10000, 0, f, 0x1000);
    NoneMissing(first.t.mem, ROOT, TOP, 0, 0x1000);
    RootIsTable(first.t, ROOT);
    SupplyLaw(first.t, ROOT, ROOT, TOP, 0x11000, 0x1000, g);
    MapOneLaw(first.t, ROOT, 0x11000, 0x1000, g);
    Withheld(Grants(g), Upper(first.t.mem, ROOT, TOP, 0x1000));
  }

  lemma RootIsTable(t: Tables, root: bv64)
    requires WellFormed(t, root)
    ensures IsTable(t, root, TOP)
  {
    assert Hangs(t, root, root);
  }

  lemma NeighbourFlags()
    ensures GoodFlags(PRESENT) && GoodFlags(PRESENT | WRITABLE)
      && !Present(Entry(EmptyTables().mem, ROOT, Index(0, TOP)))
    ensures EmptyTables().supply != [] && (PRESENT | WRITABLE) & WRITABLE != 0
    ensures forall l: nat :: 1 <= l < MAX_LEVELS ==> Index(0, l) == Index(0x1000, l)
  {
    Shifts();
    forall l: nat | 1 <= l < MAX_LEVELS ensures Index(0, l) == Index(0x1000, l) {
      if l == 1 {} else if l == 2 {} else { assert l == 3; }
    }
  }

  lemma EmptyMissing()
    ensures Missing(EmptyTables().mem, ROOT, TOP, 0) == |EmptyTables().supply|
  {
    ZeroEntry();
    assert Entry(EmptyTables().mem, ROOT, Index(0, TOP)) == 0;
  }

  lemma Withheld(a: bv64, b: bv64)
    requires b & Grants(PRESENT) == b
    ensures (a & b) & WRITABLE == 0
  {
  }

  lemma {:induction false} NoneMissing(m: Memory, page: bv64, level: nat, v: bv64, w: bv64)
    requires level < MAX_LEVELS && Walk(m, page, level, v).Some?
    requires forall l: nat :: 1 <= l <= level ==> Index(v, l) == Index(w, l)
    ensures Missing(m, page, level, w) == 0
    decreases level
  {
    hide Index;
    hide Present;
    hide Address;
    if level > 0 {
      NoneMissing(m, Address(Entry(m, page, Index(v, level))), level - 1, v, w);
    }
  }
}
