/** The walk of section 5.3 of the AMD64 Architecture Programmer's Manual,
    Volume 2, in plain unsigned 64-bit arithmetic, and what mapping a page
    (src/sys/kernel/arch/x86_64/src/page_table.cpp) makes it find. It shares
    nothing with the mapping. */
module HardwareWalk {

  import opened PageTableModel
  import opened Shared

  /** What the processor finds: the page frame, the other bits of the last entry,
      and what all entries together allow. */
  datatype Seen = Seen(frame: bv64, flags: bv64, writable: bool, user: bool, executable: bool)

  /** The word that belongs to `v` in the table of a level: eight bytes for each of
      its 512 entries, picked by nine bits of the address, from bit 12 up. */
  function WordOf(table: bv64, level: nat, v: bv64): bv64
    requires level < 4
  {
    Nth(table, if level == 0 then v / 0x1000
               else if level == 1 then v / 0x20_0000
               else if level == 2 then v / 0x4000_0000
               else v / 0x80_0000_0000)
  }

  function Nth(table: bv64, n: bv64): bv64 { table + 8 * (n % 512) }

  /** Bits 12 to 51. */
  function FrameOf(entry: bv64): bv64 { entry / 0x1000 % 0x100_0000_0000 * 0x1000 }

  predicate Bit0(entry: bv64) { entry % 2 == 1 }

  predicate Bit1(entry: bv64) { entry / 2 % 2 == 1 }

  predicate Bit2(entry: bv64) { entry / 4 % 2 == 1 }

  predicate Bit63(entry: bv64) { entry / 0x8000_0000_0000_0000 == 1 }

  /** The low twelve bits and the high twelve. */
  function RestOf(entry: bv64): bv64 { entry - FrameOf(entry) }

  /** What an entry above leaves of what is seen below it. */
  function Through(e: bv64, x: Option<Seen>): Option<Seen> {
    match x
    case None => None
    case Some(s) =>
      Some(s.(writable := s.writable && Bit1(e), user := s.user && Bit2(e), executable := s.executable && !Bit63(e)))
  }

  /** An entry counts if bit 0 is set; bit 1 allows writing, bit 2 user access, and
      bit 63 forbids execution. */
  function Look(mem: bv64 -> bv64, table: bv64, level: nat, v: bv64): Option<Seen>
    requires level < 4
    decreases level
  {
    var e := mem(WordOf(table, level, v));
    if !Bit0(e) then None
    else if level == 0 then Some(Seen(FrameOf(e), RestOf(e), Bit1(e), Bit2(e), !Bit63(e)))
    else
      Through(e, Look(mem, FrameOf(e), level - 1, v))
  }

  // ---------- the same as the walk of the model ----------

  lemma WordIs(table: bv64, level: nat, v: bv64)
    requires level < 4 && Aligned(table)
    ensures Slot(table, Index(v, level)) == WordOf(table, level, v)
  {
    hide Slot;
    hide IndexAt;
    hide Aligned;
    Shifts();
    if level == 0 {
      Word0(table, v);
    } else if level == 1 {
      Word1(table, v);
    } else if level == 2 {
      Word2(table, v);
    } else {
      assert level == 3;
      Word3(table, v);
    }
  }

  lemma NthIs(table: bv64, n: bv64)
    ensures Nth(table, n) == table + 8 * (n % 512)
  {
  }

  lemma Raw0(table: bv64, v: bv64)
    requires Aligned(table)
    ensures Slot(table, IndexAt(v, 12)) == table + 8 * (v / 0x1000 % 512)
  {
  }

  lemma Word0(table: bv64, v: bv64)
    requires Aligned(table)
    ensures Slot(table, IndexAt(v, 12)) == Nth(table, v / 0x1000)
  {
    hide Slot;
    hide IndexAt;
    hide Aligned;
    Raw0(table, v);
    NthIs(table, v / 0x1000);
  }

  lemma Raw1(table: bv64, v: bv64)
    requires Aligned(table)
    ensures Slot(table, IndexAt(v, 21)) == table + 8 * (v / 0x20_0000 % 512)
  {
  }

  lemma Word1(table: bv64, v: bv64)
    requires Aligned(table)
    ensures Slot(table, IndexAt(v, 21)) == Nth(table, v / 0x20_0000)
  {
    hide Slot;
    hide IndexAt;
    hide Aligned;
    Raw1(table, v);
    NthIs(table, v / 0x20_0000);
  }

  lemma Raw2(table: bv64, v: bv64)
    requires Aligned(table)
    ensures Slot(table, IndexAt(v, 30)) == table + 8 * (v / 0x4000_0000 % 512)
  {
  }

  lemma Word2(table: bv64, v: bv64)
    requires Aligned(table)
    ensures Slot(table, IndexAt(v, 30)) == Nth(table, v / 0x4000_0000)
  {
    hide Slot;
    hide IndexAt;
    hide Aligned;
    Raw2(table, v);
    NthIs(table, v / 0x4000_0000);
  }

  lemma Raw3(table: bv64, v: bv64)
    requires Aligned(table)
    ensures Slot(table, IndexAt(v, 39)) == table + 8 * (v / 0x80_0000_0000 % 512)
  {
  }

  lemma Word3(table: bv64, v: bv64)
    requires Aligned(table)
    ensures Slot(table, IndexAt(v, 39)) == Nth(table, v / 0x80_0000_0000)
  {
    hide Slot;
    hide IndexAt;
    hide Aligned;
    Raw3(table, v);
    NthIs(table, v / 0x80_0000_0000);
  }

  predicate CanWrite(rights: bv64) { rights & 0x2 != 0 }

  predicate CanUse(rights: bv64) { rights & 0x4 != 0 }

  predicate CanRun(rights: bv64) { rights & 0x8000_0000_0000_0000 != 0 }

  lemma AddressIs(e: bv64)
    ensures Address(e) == FrameOf(e)
  {
  }

  lemma AddressAligned(e: bv64)
    ensures Aligned(Address(e))
  {
  }

  lemma FlagsIs(e: bv64)
    ensures Flags(e) == RestOf(e)
  {
  }

  lemma PresentIs(e: bv64)
    ensures Present(e) <==> Bit0(e)
  {
  }

  lemma Writable(e: bv64)
    ensures CanWrite(Grants(e)) <==> Bit1(e)
  {
  }

  lemma User(e: bv64)
    ensures CanUse(Grants(e)) <==> Bit2(e)
  {
  }

  lemma Executable(e: bv64)
    ensures CanRun(Grants(e)) <==> !Bit63(e)
  {
  }

  /** What an entry means, bit by bit. */
  lemma EntryIs(e: bv64)
    ensures Address(e) == FrameOf(e) && Aligned(Address(e)) && Flags(e) == RestOf(e)
    ensures Present(e) <==> Bit0(e)
    ensures CanWrite(Grants(e)) <==> Bit1(e)
    ensures CanUse(Grants(e)) <==> Bit2(e)
    ensures CanRun(Grants(e)) <==> !Bit63(e)
  {
    hide Address;
    hide Flags;
    hide Aligned;
    hide Present;
    hide Grants;
    AddressIs(e);
    AddressAligned(e);
    FlagsIs(e);
    PresentIs(e);
    Writable(e);
    User(e);
    Executable(e);
  }

  lemma MeetBits(a: bv64, b: bv64)
    ensures CanWrite(a & b) <==> CanWrite(a) && CanWrite(b)
    ensures CanUse(a & b) <==> CanUse(a) && CanUse(b)
    ensures CanRun(a & b) <==> CanRun(a) && CanRun(b)
  {
  }

  /** A translation of the model as the processor sees it. */
  function SeenAs(w: Option<Translation>): Option<Seen> {
    match w
    case None => None
    case Some(x) =>
      Some(Seen(x.frame, x.flags, CanWrite(x.rights), CanUse(x.rights), CanRun(x.rights)))
  }

  lemma EntryDef(mem: Memory, table: bv64, i: bv64)
    ensures Entry(mem, table, i) == mem(Slot(table, i))
  {
  }

  lemma MeetWritable(r: bv64, e: bv64)
    ensures CanWrite(r & Grants(e)) <==> CanWrite(r) && Bit1(e)
  {
  }

  lemma MeetUser(r: bv64, e: bv64)
    ensures CanUse(r & Grants(e)) <==> CanUse(r) && Bit2(e)
  {
  }

  lemma MeetExecutable(r: bv64, e: bv64)
    ensures CanRun(r & Grants(e)) <==> CanRun(r) && !Bit63(e)
  {
  }

  lemma UnderSeen(e: bv64, w: Option<Translation>)
    ensures SeenAs(Under(e, w)) == Through(e, SeenAs(w))
  {
    if w.Some? {
      MeetWritable(w.value.rights, e);
      MeetUser(w.value.rights, e);
      MeetExecutable(w.value.rights, e);
    }
  }

  lemma WalkStep(mem: Memory, table: bv64, level: nat, v: bv64)
    requires level < 4
    ensures var e := Entry(mem, table, Index(v, level));
      && (!Present(e) ==> Walk(mem, table, level, v) == None)
      && (Present(e) && level == 0 ==> Walk(mem, table, level, v) == Some(Translation(Address(e), Flags(e), Grants(e))))
      && (Present(e) && level > 0 ==> Walk(mem, table, level, v) == Under(e, Walk(mem, Address(e), level - 1, v)))
  {
    hide Entry;
    hide Index;
    hide Present;
    hide Address;
    hide Flags;
    hide Grants;
    hide Under;
  }

  /** The walk of the model is that of the processor. */
  lemma {:induction false} WalkIs(mem: Memory, table: bv64, level: nat, v: bv64)
    requires level < 4 && Aligned(table)
    ensures Look(mem, table, level, v) == SeenAs(Walk(mem, table, level, v))
    decreases level
  {
    hide Index;
    hide Slot;
    hide Address;
    hide Aligned;
    hide Flags;
    hide Present;
    hide Grants;
    hide Entry;
    hide Under;
    hide Walk;
    EntryDef(mem, table, Index(v, level));
    var e := Entry(mem, table, Index(v, level));
    WordIs(table, level, v);
    EntryIs(e);
    WalkStep(mem, table, level, v);
    if level > 0 && Present(e) {
      WalkIs(mem, Address(e), level - 1, v);
      UnderSeen(e, Walk(mem, Address(e), level - 1, v));
    }
  }

  /** Bits 12 to 47. */
  function PageNumber(v: bv64): bv64 { v / 0x1000 % 0x10_0000_0000 }

  lemma NumberBits(v: bv64)
    ensures PageNumber(v) == (v & PAGE_BITS) / 0x1000
  {
  }

  lemma BitsNumber(v: bv64)
    ensures v & PAGE_BITS == PageNumber(v) * 0x1000
  {
  }

  lemma SamePageIs(v: bv64, w: bv64)
    ensures SamePage(v, w) <==> PageNumber(v) == PageNumber(w)
  {
    if SamePage(v, w) { SameNumber(v, w, v & PAGE_BITS); }
    if PageNumber(v) == PageNumber(w) { SameBits(v, w, PageNumber(v)); }
  }

  lemma SameNumber(v: bv64, w: bv64, x: bv64)
    requires v & PAGE_BITS == x && w & PAGE_BITS == x
    ensures PageNumber(v) == PageNumber(w)
  {
    NumberBits(v);
    NumberBits(w);
  }

  lemma SameBits(v: bv64, w: bv64, x: bv64)
    requires PageNumber(v) == x && PageNumber(w) == x
    ensures SamePage(v, w)
  {
    BitsNumber(v);
    BitsNumber(w);
  }

  lemma LargeIs(f: bv64)
    ensures Large(f) <==> f / 0x80 % 2 == 1
  {
  }

  lemma NoAddress(f: bv64)
    ensures f & ENTRY_ADDRESS_MASK == 0 <==> FrameOf(f) == 0
  {
    AddressIs(f);
  }

  /** Flags are good when bit 0 is set, bit 7 is clear, and so are bits 12 to 51. */
  lemma FlagsAre(f: bv64)
    ensures GoodFlags(f) <==> Bit0(f) && f / 0x80 % 2 != 1 && FrameOf(f) == 0
  {
    hide Present;
    hide Large;
    PresentIs(f);
    LargeIs(f);
    NoAddress(f);
  }

  /** The page is found, with the flags and no right that they do not give. */
  predicate Found(x: Option<Seen>, p: bv64, f: bv64) {
    && x.Some? && x.value.frame == FrameOf(p) && x.value.flags == f
    && (x.value.writable ==> Bit1(f)) && (x.value.user ==> Bit2(f)) && (x.value.executable ==> !Bit63(f))
  }

  /** Mapping a page makes the processor find it, with the flags asked for and no
      right that they do not give, and changes what it finds at no other page. */
  lemma MapSeen(t: Tables, root: bv64, p: bv64, v: bv64, f: bv64)
    requires WellFormed(t, root) && GoodFlags(f)
    ensures var o := MapOne(t, root, p, v, f);
      && (o.ok ==> Found(Look(o.t.mem, root, 3, v), p, f))
      && (forall w | !o.ok || PageNumber(w) != PageNumber(v) ::
            Look(o.t.mem, root, 3, w) == Look(t.mem, root, 3, w))
  {
    hide WellFormed;
    hide GoodFlags;
    hide Look;
    hide Walk;
    hide Upper;
    hide MapFrom;
    hide Address;
    hide Aligned;
    hide Grants;
    hide SamePage;
    var o := MapOne(t, root, p, v, f);
    MapOneLaw(t, root, p, v, f);
    RootIsTable(t, root);
    PageAligned(t, root, root);
    WalkIs(o.t.mem, root, 3, v);
    EntryIs(p);
    EntryIs(f);
    MeetBits(Grants(f), Upper(t.mem, root, TOP, v));
    forall w | !o.ok || PageNumber(w) != PageNumber(v)
      ensures Look(o.t.mem, root, 3, w) == Look(t.mem, root, 3, w)
    {
      SamePageIs(v, w);
      WalkIs(o.t.mem, root, 3, w);
      WalkIs(t.mem, root, 3, w);
    }
  }
}
