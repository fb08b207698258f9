/** Runs of mappings: what a page translates to in the end, and with which rights
    (src/sys/kernel/arch/x86_64/src/page_table.cpp). */
module PageRuns {

  import opened PageTableModel
  import opened Shared

  // ---------- rights ----------

  /** The rights that both grant. */
  function Both(a: bv64, b: bv64): bv64 { a & b }

  lemma BothLaws(a: bv64, b: bv64, c: bv64)
    ensures Both(a, b) == Both(b, a) && Both(a, Both(b, c)) == Both(Both(a, b), c) && Both(a, a) == a
  {
  }

  lemma AllRights(f: bv64)
    ensures Both(Grants(f), RIGHTS) == Grants(f) && Both(RIGHTS, RIGHTS) == RIGHTS
  {
  }

  // ---------- the tables on the way ----------

  /** The two addresses take the same entries from the root down to level `l`. */
  ghost predicate Shares(v: bv64, w: bv64, l: nat, level: nat)
    requires level < MAX_LEVELS
  {
    forall j: nat | l <= j <= level :: Index(v, j) == Index(w, j)
  }

  /** What mapping `v` does to the tables on the way to `w`, by the number of them
      that are missing before and after, and the rights of those that are there:
      tables are made as far down as the two ways are the same, with the flags of
      the mapping; all others are as before. */
  ghost predicate Makes(k: nat, k': nat, a: bv64, b: bv64, level: nat, v: bv64, f: bv64, w: bv64)
    requires level < MAX_LEVELS
  {
    if k > 0 && Shares(v, w, k, level) then
      b == Both(a, Grants(f)) && k' < k && forall l: nat | 1 <= l <= k :: Shares(v, w, l, level) <==> l > k'
    else
      k' == k && b == a
  }

  ghost predicate PathStep(m: Memory, n: Memory, page: bv64, level: nat, v: bv64, f: bv64, w: bv64)
    requires level < MAX_LEVELS
  {
    && Missing(m, page, level, w) <= level
    && Makes(Missing(m, page, level, w), Missing(n, page, level, w), Upper(m, page, level, w),
             Upper(n, page, level, w), level, v, f, w)
  }

  ghost predicate SamePath(m: Memory, n: Memory, page: bv64, level: nat, w: bv64)
    requires level < MAX_LEVELS
  {
    Missing(n, page, level, w) == Missing(m, page, level, w) && Upper(n, page, level, w) == Upper(m, page, level, w)
  }

  /** A path through an entry that is there. */
  lemma PathThrough(m: Memory, page: bv64, level: nat, w: bv64)
    requires 0 < level < MAX_LEVELS
    ensures var e := Entry(m, page, Index(w, level));
      if Present(e) then
        && Missing(m, page, level, w) == Missing(m, Address(e), level - 1, w)
        && Upper(m, page, level, w) == Both(Grants(e), Upper(m, Address(e), level - 1, w))
      else Missing(m, page, level, w) == level && Upper(m, page, level, w) == RIGHTS
  {
    hide Present;
    hide Grants;
    hide Address;
    hide Index;
    hide Entry;
  }

  lemma {:induction false} MissingBound(m: Memory, page: bv64, level: nat, w: bv64)
    requires level < MAX_LEVELS
    ensures Missing(m, page, level, w) <= level
    decreases level
  {
    if level > 0 {
      PathThrough(m, page, level, w);
      var e := Entry(m, page, Index(w, level));
      if Present(e) { MissingBound(m, Address(e), level - 1, w); }
    }
  }

  /** A changed entry of `page` is out of reach of the paths from other tables. */
  lemma {:induction false} PathElsewhere(t: Tables, root: bv64, m: Memory, page: bv64, i: bv64, q: bv64,
          level: nat, w: bv64)
    requires WellFormed(t, root) && OneEntry(t, m, page, i) && level < MAX_LEVELS
    requires t.place(page).Some? && level <= t.place(page).value.level && q != page && IsTable(t, q, level)
    ensures SamePath(t.mem, m, q, level, w)
    decreases level
  {
    if level > 0 {
      var e := Entry(t.mem, q, Index(w, level));
      assert Entry(m, q, Index(w, level)) == e;
      PathThrough(t.mem, q, level, w);
      PathThrough(m, q, level, w);
      if Present(e) {
        assert LeadsDown(t, q, Index(w, level));
        PathElsewhere(t, root, m, page, i, Address(e), level - 1, w);
      }
    }
  }

  /** The path through an entry that stays, when the path below it stays. */
  lemma PathKept(m: Memory, n: Memory, q: bv64, level: nat, w: bv64)
    requires 0 < level < MAX_LEVELS && Entry(n, q, Index(w, level)) == Entry(m, q, Index(w, level))
    requires var e := Entry(m, q, Index(w, level)); Present(e) ==> SamePath(m, n, Address(e), level - 1, w)
    ensures SamePath(m, n, q, level, w)
  {
    hide Missing;
    hide Upper;
    hide Grants;
    hide Present;
    hide Address;
    hide Entry;
    hide Index;
    PathThrough(m, q, level, w);
    PathThrough(n, q, level, w);
  }

  /** A descent leaves the paths from the other tables of its level alone. */
  lemma {:induction false} PathBeside(t: Tables, root: bv64, page: bv64, level: nat, p: bv64, v: bv64, f: bv64,
          q: bv64, w: bv64)
    requires level < MAX_LEVELS && WellFormed(t, root) && IsTable(t, page, level) && GoodFlags(f)
    requires IsTable(t, q, level) && q != page
    ensures SamePath(t.mem, MapFrom(t, page, level, p, v, f).t.mem, q, level, w)
    decreases level
  {
    hide WellFormed;
    hide Index;
    hide Present;
    hide Address;
    hide GoodFlags;
    hide Grants;
    var i := Index(v, level);
    if level > 0 {
      if Present(Entry(t.mem, page, i)) {
        BesidePresent(t, root, page, level, p, v, f, q, w);
      } else if t.supply != [] {
        BesideAbsent(t, root, page, level, p, v, f, q, w);
      }
    }
  }

  lemma {:induction false} BesidePresent(t: Tables, root: bv64, page: bv64, level: nat, p: bv64, v: bv64, f: bv64,
          q: bv64, w: bv64)
    requires level < MAX_LEVELS && GoodFlags(f)
    requires Below(t, root, page, level, Index(v, level), Address(Entry(t.mem, page, Index(v, level))))
    requires IsTable(t, q, level) && (q != page || Index(w, level) != Index(v, level))
    ensures SamePath(t.mem, MapFrom(t, page, level, p, v, f).t.mem, q, level, w)
    decreases level, 0
  {
    hide WellFormed;
    hide Index;
    hide Present;
    hide Address;
    hide GoodFlags;
    hide Grants;
    hide Walk;
    hide Upper;
    hide Missing;
    hide SamePath;
    hide Slot;
    var i := Index(v, level);
    var child := Address(Entry(t.mem, page, i));
    var o := MapFrom(t, page, level, p, v, f);
    assert o == MapFrom(t, child, level - 1, p, v, f);
    ChildOf(t, root, page, level, i, child);
    MapLaw(t, root, page, level, p, v, f);
    var e := Entry(t.mem, q, Index(w, level));
    assert Entry(o.t.mem, q, Index(w, level)) == e;
    if Present(e) {
      ChildOf(t, root, q, level, Index(w, level), Address(e));
      PathBeside(t, root, child, level - 1, p, v, f, Address(e), w);
    }
    PathKept(t.mem, o.t.mem, q, level, w);
  }

  lemma SamePathTwice(l: Memory, m: Memory, n: Memory, q: bv64, level: nat, w: bv64)
    requires level < MAX_LEVELS && SamePath(l, m, q, level, w) && SamePath(m, n, q, level, w)
    ensures SamePath(l, n, q, level, w)
  {
  }

  lemma {:induction false} BesideAbsent(t: Tables, root: bv64, page: bv64, level: nat, p: bv64, v: bv64, f: bv64,
          q: bv64, w: bv64)
    requires level < MAX_LEVELS && Gap(t, root, page, level, Index(v, level), f)
    requires IsTable(t, q, level) && (q != page || Index(w, level) != Index(v, level))
    ensures SamePath(t.mem, MapFrom(t, page, level, p, v, f).t.mem, q, level, w)
    decreases level, 1
  {
    hide WellFormed;
    hide Index;
    hide Present;
    hide Address;
    hide Grants;
    hide Walk;
    hide Upper;
    hide Missing;
    hide SamePath;
    hide MapFrom;
    hide Entry;
    var i := Index(v, level);
    var u := Attach(t, page, level, i, f);
    AttachEntry(t, root, page, level, i, f);
    AttachBelow(t, root, page, level, i, f);
    MapAttached(t, root, page, level, p, v, f);
    AttachPath(t, root, page, level, i, f, q, w);
    hide Attach;
    BesidePresent(u, root, page, level, p, v, f, q, w);
    SamePathTwice(t.mem, u.mem, MapFrom(u, page, level, p, v, f).t.mem, q, level, w);
  }

  /** Attaching a table leaves the paths alone that do not take the entry. */
  lemma AttachPath(t: Tables, root: bv64, page: bv64, level: nat, i: bv64, f: bv64, q: bv64, w: bv64)
    requires level < MAX_LEVELS && Gap(t, root, page, level, i, f)
    requires IsTable(t, q, level) && (q != page || Index(w, level) != i)
    ensures SamePath(t.mem, Attach(t, page, level, i, f).mem, q, level, w)
  {
    hide Index;
    hide Present;
    hide Address;
    hide Grants;
    hide Walk;
    hide Upper;
    hide Missing;
    hide SamePath;
    hide Slot;
    var u := Attach(t, page, level, i, f);
    AttachEntry(t, root, page, level, i, f);
    PageAligned(t, root, q);
    hide Attach;
    var e := Entry(t.mem, q, Index(w, level));
    assert Entry(u.mem, q, Index(w, level)) == e;
    if Present(e) {
      ChildOf(t, root, q, level, Index(w, level), Address(e));
      PathElsewhere(t, root, u.mem, page, i, Address(e), level - 1, w);
    }
    PathKept(t.mem, u.mem, q, level, w);
  }

  /** What a descent does to the path of `w`. */
  lemma {:induction false} PathLaw(t: Tables, root: bv64, page: bv64, level: nat, p: bv64, v: bv64, f: bv64, w: bv64)
    requires level < MAX_LEVELS && WellFormed(t, root) && IsTable(t, page, level) && GoodFlags(f)
    requires MapFrom(t, page, level, p, v, f).ok
    ensures PathStep(t.mem, MapFrom(t, page, level, p, v, f).t.mem, page, level, v, f, w)
    decreases level
  {
    hide WellFormed;
    hide Index;
    hide Present;
    hide Address;
    hide GoodFlags;
    hide Grants;
    var i := Index(v, level);
    MissingBound(t.mem, page, level, w);
    if level > 0 {
      if Present(Entry(t.mem, page, i)) {
        PathPresent(t, root, page, level, p, v, f, w);
      } else {
        PathAbsent(t, root, page, level, p, v, f, w);
      }
    }
  }

  lemma {:induction false} PathPresent(t: Tables, root: bv64, page: bv64, level: nat, p: bv64, v: bv64, f: bv64,
          w: bv64)
    requires level < MAX_LEVELS && GoodFlags(f) && MapFrom(t, page, level, p, v, f).ok
    requires Below(t, root, page, level, Index(v, level), Address(Entry(t.mem, page, Index(v, level))))
    ensures PathStep(t.mem, MapFrom(t, page, level, p, v, f).t.mem, page, level, v, f, w)
    decreases level, 0
  {
    hide WellFormed;
    hide Index;
    hide Present;
    hide Address;
    hide GoodFlags;
    hide Grants;
    hide Walk;
    hide Upper;
    hide Missing;
    hide PathStep;
    hide SamePath;
    var i := Index(v, level);
    var child := Address(Entry(t.mem, page, i));
    var o := MapFrom(t, page, level, p, v, f);
    assert o == MapFrom(t, child, level - 1, p, v, f);
    ChildOf(t, root, page, level, i, child);
    if Index(w, level) == i {
      MapLaw(t, root, page, level, p, v, f);
      MapLaw(t, root, child, level - 1, p, v, f);
      FrameUp(t, o.t, root, page, level, i, child, Index(v, level - 1));
      PathLaw(t, root, child, level - 1, p, v, f, w);
      StepUp(t.mem, o.t.mem, page, level, v, f, w);
    } else {
      BesidePresent(t, root, page, level, p, v, f, page, w);
      StepApart(t.mem, o.t.mem, page, level, v, f, w);
    }
  }

  lemma StepUp(m: Memory, n: Memory, page: bv64, level: nat, v: bv64, f: bv64, w: bv64)
    requires 0 < level < MAX_LEVELS && Index(v, level) == Index(w, level)
    requires Present(Entry(m, page, Index(w, level)))
    requires Entry(n, page, Index(w, level)) == Entry(m, page, Index(w, level))
    requires PathStep(m, n, Address(Entry(m, page, Index(w, level))), level - 1, v, f, w)
    ensures PathStep(m, n, page, level, v, f, w)
  {
    hide Index;
    hide Present;
    hide Address;
    hide Grants;
    hide Upper;
    hide Missing;
    hide Entry;
    hide Shares;
    hide Both;
    PathThrough(m, page, level, w);
    PathThrough(n, page, level, w);
    var e := Entry(m, page, Index(w, level));
    SharesUp(v, w, level);
    BothLaws(Grants(e), Upper(m, Address(e), level - 1, w), Grants(f));
  }

  lemma SharesUp(v: bv64, w: bv64, level: nat)
    requires 0 < level < MAX_LEVELS && Index(v, level) == Index(w, level)
    ensures forall l: nat | l <= level - 1 :: Shares(v, w, l, level) <==> Shares(v, w, l, level - 1)
  {
    hide Index;
  }

  lemma StepApart(m: Memory, n: Memory, page: bv64, level: nat, v: bv64, f: bv64, w: bv64)
    requires level < MAX_LEVELS && Index(v, level) != Index(w, level) && SamePath(m, n, page, level, w)
    ensures PathStep(m, n, page, level, v, f, w)
  {
    MissingBound(m, page, level, w);
    hide Index;
    hide Upper;
    hide Missing;
  }

  lemma {:induction false} PathAbsent(t: Tables, root: bv64, page: bv64, level: nat, p: bv64, v: bv64, f: bv64, w: bv64)
    requires level < MAX_LEVELS && Gap(t, root, page, level, Index(v, level), f) && MapFrom(t, page, level, p, v, f).ok
    ensures PathStep(t.mem, MapFrom(t, page, level, p, v, f).t.mem, page, level, v, f, w)
    decreases level, 1
  {
    hide WellFormed;
    hide Index;
    hide Present;
    hide Address;
    hide Grants;
    hide Walk;
    hide Upper;
    hide Missing;
    hide MapFrom;
    hide PathStep;
    hide SamePath;
    var i := Index(v, level);
    var u := Attach(t, page, level, i, f);
    var o := MapFrom(t, page, level, p, v, f);
    if Index(w, level) == i {
      AttachBelow(t, root, page, level, i, f);
      MapAttached(t, root, page, level, p, v, f);
      PathPresent(u, root, page, level, p, v, f, w);
      AttachHit(t, root, page, level, i, f, w);
      AttachMissing(t, root, page, level, i, f, w);
      StepNew(t.mem, u.mem, o.t.mem, page, level, v, f, w);
    } else {
      BesideAbsent(t, root, page, level, p, v, f, page, w);
      StepApart(t.mem, o.t.mem, page, level, v, f, w);
    }
  }

  lemma AttachMissing(t: Tables, root: bv64, page: bv64, level: nat, i: bv64, f: bv64, w: bv64)
    requires Gap(t, root, page, level, i, f) && level < MAX_LEVELS && Index(w, level) == i
    ensures Missing(t.mem, page, level, w) == level
    ensures Missing(Attach(t, page, level, i, f).mem, page, level, w) == level - 1
  {
    var u := Attach(t, page, level, i, f);
    AttachEntry(t, root, page, level, i, f);
    PathThrough(t.mem, page, level, w);
    PathThrough(u.mem, page, level, w);
    ZeroEntry();
    assert Entry(u.mem, t.supply[0], Index(w, level - 1)) == 0;
    hide WellFormed;
    hide Slot;
    hide Address;
    hide Present;
    hide MakeEntry;
    hide Grants;
    hide Index;
    hide Upper;
  }

  lemma StepNew(m: Memory, u: Memory, n: Memory, page: bv64, level: nat, v: bv64, f: bv64, w: bv64)
    requires 0 < level < MAX_LEVELS && Index(v, level) == Index(w, level)
    requires Missing(m, page, level, w) == level && Missing(u, page, level, w) == level - 1
    requires Upper(m, page, level, w) == RIGHTS && Upper(u, page, level, w) == Grants(f)
    requires PathStep(u, n, page, level, v, f, w)
    ensures PathStep(m, n, page, level, v, f, w)
  {
    hide Both;
    AllRights(f);
    BothLaws(RIGHTS, Grants(f), Grants(f));
    BothLaws(Grants(f), RIGHTS, RIGHTS);
    hide Index;
    hide Grants;
    hide Upper;
    hide Missing;
    assert Shares(v, w, level, level);
    assert forall l: nat | 1 <= l < level && Shares(v, w, l, level) :: Shares(v, w, level - 1, level);
  }

  /** The rights that a walk finds are those of the last entry and those of the
      entries above, together. */
  lemma {:induction false} WalkRights(m: Memory, page: bv64, level: nat, w: bv64)
    requires level < MAX_LEVELS && Walk(m, page, level, w).Some?
    ensures var x := Walk(m, page, level, w).value; x.rights == Both(Grants(x.flags), Upper(m, page, level, w))
    ensures Missing(m, page, level, w) == 0
    decreases level
  {
    hide Index;
    hide Present;
    hide Address;
    hide Flags;
    hide Grants;
    hide Entry;
    var e := Entry(m, page, Index(w, level));
    if level == 0 {
      LeafRights(e);
    } else {
      WalkThrough(m, page, level, w);
      PathThrough(m, page, level, w);
      WalkRights(m, Address(e), level - 1, w);
      var x := Walk(m, Address(e), level - 1, w).value;
      assert Walk(m, page, level, w).value == x.(rights := Both(x.rights, Grants(e)));
      hide Both;
      BothLaws(Grants(x.flags), Upper(m, Address(e), level - 1, w), Grants(e));
      BothLaws(Upper(m, Address(e), level - 1, w), Grants(e), 0);
    }
  }

  lemma LeafRights(e: bv64)
    ensures Grants(e) == Both(Grants(Flags(e)), RIGHTS)
  {
  }

  // ---------- runs ----------

  datatype Request = Request(paddr: bv64, vaddr: bv64, flags: bv64)

  /** A run of mappings, the last one last; it fails where one of them does. */
  function Run(t: Tables, root: bv64, reqs: seq<Request>): Outcome {
    if reqs == [] then Outcome(true, t)
    else
      var last := reqs[|reqs| - 1];
      var before := Run(t, root, reqs[..|reqs| - 1]);
      if before.ok then MapOne(before.t, root, last.paddr, last.vaddr, last.flags) else before
  }

  /** The latest request for the page of `w`. */
  ghost function Latest(reqs: seq<Request>, w: bv64): Option<Request> {
    if reqs == [] then None
    else if SamePage(reqs[|reqs| - 1].vaddr, w) then Some(reqs[|reqs| - 1])
    else Latest(reqs[..|reqs| - 1], w)
  }

  // ---------- who has made the entries ----------

  /** The first request that takes the same entries as `w` down to level `l`. */
  ghost function Creator(reqs: seq<Request>, w: bv64, l: nat): Option<Request> {
    if reqs == [] then None
    else
      var before := Creator(reqs[..|reqs| - 1], w, l);
      if before.None? && Shares(reqs[|reqs| - 1].vaddr, w, l, TOP) then Some(reqs[|reqs| - 1]) else before
  }

  /** The rights granted at level `l` on the way to `w`, if the run has made the
      entry there. */
  ghost function Granted(reqs: seq<Request>, w: bv64, l: nat): bv64 {
    match Creator(reqs, w, l)
    case None => RIGHTS
    case Some(r) => Grants(r.flags)
  }

  /** All of those for the levels from `n` down to 1, together. */
  ghost function Created(reqs: seq<Request>, w: bv64, n: nat): bv64 {
    if n == 0 then RIGHTS else Both(Created(reqs, w, n - 1), Granted(reqs, w, n))
  }

  /** The tables on the way to `w` after a run: the entries that were there, and
      those that the run has made where there were none. */
  ghost predicate PathAfter(m: Memory, n: Memory, root: bv64, reqs: seq<Request>, w: bv64) {
    After(Missing(m, root, TOP, w), Missing(n, root, TOP, w), Upper(m, root, TOP, w), Upper(n, root, TOP, w), reqs, w)
  }

  ghost predicate After(k: nat, k': nat, a: bv64, b: bv64, reqs: seq<Request>, w: bv64) {
    && k' <= k <= TOP && b == Both(a, Created(reqs, w, k))
    && forall l: nat | 1 <= l <= k :: Creator(reqs, w, l).None? <==> l <= k'
  }

  /** One more request adds its rights at the levels where it makes entries. */
  lemma {:induction false} CreatedStep(reqs: seq<Request>, w: bv64, n: nat, low: nat, high: nat)
    requires reqs != [] && low < high
    requires var r, front := reqs[|reqs| - 1], reqs[..|reqs| - 1];
      forall l: nat | 1 <= l <= n ::
        Creator(reqs, w, l) == if low < l <= high then Some(r) else Creator(front, w, l)
    requires var front := reqs[..|reqs| - 1];
      forall l: nat | 1 <= l <= n && l <= high :: Creator(front, w, l).None?
    ensures var r, front := reqs[|reqs| - 1], reqs[..|reqs| - 1];
      Created(reqs, w, n) == if n > low then Both(Created(front, w, n), Grants(r.flags)) else Created(front, w, n)
  {
    hide Creator;
    hide Grants;
    var r, front := reqs[|reqs| - 1], reqs[..|reqs| - 1];
    if n > 0 {
      CreatedStep(reqs, w, n - 1, low, high);
      hide Both;
      var a, b, c := Created(front, w, n - 1), Granted(front, w, n), Grants(r.flags);
      CreatedRights(front, w, n - 1);
      BothLaws(a, b, c);
      BothLaws(b, c, 0);
      BothLaws(a, c, b);
      BothLaws(a, c, c);
      BothLaws(c, c, 0);
    }
  }

  lemma {:induction false} CreatedRights(reqs: seq<Request>, w: bv64, n: nat)
    ensures Both(Created(reqs, w, n), RIGHTS) == Created(reqs, w, n)
  {
    if n > 0 {
      CreatedRights(reqs, w, n - 1);
      hide Both;
      hide Grants;
      GrantedRights(reqs, w, n);
      BothLaws(Created(reqs, w, n - 1), Granted(reqs, w, n), RIGHTS);
    } else {
      AllRights(0);
    }
  }

  lemma GrantedRights(reqs: seq<Request>, w: bv64, l: nat)
    ensures Both(Granted(reqs, w, l), RIGHTS) == Granted(reqs, w, l)
  {
    hide Creator;
    match Creator(reqs, w, l)
    case None => AllRights(0);
    case Some(r) => AllRights(r.flags);
  }

  lemma {:induction false} UpperRights(m: Memory, page: bv64, level: nat, w: bv64)
    requires level < MAX_LEVELS
    ensures Both(Upper(m, page, level, w), RIGHTS) == Upper(m, page, level, w)
    decreases level
  {
    if level > 0 {
      PathThrough(m, page, level, w);
      var e := Entry(m, page, Index(w, level));
      if Present(e) {
        UpperRights(m, Address(e), level - 1, w);
        hide Grants;
        hide Upper;
        hide Both;
        BothLaws(Grants(e), Upper(m, Address(e), level - 1, w), RIGHTS);
      } else {
        AllRights(0);
      }
    } else {
      AllRights(0);
    }
  }

  lemma {:induction false} CreatedSame(reqs: seq<Request>, front: seq<Request>, w: bv64, n: nat)
    requires forall l: nat | 1 <= l <= n :: Creator(reqs, w, l) == Creator(front, w, l)
    ensures Created(reqs, w, n) == Created(front, w, n)
  {
    hide Creator;
    if n > 0 { CreatedSame(reqs, front, w, n - 1); }
  }

  /** Every request asks for flags that an entry can have. */
  ghost predicate GoodRequests(reqs: seq<Request>) {
    forall k | 0 <= k < |reqs| :: GoodFlags(reqs[k].flags)
  }

  /** The request makes the entries of the levels above `k'` up to `k`. */
  lemma CreatorMakes(reqs: seq<Request>, w: bv64, n: nat, k: nat, k': nat)
    requires reqs != [] && k' < k <= n && Shares(reqs[|reqs| - 1].vaddr, w, k, TOP)
    requires var front := reqs[..|reqs| - 1]; forall l: nat | 1 <= l <= n :: Creator(front, w, l).None? <==> l <= k
    requires var v := reqs[|reqs| - 1].vaddr; forall l: nat | 1 <= l <= k :: Shares(v, w, l, TOP) <==> l > k'
    ensures var r, front := reqs[|reqs| - 1], reqs[..|reqs| - 1];
      Created(reqs, w, n) == Both(Created(front, w, n), Grants(r.flags))
    ensures forall l: nat | 1 <= l <= n :: Creator(reqs, w, l).None? <==> l <= k'
  {
    hide Created;
    hide Shares;
    hide Grants;
    var r, front := reqs[|reqs| - 1], reqs[..|reqs| - 1];
    forall l: nat | 1 <= l <= n
      ensures Creator(reqs, w, l) == if k' < l <= k then Some(r) else Creator(front, w, l)
    {
    }
    hide Creator;
    CreatedStep(reqs, w, n, k', k);
  }

  lemma SharesAbove(v: bv64, w: bv64, l: nat, k: nat)
    requires l <= k <= TOP
    ensures Shares(v, w, l, TOP) ==> Shares(v, w, k, TOP)
  {
  }

  lemma CreatorKeeps(reqs: seq<Request>, w: bv64, n: nat, k: nat)
    requires reqs != [] && k <= n <= TOP && !(k > 0 && Shares(reqs[|reqs| - 1].vaddr, w, k, TOP))
    requires var front := reqs[..|reqs| - 1]; forall l: nat | 1 <= l <= n :: Creator(front, w, l).None? <==> l <= k
    ensures Created(reqs, w, n) == Created(reqs[..|reqs| - 1], w, n)
    ensures forall l: nat | 1 <= l <= n :: Creator(reqs, w, l).None? <==> l <= k
  {
    hide Created;
    hide Index;
    var r, front := reqs[|reqs| - 1], reqs[..|reqs| - 1];
    forall l: nat | 1 <= l <= n ensures Creator(reqs, w, l) == Creator(front, w, l) {
      if l <= k { SharesAbove(r.vaddr, w, l, k); }
    }
    hide Creator;
    hide Shares;
    CreatedSame(reqs, front, w, n);
  }

  /** The numbers of missing tables and the rights before the run, before its last
      request, and after it. */
  lemma OneMore(reqs: seq<Request>, w: bv64, n: nat, k: nat, k': nat, a: bv64, b: bv64, c: bv64)
    requires reqs != [] && After(n, k, a, b, reqs[..|reqs| - 1], w)
    requires Makes(k, k', b, c, TOP, reqs[|reqs| - 1].vaddr, reqs[|reqs| - 1].flags, w)
    ensures After(n, k', a, c, reqs, w)
  {
    hide Shares;
    hide Grants;
    hide Created;
    hide Creator;
    hide Both;
    var r := reqs[|reqs| - 1];
    if k > 0 && Shares(r.vaddr, w, k, TOP) {
      CreatorMakes(reqs, w, n, k, k');
      BothLaws(a, Created(reqs[..|reqs| - 1], w, n), Grants(r.flags));
    } else {
      CreatorKeeps(reqs, w, n, k);
    }
  }

  lemma PathAfterStep(m: Memory, before: Memory, after: Memory, root: bv64, reqs: seq<Request>, w: bv64)
    requires reqs != [] && PathAfter(m, before, root, reqs[..|reqs| - 1], w)
    requires PathStep(before, after, root, TOP, reqs[|reqs| - 1].vaddr, reqs[|reqs| - 1].flags, w)
    ensures PathAfter(m, after, root, reqs, w)
  {
    hide Upper;
    hide Missing;
    hide Makes;
    hide After;
    OneMore(reqs, w, Missing(m, root, TOP, w), Missing(before, root, TOP, w), Missing(after, root, TOP, w),
      Upper(m, root, TOP, w), Upper(before, root, TOP, w), Upper(after, root, TOP, w));
  }

  lemma {:induction false} RunPath(t: Tables, root: bv64, reqs: seq<Request>, w: bv64)
    requires WellFormed(t, root) && Run(t, root, reqs).ok && GoodRequests(reqs)
    ensures WellFormed(Run(t, root, reqs).t, root) && PathAfter(t.mem, Run(t, root, reqs).t.mem, root, reqs, w)
  {
    hide WellFormed;
    hide GoodFlags;
    hide PathStep;
    hide Upper;
    hide Missing;
    hide MapFrom;
    hide Walk;
    MissingBound(t.mem, root, TOP, w);
    UpperRights(t.mem, root, TOP, w);
    if reqs != [] {
      var r, front := reqs[|reqs| - 1], reqs[..|reqs| - 1];
      RunPath(t, root, front, w);
      RootIsTable(Run(t, root, front).t, root);
      MapOneLaw(Run(t, root, front).t, root, r.paddr, r.vaddr, r.flags);
      PathLaw(Run(t, root, front).t, root, root, TOP, r.paddr, r.vaddr, r.flags, w);
      PathAfterStep(t.mem, Run(t, root, front).t.mem, Run(t, root, reqs).t.mem, root, reqs, w);
    } else {
      assert Created(reqs, w, Missing(t.mem, root, TOP, w)) == RIGHTS by {
        NothingCreated(w, Missing(t.mem, root, TOP, w));
      }
    }
  }

  lemma {:induction false} NothingCreated(w: bv64, n: nat)
    ensures Created([], w, n) == RIGHTS
  {
    if n > 0 {
      NothingCreated(w, n - 1);
      AllRights(0);
    }
  }

  // ---------- what a run comes to ----------

  ghost predicate Translates(t: Tables, root: bv64, reqs: seq<Request>, w: bv64) {
    var now := Translate(Run(t, root, reqs).t, root, w);
    match Latest(reqs, w)
    case None => now == Translate(t, root, w)
    case Some(r) => now.Some? && now.value.frame == Address(r.paddr) && now.value.flags == r.flags
  }

  lemma {:induction false} RunTranslates(t: Tables, root: bv64, reqs: seq<Request>, w: bv64)
    requires WellFormed(t, root) && Run(t, root, reqs).ok && GoodRequests(reqs)
    ensures WellFormed(Run(t, root, reqs).t, root) && Translates(t, root, reqs, w)
  {
    hide WellFormed;
    hide GoodFlags;
    hide Walk;
    hide Address;
    hide Grants;
    hide SamePage;
    hide Upper;
    hide MapFrom;
    if reqs != [] {
      var r, front := reqs[|reqs| - 1], reqs[..|reqs| - 1];
      RunTranslates(t, root, front, w);
      MapOneLaw(Run(t, root, front).t, root, r.paddr, r.vaddr, r.flags);
    }
  }

  /** The frame and flags are those of the latest request for the page. The rights
      are those it grants, met with those of the table entries on the way: of the
      entries that were there before the run, and of the requests that were the
      first to take the others. */
  ghost predicate Honours(t: Tables, root: bv64, reqs: seq<Request>, w: bv64) {
    var now := Translate(Run(t, root, reqs).t, root, w);
    match Latest(reqs, w)
    case None => now == Translate(t, root, w)
    case Some(r) =>
      var above := Both(Upper(t.mem, root, TOP, w), Created(reqs, w, Missing(t.mem, root, TOP, w)));
      now == Some(Translation(Address(r.paddr), r.flags, Both(Grants(r.flags), above)))
  }

  /** After any run of mappings the tables are a tree of disjoint pages, a page
      asked for translates as the requests say, and a page never asked for as
      before. */
  lemma RunLaw(t: Tables, root: bv64, reqs: seq<Request>)
    requires WellFormed(t, root) && Run(t, root, reqs).ok && GoodRequests(reqs)
    ensures WellFormed(Run(t, root, reqs).t, root)
    ensures forall w :: Honours(t, root, reqs, w)
  {
    hide WellFormed;
    hide Run;
    hide Walk;
    hide Address;
    hide Grants;
    hide Upper;
    hide Missing;
    hide Created;
    hide Both;
    RunTranslates(t, root, reqs, 0);
    forall w ensures Honours(t, root, reqs, w) {
      RunTranslates(t, root, reqs, w);
      RunPath(t, root, reqs, w);
      if Latest(reqs, w).Some? { WalkRights(Run(t, root, reqs).t.mem, root, TOP, w); }
    }
  }
}
