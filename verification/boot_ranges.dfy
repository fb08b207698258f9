/** Memory ranges and what the boot memory map does to a list of them
    (src/sys/include/kernel/memory_range.h, src/sys/kernel/src/boot_args.cpp). */
module BootRanges {

  import opened Shared

  const TOP: nat := 0x1_0000_0000_0000_0000
  const MAX_MEMORY_ENTRIES: nat := 32

  /** `Start` and `Length` are machine words; a mapping that fits ends below the
      top of the address space, so that no sum below wraps. */
  datatype MemoryMapping = MemoryMapping(start: nat, length: nat, kind: nat) {

    predicate Fits() { start + length < TOP }

    predicate Empty() { length == 0 }

    /** The last address. */
    function End(): int { start + length - 1 }

    predicate Has(a: int) { start <= a < start + length }
  }

  function AlignFloor(a: nat): nat { a - a % PAGE_SIZE }

  function AlignCeiling(a: nat): nat { AlignFloor(a + (PAGE_SIZE - 1)) }

  function EndAligned(end: nat): int { AlignCeiling(end) - 1 }

  /** The range that holds both addresses and all between them. */
  function FromAddresses(start: nat, end: nat): (r: MemoryMapping)
    ensures !r.Empty() && r.Has(start) && r.Has(end)
      && forall a :: r.Has(a) && a != start && a != end ==> start < a < end || end < a < start
  {
    if start > end then MemoryMapping(end, start - end + 1, 0) else MemoryMapping(start, end - start + 1, 0)
  }

  // ---------- contiguous ranges ----------

  /** A range that shares its end, but not its base, with another one does not
      count as contiguous to it. */
  predicate Contiguous(r: MemoryMapping, s: MemoryMapping) {
    if r.Empty() || s.Empty() then false
    else if r.start == s.start && r.length == s.length then true
    else if r.End() + 1 >= s.start && r.End() < s.End() then true
    else s.End() + 1 >= r.start && s.End() < r.End()
  }

  /** The merged range is stored over the first one, whose type stays. */
  function Merge(r: MemoryMapping, s: MemoryMapping): MemoryMapping
    requires Contiguous(r, s)
  {
    var minBase := if r.start <= s.start then r.start else s.start;
    var maxEnd := if r.End() >= s.End() then r.End() else s.End();
    MemoryMapping(minBase, maxEnd - minBase + 1, r.kind)
  }

  /** Merging two ranges gives exactly their union, and every union that is a
      range is found, except that of two ranges with a common end. */
  lemma MergeLaw(r: MemoryMapping, s: MemoryMapping)
    requires !r.Empty() && !s.Empty()
    ensures Contiguous(r, s) ==> forall a :: Merge(r, s).Has(a) <==> r.Has(a) || s.Has(a)
    ensures Contiguous(r, s) <==>
      (r.start <= s.End() + 1 && s.start <= r.End() + 1 && (r.End() == s.End() ==> r.start == s.start))
  {
  }

  // ---------- lists ----------

  predicate Sorted(s: seq<MemoryMapping>) {
    forall j, k :: 0 <= j < k < |s| ==> s[j].start <= s[k].start
  }

  predicate Live(s: seq<MemoryMapping>) {
    forall k :: 0 <= k < |s| ==> !s[k].Empty()
  }

  /** Every mapping has a last address: no empty one is at address zero. */
  predicate Ends(s: seq<MemoryMapping>) {
    forall k :: 0 <= k < |s| ==> s[k].End() >= 0
  }

  predicate Fit(s: seq<MemoryMapping>) {
    forall k :: 0 <= k < |s| ==> s[k].Fits()
  }

  ghost predicate Covers(s: seq<MemoryMapping>, a: int) {
    exists k :: 0 <= k < |s| && s[k].Has(a)
  }

  /** At least one address lies between any two mappings of the list, which is
      in order. */
  predicate Separated(s: seq<MemoryMapping>) {
    forall j, k :: 0 <= j < k < |s| ==> s[j].End() + 1 < s[k].start
  }

  predicate Disjoint(s: seq<MemoryMapping>) {
    forall j, k :: 0 <= j < k < |s| ==> s[j].End() < s[k].start || s[k].End() < s[j].start
  }

  lemma SameMembers(s: seq<MemoryMapping>, t: seq<MemoryMapping>)
    requires multiset(s) == multiset(t)
    ensures |s| == |t|
    ensures forall m :: m in s <==> m in t
    ensures (Live(s) <==> Live(t)) && (Ends(s) <==> Ends(t))
    ensures Fit(s) <==> Fit(t)
    ensures forall a :: Covers(s, a) <==> Covers(t, a)
  {
    assert |multiset(s)| == |multiset(t)|;
    forall m ensures m in s <==> m in t {
      assert m in s <==> m in multiset(s);
      assert m in t <==> m in multiset(t);
    }
    assert forall k :: 0 <= k < |s| ==> s[k] in t;
    assert forall k :: 0 <= k < |t| ==> t[k] in s;
    forall a ensures Covers(s, a) <==> Covers(t, a) {
      assert Covers(s, a) <==> exists m :: m in s && m.Has(a);
      assert Covers(t, a) <==> exists m :: m in t && m.Has(a);
    }
  }

  // ---------- sorting ----------

  /** The mapping goes behind all that do not start after it. */
  function InsertBehind(s: seq<MemoryMapping>, m: MemoryMapping): seq<MemoryMapping> {
    if s == [] then [m]
    else if s[|s| - 1].start <= m.start then s + [m]
    else InsertBehind(s[..|s| - 1], m) + [s[|s| - 1]]
  }

  /** The mappings by start; those with the same start keep their order. */
  function SortStable(s: seq<MemoryMapping>): seq<MemoryMapping> {
    if s == [] then [] else InsertBehind(SortStable(s[..|s| - 1]), s[|s| - 1])
  }

  /** The mappings with a given start, in order. */
  function WithStart(s: seq<MemoryMapping>, v: nat): seq<MemoryMapping> {
    if s == [] then []
    else WithStart(s[..|s| - 1], v) + if s[|s| - 1].start == v then [s[|s| - 1]] else []
  }

  lemma WithStartSnoc(s: seq<MemoryMapping>, m: MemoryMapping, v: nat)
    ensures WithStart(s + [m], v) == WithStart(s, v) + if m.start == v then [m] else []
  {
    assert (s + [m])[..|s|] == s;
  }

  lemma {:induction false} InsertMembers(s: seq<MemoryMapping>, m: MemoryMapping)
    ensures multiset(InsertBehind(s, m)) == multiset(s + [m])
  {
    if s != [] && s[|s| - 1].start > m.start {
      InsertMembers(s[..|s| - 1], m);
      assert s == s[..|s| - 1] + [s[|s| - 1]];
    }
  }

  lemma {:induction false} InsertSorted(s: seq<MemoryMapping>, m: MemoryMapping)
    requires Sorted(s)
    ensures Sorted(InsertBehind(s, m))
  {
    if s != [] && s[|s| - 1].start > m.start {
      var front, last := s[..|s| - 1], s[|s| - 1];
      InsertSorted(front, m);
      InsertMembers(front, m);
      forall n | n in InsertBehind(front, m) ensures n.start <= last.start {
        assert n in multiset(InsertBehind(front, m)) && n in multiset(front + [m]);
        assert n == m || n in front;
      }
    }
  }

  lemma {:induction false} InsertWithStart(s: seq<MemoryMapping>, m: MemoryMapping, v: nat)
    ensures WithStart(InsertBehind(s, m), v) == WithStart(s, v) + if m.start == v then [m] else []
  {
    if s == [] || s[|s| - 1].start <= m.start {
      WithStartSnoc(s, m, v);
    } else {
      var front, last := s[..|s| - 1], s[|s| - 1];
      InsertWithStart(front, m, v);
      WithStartSnoc(InsertBehind(front, m), last, v);
    }
  }

  /** The result is in order, has the same members, and keeps the order of those
      with the same start. */
  lemma {:induction false} SortStableLaw(s: seq<MemoryMapping>, v: nat)
    ensures Sorted(SortStable(s)) && multiset(SortStable(s)) == multiset(s)
    ensures WithStart(SortStable(s), v) == WithStart(s, v)
  {
    if s != [] {
      var front, last := s[..|s| - 1], s[|s| - 1];
      assert s == front + [last];
      SortStableLaw(front, v);
      InsertMembers(SortStable(front), last);
      InsertSorted(SortStable(front), last);
      InsertWithStart(SortStable(front), last, v);
    }
  }

  lemma SortSnoc(s: seq<MemoryMapping>, m: MemoryMapping)
    ensures SortStable(s + [m]) == InsertBehind(SortStable(s), m)
  {
    assert (s + [m])[..|s|] == s;
  }

  lemma {:induction false} SortedStays(s: seq<MemoryMapping>)
    requires Sorted(s)
    ensures SortStable(s) == s
  {
    if s != [] {
      var front := s[..|s| - 1];
      assert Sorted(front) && (front != [] ==> front[|front| - 1].start <= s[|s| - 1].start);
      hide Sorted;
      SortedStays(front);
    }
  }

  lemma {:induction false} InsertsSwap(s: seq<MemoryMapping>, x: MemoryMapping, y: MemoryMapping)
    requires x.start > y.start
    ensures InsertBehind(InsertBehind(s, x), y) == InsertBehind(InsertBehind(s, y), x)
  {
    if s != [] {
      var front, last := s[..|s| - 1], s[|s| - 1];
      InsertsSwap(front, x, y);
      InsertSnoc(s, x, y);
      InsertSnoc(s, y, x);
      InsertSnoc(InsertBehind(front, x), last, y);
      InsertSnoc(InsertBehind(front, y), last, x);
      InsertSnoc(InsertBehind(front, y), last, y);
    } else {
      InsertSnoc([], x, y);
      InsertSnoc([], y, x);
    }
  }

  lemma InsertSnoc(s: seq<MemoryMapping>, last: MemoryMapping, m: MemoryMapping)
    ensures InsertBehind(s + [last], m) ==
      if last.start <= m.start then s + [last] + [m] else InsertBehind(s, m) + [last]
  {
    assert (s + [last])[..|s|] == s;
  }

  lemma CoversSplit(s: seq<MemoryMapping>, t: seq<MemoryMapping>, a: int)
    ensures Covers(s + t, a) <==> Covers(s, a) || Covers(t, a)
  {
    forall k | 0 <= k < |s| && s[k].Has(a) ensures Covers(s + t, a) {
      assert (s + t)[k].Has(a);
    }
    forall k | 0 <= k < |t| && t[k].Has(a) ensures Covers(s + t, a) {
      assert (s + t)[|s| + k].Has(a);
    }
  }

  lemma CoversOne(m: MemoryMapping, a: int)
    ensures Covers([m], a) <==> m.Has(a)
  {
    if m.Has(a) { assert [m][0].Has(a); }
  }

  // ---------- dead mappings ----------

  function Alive(s: seq<MemoryMapping>): seq<MemoryMapping> {
    if s == [] then []
    else if s[0].Empty() then Alive(s[1..])
    else [s[0]] + Alive(s[1..])
  }

  lemma {:induction false} AliveMembers(s: seq<MemoryMapping>, m: MemoryMapping)
    ensures m in Alive(s) <==> m in s && !m.Empty()
  {
    if s != [] {
      AliveMembers(s[1..], m);
      assert s == [s[0]] + s[1..];
    }
  }

  lemma {:induction false} AliveSorted(s: seq<MemoryMapping>)
    requires Sorted(s)
    ensures Sorted(Alive(s))
  {
    if s != [] {
      AliveSorted(s[1..]);
      var rest := Alive(s[1..]);
      forall k | 0 <= k < |rest| ensures s[0].start <= rest[k].start {
        AliveMembers(s[1..], rest[k]);
      }
    }
  }

  lemma {:induction false} AliveSame(s: seq<MemoryMapping>)
    requires Live(s)
    ensures Alive(s) == s
  {
    if s != [] {
      AliveSame(s[1..]);
    }
  }

  lemma {:induction false} AliveShorter(s: seq<MemoryMapping>)
    ensures |Alive(s)| <= |s|
  {
    if s != [] {
      AliveShorter(s[1..]);
    }
  }

  lemma CoversMember(s: seq<MemoryMapping>, a: int)
    ensures Covers(s, a) <==> exists m :: m in s && m.Has(a)
  {
  }

  /** Dropping the empty mappings loses no address and keeps the order. */
  lemma AliveLaw(s: seq<MemoryMapping>)
    ensures Live(Alive(s)) && |Alive(s)| <= |s|
    ensures Sorted(s) ==> Sorted(Alive(s))
    ensures Fit(s) ==> Fit(Alive(s))
    ensures Live(s) ==> Alive(s) == s
    ensures forall a :: Covers(Alive(s), a) <==> Covers(s, a)
  {
    AliveShorter(s);
    if Sorted(s) { AliveSorted(s); }
    if Live(s) { AliveSame(s); }
    forall m ensures m in Alive(s) <==> m in s && !m.Empty() {
      AliveMembers(s, m);
    }
    assert forall k :: 0 <= k < |Alive(s)| ==> Alive(s)[k] in Alive(s);
    forall a ensures Covers(Alive(s), a) <==> Covers(s, a) {
      CoversMember(s, a);
      CoversMember(Alive(s), a);
    }
  }

  // ---------- merging ----------

  /** One pass over the list: the first two mappings are merged if they are
      contiguous, and the result meets the next one. */
  function Crunch(s: seq<MemoryMapping>): seq<MemoryMapping>
    decreases |s|
  {
    if |s| < 2 then s
    else if Contiguous(s[0], s[1]) then Crunch([Merge(s[0], s[1])] + s[2..])
    else [s[0]] + Crunch(s[1..])
  }

  /** The pass meets a mapping that ends where the merged range before it ends,
      and starts later. */
  predicate Clashes(s: seq<MemoryMapping>)
    decreases |s|
  {
    if |s| < 2 then false
    else if Contiguous(s[0], s[1]) then Clashes([Merge(s[0], s[1])] + s[2..])
    else s[0].End() == s[1].End() || Clashes(s[1..])
  }

  lemma {:induction false} CrunchCovers(s: seq<MemoryMapping>, a: int)
    requires Live(s)
    ensures Live(Crunch(s)) && |Crunch(s)| <= |s|
    ensures Covers(Crunch(s), a) <==> Covers(s, a)
    decreases |s|
  {
    if |s| >= 2 {
      if Contiguous(s[0], s[1]) {
        var m := Merge(s[0], s[1]);
        MergeLaw(s[0], s[1]);
        CrunchCovers([m] + s[2..], a);
        CoversSplit([m], s[2..], a);
        CoversSplit([s[0], s[1]], s[2..], a);
        CoversSplit([s[0]], [s[1]], a);
        CoversOne(m, a);
        CoversOne(s[0], a);
        CoversOne(s[1], a);
        assert s == [s[0], s[1]] + s[2..];
        assert [s[0], s[1]] == [s[0]] + [s[1]];
      } else {
        CrunchCovers(s[1..], a);
        CoversSplit([s[0]], s[1..], a);
        CoversSplit([s[0]], Crunch(s[1..]), a);
        assert s == [s[0]] + s[1..];
      }
    }
  }

  lemma {:induction false} CrunchFits(s: seq<MemoryMapping>)
    requires Live(s) && Fit(s)
    ensures Fit(Crunch(s))
    decreases |s|
  {
    if |s| >= 2 {
      if Contiguous(s[0], s[1]) {
        CrunchFits([Merge(s[0], s[1])] + s[2..]);
      } else {
        CrunchFits(s[1..]);
      }
    }
  }

  /** The first mapping of the result starts where the first one of the list
      does; the result is in order. */
  lemma {:induction false} CrunchSorted(s: seq<MemoryMapping>)
    requires Live(s) && Sorted(s)
    ensures Sorted(Crunch(s)) && (s != [] ==>
      Crunch(s) != [] && Crunch(s)[0].start == s[0].start && Crunch(s)[0].End() >= s[0].End())
    decreases |s|
  {
    if |s| >= 2 {
      if Contiguous(s[0], s[1]) {
        CrunchSorted([Merge(s[0], s[1])] + s[2..]);
      } else {
        CrunchSorted(s[1..]);
      }
    }
  }

  lemma SeparatedCons(m: MemoryMapping, s: seq<MemoryMapping>)
    requires s != [] && Sorted(s)
    ensures Separated([m] + s) <==> m.End() + 1 < s[0].start && Separated(s)
  {
    var t := [m] + s;
    if Separated(t) {
      assert t[0].End() + 1 < t[1].start;
      forall j, k | 0 <= j < k < |s| ensures s[j].End() + 1 < s[k].start {
        assert t[j + 1].End() + 1 < t[k + 1].start;
      }
    }
    if m.End() + 1 < s[0].start && Separated(s) {
      forall j, k | 0 <= j < k < |t| ensures t[j].End() + 1 < t[k].start {
        assert s[0].start <= s[k - 1].start;
        if j > 0 { assert s[j - 1].End() + 1 < s[k - 1].start; }
      }
    }
  }

  /** The pass leaves a gap between all mappings exactly when it meets no two
      ranges with a common end and different starts. */
  lemma {:induction false} CrunchSeparates(s: seq<MemoryMapping>)
    requires Live(s) && Sorted(s)
    ensures Separated(Crunch(s)) <==> !Clashes(s)
    decreases |s|
  {
    hide Separated;
    if |s| < 2 {
      assert Separated(s) by { OneSeparated(s); }
    } else if Contiguous(s[0], s[1]) {
      CrunchSeparates([Merge(s[0], s[1])] + s[2..]);
    } else {
      CrunchSeparates(s[1..]);
      CrunchSorted(s[1..]);
      SeparatedCons(s[0], Crunch(s[1..]));
      assert s[0].start <= s[1].start;
      MergeLaw(s[0], s[1]);
    }
  }

  lemma OneSeparated(s: seq<MemoryMapping>)
    requires |s| < 2
    ensures Separated(s)
  {
  }

  predicate EndsDiffer(s: seq<MemoryMapping>) {
    forall j, k :: 0 <= j < k < |s| ==> s[j].End() != s[k].End()
  }

  /** Where all ends differ, nothing clashes. */
  lemma {:induction false} DistinctEnds(s: seq<MemoryMapping>)
    requires Live(s) && Sorted(s) && EndsDiffer(s)
    ensures !Clashes(s)
    decreases |s|
  {
    if |s| >= 2 {
      if Contiguous(s[0], s[1]) {
        var t := [Merge(s[0], s[1])] + s[2..];
        assert t[0].End() == s[0].End() || t[0].End() == s[1].End();
        forall j, k | 0 <= j < k < |t| ensures t[j].End() != t[k].End() {
          assert t[k] == s[k + 1];
        }
        DistinctEnds(t);
      } else {
        assert s[0].End() != s[1].End();
        DistinctEnds(s[1..]);
      }
    }
  }

  // ---------- adding one range to a separated map ----------

  lemma SeparatedDiffer(s: seq<MemoryMapping>)
    requires Live(s) && Separated(s)
    ensures Sorted(s) && EndsDiffer(s) && Disjoint(s)
  {
    forall j, k | 0 <= j < k < |s| ensures s[j].start <= s[k].start && s[j].End() < s[k].start {
      assert s[j].End() + 1 < s[k].start;
    }
  }

  /** Some mapping of the list has the end of `n`, but not its start. */
  predicate SharesEnd(s: seq<MemoryMapping>, n: MemoryMapping) {
    exists k :: 0 <= k < |s| && s[k].End() == n.End() && s[k].start != n.start
  }

  lemma SharesEndTail(s: seq<MemoryMapping>, n: MemoryMapping)
    requires s != []
    ensures SharesEnd(s, n) <==> (s[0].End() == n.End() && s[0].start != n.start) || SharesEnd(s[1..], n)
  {
    forall k | 0 <= k < |s[1..]| && s[1..][k].End() == n.End() && s[1..][k].start != n.start ensures SharesEnd(s, n) {
      assert s[k + 1].End() == n.End();
    }
    if k :| 0 <= k < |s| && s[k].End() == n.End() && s[k].start != n.start {
      if k > 0 { assert s[1..][k - 1] == s[k]; }
    }
  }

  /** What the mappings behind the first one see of it once it is merged. */
  lemma SharesMerged(acc: MemoryMapping, s: seq<MemoryMapping>)
    requires !acc.Empty() && s != [] && Live(s) && Separated(s) && acc.start <= s[0].start && Contiguous(acc, s[0])
    ensures SharesEnd(s[1..], Merge(acc, s[0])) <==> SharesEnd(s, acc)
  {
    SharesEndTail(s, acc);
    Tail(s);
    var m, t := Merge(acc, s[0]), s[1..];
    assert forall k :: 0 <= k < |t| ==> t[k] == s[k + 1];
    assert forall k :: 0 <= k < |t| ==> t[k].End() > s[0].End();
    if acc.End() <= s[0].End() {
      assert m.End() == s[0].End();
    } else {
      assert m.End() == acc.End() && m.start == acc.start;
    }
  }

  lemma SharesNone(n: MemoryMapping, s: seq<MemoryMapping>)
    requires Live(s) && Separated(s) && (s != [] ==> n.End() < s[0].start)
    ensures !SharesEnd(s, n)
  {
    if s != [] { Tail(s); }
  }

  /** A merged range in front of mappings it has not met yet. */
  lemma {:induction false} FrontClashes(acc: MemoryMapping, s: seq<MemoryMapping>)
    requires !acc.Empty() && Live(s) && Separated(s) && (s != [] ==> acc.start <= s[0].start)
    ensures Clashes([acc] + s) <==> SharesEnd(s, acc)
    decreases |s|
  {
    var t := [acc] + s;
    if s != [] {
      assert t[0] == acc && t[1] == s[0] && t[1..] == s && t[2..] == s[1..];
      Tail(s);
      if Contiguous(acc, s[0]) {
        SharesMerged(acc, s);
        assert |s| > 1 ==> s[1..][0] == s[1];
        hide Separated;
        hide Live;
        hide SharesEnd;
        FrontClashes(Merge(acc, s[0]), s[1..]);
      } else {
        SeparatedDiffer(s);
        DistinctEnds(s);
        SharesEndTail(s, acc);
        if acc.End() < s[0].start { SharesNone(acc, s); }
      }
    }
  }

  lemma Tail(s: seq<MemoryMapping>)
    requires s != []
    ensures Live(s) ==> !s[0].Empty() && Live(s[1..])
    ensures Separated(s) ==> Separated(s[1..]) && forall k :: 0 < k < |s| ==> s[0].End() + 1 < s[k].start
    ensures Sorted(s) ==> Sorted(s[1..]) && forall k :: 0 < k < |s| ==> s[0].start <= s[k].start
  {
  }

  /** Nothing between the first mapping `m` and the new range. */
  lemma OneBefore(m: MemoryMapping, n: MemoryMapping, t: seq<MemoryMapping>)
    requires !n.Empty() && !m.Empty() && m.start <= n.start && Live(t) && Separated(t) && (t != [] ==>
      n.start <= t[0].start)
    requires forall k :: 0 <= k < |t| ==> m.End() + 1 < t[k].start
    ensures Clashes([m, n] + t) <==> (m.End() == n.End() && m.start != n.start) || SharesEnd(t, n)
  {
    var all := [m, n] + t;
    assert all[2..] == t && all[1..] == [n] + t;
    if Contiguous(m, n) {
      MergedBefore(m, n, t);
      hide SharesEnd;
      hide Separated;
      hide Live;
      FrontClashes(Merge(m, n), t);
    } else {
      if m.End() == n.End() { SharesNone(n, t); }
      hide SharesEnd;
      hide Separated;
      hide Live;
      FrontClashes(n, t);
    }
  }

  lemma MergedBefore(m: MemoryMapping, n: MemoryMapping, t: seq<MemoryMapping>)
    requires !n.Empty() && !m.Empty() && m.start <= n.start && Contiguous(m, n) && Live(t) && Separated(t)
    requires forall k :: 0 <= k < |t| ==> m.End() + 1 < t[k].start
    ensures SharesEnd(t, Merge(m, n)) <==> SharesEnd(t, n)
  {
    if n.End() <= m.End() {
      SharesNone(n, t);
      SharesNone(Merge(m, n), t);
    } else {
      assert Merge(m, n).End() == n.End() && Merge(m, n).start == m.start;
      assert forall k :: 0 <= k < |t| ==> n.start < t[k].start && m.start < t[k].start;
    }
  }

  /** The new range among the mappings that start no later (`s`) and no earlier
      (`t`) than it. */
  lemma {:induction false} InsertClashes(s: seq<MemoryMapping>, n: MemoryMapping, t: seq<MemoryMapping>)
    requires !n.Empty() && Live(s + t) && Separated(s + t) && Sorted(s + [n] + t)
    ensures Clashes(s + [n] + t) <==> SharesEnd(s + t, n)
    decreases |s|
  {
    hide Separated;
    hide Sorted;
    hide Live;
    hide SharesEnd;
    var all, was := s + [n] + t, s + t;
    assert all[|s|] == n;
    if s == [] {
      assert was == t && all == [n] + t;
      Tail(all);
      assert t != [] ==> all[1] == t[0];
      FrontClashes(n, t);
    } else if |s| == 1 {
      var m := s[0];
      Tail(was);
      Tail(all);
      SharesEndTail(was, n);
      assert all == [m, n] + t && was[1..] == t && all[1..] == [n] + t;
      Tail([n] + t);
      assert t != [] ==> ([n] + t)[1] == t[0];
      assert forall k :: 0 <= k < |t| ==> was[k + 1] == t[k];
      OneBefore(m, n, t);
    } else {
      InsertDown(s, n, t);
      assert s == [s[0]] + s[1..];
      InsertClashes(s[1..], n, t);
    }
  }

  lemma InsertDown(s: seq<MemoryMapping>, n: MemoryMapping, t: seq<MemoryMapping>)
    requires !n.Empty() && Live(s + t) && Separated(s + t) && Sorted(s + [n] + t) && |s| > 1
    ensures Live(s[1..] + t) && Separated(s[1..] + t) && Sorted(s[1..] + [n] + t)
    ensures Clashes(s + [n] + t) <==> Clashes(s[1..] + [n] + t)
    ensures SharesEnd(s + t, n) <==> SharesEnd(s[1..] + t, n)
  {
    hide Separated;
    hide Sorted;
    hide Live;
    hide SharesEnd;
    var all, was := s + [n] + t, s + t;
    assert was[1..] == s[1..] + t && all[1..] == s[1..] + [n] + t;
    Tail(was);
    Tail(all);
    SharesEndTail(was, n);
    assert all[0] == was[0] && all[1] == was[1] && all[|s|] == n;
    Tail(all[1..]);
    assert all[1..][|s| - 1] == n;
  }

  lemma {:induction false} SortedUnique(s: seq<MemoryMapping>, t: seq<MemoryMapping>)
    requires multiset(s) == multiset(t) && Live(s) && Separated(s) && Sorted(t)
    ensures s == t
  {
    hide Separated;
    hide Sorted;
    hide Live;
    SameSize(s, t);
    if s != [] {
      LeastFirst(s, t);
      Tail(s);
      Tail(t);
      SameTail(s, t);
      SortedUnique(s[1..], t[1..]);
      assert s == [s[0]] + s[1..] && t == [t[0]] + t[1..];
    }
  }

  lemma SameSize(s: seq<MemoryMapping>, t: seq<MemoryMapping>)
    requires multiset(s) == multiset(t)
    ensures |s| == |t|
  {
    assert |s| == |multiset(s)| && |t| == |multiset(t)|;
  }

  lemma SameTail(s: seq<MemoryMapping>, t: seq<MemoryMapping>)
    requires multiset(s) == multiset(t) && s != [] && t != [] && s[0] == t[0]
    ensures multiset(s[1..]) == multiset(t[1..])
  {
    assert s == [s[0]] + s[1..] && t == [t[0]] + t[1..];
    assert multiset(s[1..]) == multiset(s) - multiset{s[0]};
    assert multiset(t[1..]) == multiset(t) - multiset{t[0]};
  }

  lemma LeastFirst(s: seq<MemoryMapping>, t: seq<MemoryMapping>)
    requires multiset(s) == multiset(t) && Live(s) && Separated(s) && Sorted(t) && s != [] && t != []
    ensures s[0] == t[0]
  {
    assert s[0] in multiset(s) && t[0] in multiset(t);
    var j :| 0 <= j < |t| && t[j] == s[0];
    var k :| 0 <= k < |s| && s[k] == t[0];
    Tail(s);
    Tail(t);
  }

  lemma Without(s: seq<MemoryMapping>, i: nat)
    requires i < |s|
    ensures multiset(s[..i] + s[i + 1..]) == multiset(s) - multiset{s[i]}
  {
    assert s == s[..i] + [s[i]] + s[i + 1..];
  }

  lemma WithoutSorted(s: seq<MemoryMapping>, i: nat)
    requires i < |s| && Sorted(s)
    ensures Sorted(s[..i] + s[i + 1..])
  {
    var t := s[..i] + s[i + 1..];
    assert forall k :: 0 <= k < |t| ==> t[k] == if k < i then s[k] else s[k + 1];
  }

  ghost predicate Pairwise(s: seq<MemoryMapping>, rel: (MemoryMapping, MemoryMapping) -> bool) {
    forall j, k :: 0 <= j < k < |s| ==> rel(s[j], s[k])
  }

  /** A symmetric relation between all entries survives a change of order. */
  lemma {:induction false} PairwisePermuted(s: seq<MemoryMapping>, t: seq<MemoryMapping>, rel: (MemoryMapping,
          MemoryMapping) -> bool)
    requires multiset(s) == multiset(t) && Pairwise(s, rel) && forall m, n :: rel(m, n) ==> rel(n, m)
    ensures Pairwise(t, rel)
  {
    SameSize(s, t);
    if s != [] {
      assert s[0] in multiset(t);
      var i :| 0 <= i < |t| && t[i] == s[0];
      var rest := t[..i] + t[i + 1..];
      SameRest(s, t, i);
      PairwisePermuted(s[1..], rest, rel);
      SameMembers(s[1..], rest);
      hide Live;
      hide Fit;
      hide Covers;
      forall k | 0 <= k < |rest| ensures rel(t[i], rest[k]) {
        assert rest[k] in s[1..];
      }
      PairwiseInserted(t, i, rel);
    }
  }

  lemma SameRest(s: seq<MemoryMapping>, t: seq<MemoryMapping>, i: nat)
    requires multiset(s) == multiset(t) && s != [] && i < |t| && t[i] == s[0]
    ensures multiset(s[1..]) == multiset(t[..i] + t[i + 1..])
  {
    Without(t, i);
    Without(s, 0);
    assert s[..0] + s[1..] == s[1..];
  }

  lemma PairwiseInserted(t: seq<MemoryMapping>, i: nat, rel: (MemoryMapping, MemoryMapping) -> bool)
    requires i < |t| && Pairwise(t[..i] + t[i + 1..], rel) && forall m, n :: rel(m, n) ==> rel(n, m)
    requires var rest := t[..i] + t[i + 1..]; forall k :: 0 <= k < |rest| ==> rel(t[i], rest[k])
    ensures Pairwise(t, rel)
  {
    var rest := t[..i] + t[i + 1..];
    forall k | 0 <= k < |t| && k != i ensures t[k] == rest[if k < i then k else k - 1] {
    }
  }

  lemma EndsDifferSorted(s: seq<MemoryMapping>, t: seq<MemoryMapping>)
    requires multiset(s) == multiset(t) && EndsDiffer(s)
    ensures EndsDiffer(t)
  {
    PairwisePermuted(s, t, (m: MemoryMapping, n: MemoryMapping) => m.End() != n.End());
  }

  lemma DisjointSorted(s: seq<MemoryMapping>, t: seq<MemoryMapping>)
    requires multiset(s) == multiset(t) && Disjoint(s)
    ensures Disjoint(t)
  {
    PairwisePermuted(s, t, (m: MemoryMapping, n: MemoryMapping) => m.End() < n.start || n.End() < m.start);
  }

  /** A separated map stays separated when a range is added, unless the range
      ends where a mapping of a different start does: exactly then a leftover
      overlap stays. */
  lemma AddedStaysSeparated(was: seq<MemoryMapping>, n: MemoryMapping, sorted: seq<MemoryMapping>)
    requires !n.Empty() && Live(was) && Separated(was)
    requires Sorted(sorted) && multiset(sorted) == multiset(was + [n])
    ensures Separated(Crunch(sorted)) <==> !SharesEnd(was, n)
  {
    SameMembers(sorted, was + [n]);
    assert (was + [n])[|was|] == n;
    assert n in sorted;
    var i :| 0 <= i < |sorted| && sorted[i] == n;
    var s, t := sorted[..i], sorted[i + 1..];
    assert sorted == s + [n] + t;
    Without(sorted, i);
    WithoutSorted(sorted, i);
    assert multiset(was + [n]) - multiset{n} == multiset(was);
    SortedUnique(was, s + t);
    InsertClashes(s, n, t);
    CrunchSeparates(sorted);
  }

  /** Two overlapping ranges with a common end are not merged. */
  lemma SharedEndLeft()
    ensures !Separated(Crunch([MemoryMapping(0, 10, 1), MemoryMapping(5, 5, 1)]))
  {
    var s := [MemoryMapping(0, 10, 1), MemoryMapping(5, 5, 1)];
    assert s[1..] == [s[1]];
    assert Crunch(s) == s;
    assert s[0].End() + 1 >= s[1].start;
  }

  // ---------- removing a range ----------

  predicate Before(m: MemoryMapping, lo: int) { m.End() < lo }

  predicate After(m: MemoryMapping, hi: int) { m.start > hi }

  predicate StartGap(m: MemoryMapping, lo: int) { lo > m.start }

  predicate EndGap(m: MemoryMapping, hi: int) { hi < m.End() }

  /** The removed range lies inside the mapping. */
  predicate Splits(m: MemoryMapping, lo: int, hi: int) {
    !Before(m, lo) && !After(m, hi) && StartGap(m, lo) && EndGap(m, hi)
  }

  /** What stays in the place of a mapping. */
  function Trim(m: MemoryMapping, lo: int, hi: int): MemoryMapping
    requires 0 <= lo <= hi + 1
  {
    if Before(m, lo) || After(m, hi) then m
    else if StartGap(m, lo) then m.(length := lo - m.start)
    else if EndGap(m, hi) then m.(start := hi + 1, length := m.End() - hi)
    else m.(length := 0)
  }

  /** The part behind the removed range, stored in a new entry. */
  function Rest(m: MemoryMapping, hi: int, kind: nat): MemoryMapping
    requires -1 <= hi < m.End()
  {
    MemoryMapping(hi + 1, m.End() - hi, kind)
  }

  /** The remaining parts hold exactly the addresses outside the removed range. */
  lemma TrimLaw(m: MemoryMapping, lo: int, hi: int, kind: nat, a: int)
    requires 0 <= lo <= hi + 1 && m.End() >= 0
    ensures m.Has(a) && !(lo <= a <= hi)
      <==> Trim(m, lo, hi).Has(a) || (Splits(m, lo, hi) && Rest(m, hi, kind).Has(a))
    ensures m.Fits() ==> Trim(m, lo, hi).Fits() && (Splits(m, lo, hi) ==> Rest(m, hi, kind).Fits())
  {
  }

  /** The map after the loop has come to entry `i` of the sorted map `s`. */
  ghost predicate Trimmed(s: seq<MemoryMapping>, t: seq<MemoryMapping>, lo: int, hi: int, i: nat)
    requires 0 <= lo <= hi + 1 && i <= |s|
  {
    && |t| == |s|
    && (forall k :: 0 <= k < i ==> t[k] == Trim(s[k], lo, hi) && !Splits(s[k], lo, hi))
    && (forall k :: i <= k < |s| ==> t[k] == s[k])
  }

  lemma TrimmedNone(s: seq<MemoryMapping>, lo: int, hi: int)
    requires 0 <= lo <= hi + 1
    ensures Trimmed(s, s, lo, hi, 0)
  {
  }

  lemma TrimmedAt(s: seq<MemoryMapping>, t: seq<MemoryMapping>, lo: int, hi: int, i: nat)
    requires 0 <= lo <= hi + 1 && i < |s| && Trimmed(s, t, lo, hi, i)
    ensures |t| == |s| && t[i] == s[i]
  {
  }

  lemma TrimStep(s: seq<MemoryMapping>, t: seq<MemoryMapping>, lo: int, hi: int, i: nat)
    requires 0 <= lo <= hi + 1 && i < |s| && Trimmed(s, t, lo, hi, i) && !Splits(s[i], lo, hi)
    ensures Trimmed(s, t[i := Trim(s[i], lo, hi)], lo, hi, i + 1)
    ensures Fit(s) && Fit(t) && Ends(s) ==> Fit(t[i := Trim(s[i], lo, hi)])
  {
    if Ends(s) { TrimLaw(s[i], lo, hi, 0, 0); }
  }

  ghost predicate Removed(s: seq<MemoryMapping>, t: seq<MemoryMapping>, lo: int, hi: int) {
    forall a :: Covers(t, a) <==> Covers(s, a) && !(lo <= a <= hi)
  }

  /** The loop may stop at a mapping behind the range: the list is sorted. */
  lemma TrimmedAll(s: seq<MemoryMapping>, t: seq<MemoryMapping>, lo: int, hi: int, i: nat)
    requires 0 <= lo <= hi + 1 && i <= |s| && Ends(s) && Sorted(s) && Trimmed(s, t, lo, hi, i)
    requires i < |s| ==> After(s[i], hi)
    ensures Removed(s, t, lo, hi)
    ensures Fit(s) ==> Fit(t)
    ensures forall k :: 0 <= k < |s| ==> !Splits(s[k], lo, hi)
  {
    assert forall k :: i <= k < |s| ==> s[i].start <= s[k].start;
    forall k | 0 <= k < |s| ensures t[k] == Trim(s[k], lo, hi) && !Splits(s[k], lo, hi) {
    }
    forall a ensures Covers(t, a) <==> Covers(s, a) && !(lo <= a <= hi) {
      forall k | 0 <= k < |s| ensures t[k].Has(a) <==> s[k].Has(a) && !(lo <= a <= hi) {
        TrimLaw(s[k], lo, hi, 0, a);
      }
    }
  }

  /** The first mapping that has to be split; the loop ends there. */
  function FirstSplit(s: seq<MemoryMapping>, lo: int, hi: int): (i: nat)
    ensures i <= |s| && (i < |s| ==> Splits(s[i], lo, hi)) && forall k :: 0 <= k < i ==> !Splits(s[k], lo, hi)
  {
    if s == [] then 0 else if Splits(s[0], lo, hi) then 0 else FirstSplit(s[1..], lo, hi) + 1
  }

  /** No mapping behind that one meets the range. */
  ghost predicate ClearBehind(s: seq<MemoryMapping>, lo: int, hi: int) {
    forall k, a :: FirstSplit(s, lo, hi) < k < |s| && lo <= a <= hi ==> !s[k].Has(a)
  }

  lemma FirstSplitIs(s: seq<MemoryMapping>, lo: int, hi: int, i: nat)
    requires i <= |s| && (i < |s| ==> Splits(s[i], lo, hi)) && forall k :: 0 <= k < i ==> !Splits(s[k], lo, hi)
    ensures FirstSplit(s, lo, hi) == i
  {
    var j := FirstSplit(s, lo, hi);
    if j < |s| { assert Splits(s[j], lo, hi); }
    if i < |s| { assert Splits(s[i], lo, hi); }
  }

  lemma NoSplit(s: seq<MemoryMapping>, lo: int, hi: int)
    requires forall k :: 0 <= k < |s| ==> !Splits(s[k], lo, hi)
    ensures ClearBehind(s, lo, hi)
  {
    FirstSplitIs(s, lo, hi, |s|);
  }

  /** In a sorted list of disjoint mappings none does. */
  lemma DisjointClear(s: seq<MemoryMapping>, lo: int, hi: int)
    requires Live(s) && Sorted(s) && Disjoint(s)
    ensures ClearBehind(s, lo, hi)
  {
    var i := FirstSplit(s, lo, hi);
    forall k | i < k < |s| ensures s[i].End() < s[k].start {
    }
  }

  /** The mapping that is split is the last one to be changed: that is enough
      exactly when nothing behind it meets the range. */
  lemma TrimmedSplit(s: seq<MemoryMapping>, u: seq<MemoryMapping>, lo: int, hi: int, i: nat, kind: nat)
    requires 0 <= lo <= hi + 1 && i < |s| && Ends(s) && Splits(s[i], lo, hi)
    requires Trimmed(s, u, lo, hi, i)
    ensures var t := u[i := Trim(s[i], lo, hi)] + [Rest(s[i], hi, kind)];
      (Removed(s, t, lo, hi) <==> ClearBehind(s, lo, hi)) && (Fit(s) ==> Fit(t))
  {
    FirstSplitIs(s, lo, hi, i);
    var t, r := u[i := Trim(s[i], lo, hi)], Rest(s[i], hi, kind);
    SplitCovers(s, t, lo, hi, i, kind);
    if !ClearBehind(s, lo, hi) {
      var k, a :| i < k < |s| && lo <= a <= hi && s[k].Has(a);
      assert (t + [r])[k].Has(a);
      assert Covers(t + [r], a) && !(Covers(s, a) && !(lo <= a <= hi));
    }
    forall k | 0 <= k <= i ensures Fit(s) ==> t[k].Fits() {
      TrimLaw(s[k], lo, hi, kind, 0);
    }
    TrimLaw(s[i], lo, hi, kind, 0);
  }

  lemma SplitCovers(s: seq<MemoryMapping>, t: seq<MemoryMapping>, lo: int, hi: int, i: nat, kind: nat)
    requires 0 <= lo <= hi + 1 && i < |s| == |t| && Ends(s) && Splits(s[i], lo, hi)
    requires forall k :: 0 <= k < i ==> t[k] == Trim(s[k], lo, hi) && !Splits(s[k], lo, hi)
    requires t[i] == Trim(s[i], lo, hi) && forall k :: i < k < |s| ==> t[k] == s[k]
    ensures ClearBehind(s, lo, hi) ==> Removed(s, t + [Rest(s[i], hi, kind)], lo, hi)
  {
    FirstSplitIs(s, lo, hi, i);
    var r := Rest(s[i], hi, kind);
    if ClearBehind(s, lo, hi) {
      forall a ensures Covers(t + [r], a) <==> Covers(s, a) && !(lo <= a <= hi) {
        CoversSplit(t, [r], a);
        CoversOne(r, a);
        forall k | 0 <= k < |s| ensures t[k].Has(a) || (k == i && r.Has(a)) <==> s[k].Has(a) && !(lo <= a <= hi) {
          if k <= i { TrimLaw(s[k], lo, hi, kind, a); }
        }
        if Covers(s, a) && !(lo <= a <= hi) {
          var k :| 0 <= k < |s| && s[k].Has(a);
          assert t[k].Has(a) || (k == i && r.Has(a));
        }
      }
    }
  }

  /** What the loop leaves of two nested mappings: it ends with the outer one, and
      the inner one keeps addresses of the removed range. */
  lemma NestedLeft(kind: nat)
    ensures var s := [MemoryMapping(0, 0x10000, 1), MemoryMapping(0x2000, 0x1000, 1)];
      var t := s[0 := Trim(s[0], 0x2000, 0x2FFF)] + [Rest(s[0], 0x2FFF, kind)];
      && SortStable(s) == s && Ends(s) && FirstSplit(s, 0x2000, 0x2FFF) == 0
      && !Removed(s, t, 0x2000, 0x2FFF) && Covers(t, 0x2000)
  {
    var s := [MemoryMapping(0, 0x10000, 1), MemoryMapping(0x2000, 0x1000, 1)];
    var t := s[0 := Trim(s[0], 0x2000, 0x2FFF)] + [Rest(s[0], 0x2FFF, kind)];
    SortedStays(s);
    FirstSplitIs(s, 0x2000, 0x2FFF, 0);
    assert s[1].Has(0x2000);
    TrimmedNone(s, 0x2000, 0x2FFF);
    TrimmedSplit(s, s, 0x2000, 0x2FFF, 0, kind);
    assert t[1].Has(0x2000);
  }

  /** Of two mappings with the same start the order of entry decides. */
  lemma OrderDecides()
    ensures var a, b := MemoryMapping(0x1000, 0x2000, 1), MemoryMapping(0x1000, 0x10000, 1);
      && ClearBehind(SortStable([a, b]), 0x2000, 0x2FFF) && !ClearBehind(SortStable([b, a]), 0x2000, 0x2FFF)
  {
    var a, b := MemoryMapping(0x1000, 0x2000, 1), MemoryMapping(0x1000, 0x10000, 1);
    SortedStays([a, b]);
    SortedStays([b, a]);
    FirstSplitIs([a, b], 0x2000, 0x2FFF, 1);
    FirstSplitIs([b, a], 0x2000, 0x2FFF, 0);
    assert [b, a][1].Has(0x2000);
  }

  // ---------- the kernel's own bytes ----------

  /** The aligned end reaches the last byte of the kernel unless that byte is
      the first of a page. */
  lemma EndAlignedLaw(end: nat)
    ensures EndAligned(end) >= end <==> end % PAGE_SIZE != 0
    ensures end % PAGE_SIZE == 0 ==> EndAligned(end) == end - 1
    ensures end % PAGE_SIZE != 0 ==> (EndAligned(end) + 1) % PAGE_SIZE == 0 && EndAligned(end) - end < PAGE_SIZE
  {
  }

  /** No byte of the kernel is left in the map exactly when its last byte is not
      the first of a page, or was not in the map at all. */
  lemma KernelRemoved(s: seq<MemoryMapping>, t: seq<MemoryMapping>, kernel: MemoryMapping)
    requires !kernel.Empty() && Removed(s, t, AlignFloor(kernel.start), EndAligned(kernel.End()))
    ensures (forall a :: kernel.Has(a) ==> !Covers(t, a)) <==>
      (kernel.End() % PAGE_SIZE != 0 || !Covers(s, kernel.End()))
  {
    var end := kernel.End();
    EndAlignedLaw(end);
    assert kernel.Has(end);
    assert AlignFloor(kernel.start) <= kernel.start;
    assert Covers(t, end) <==> Covers(s, end) && !(AlignFloor(kernel.start) <= end <= EndAligned(end));
  }

  /** A kernel whose last byte starts a page leaves that byte available. */
  lemma LastByteLeft()
    ensures var all, kernel := [MemoryMapping(0, 0x10_0000, 1)], FromAddresses(0x1000, 0x2000);
      forall t :: Removed(all, t, AlignFloor(kernel.start), EndAligned(kernel.End())) ==>
        kernel.Has(0x2000) && Covers(t, 0x2000)
  {
    var all := [MemoryMapping(0, 0x10_0000, 1)];
    assert all[0].Has(0x2000);
    assert Covers(all, 0x2000);
    EndAlignedLaw(0x2000);
  }
}
