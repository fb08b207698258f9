/** The boot memory map, changed in place
    (src/sys/kernel/src/boot_args.cpp). */
module BootArguments {

  import opened BootRanges
  import opened Shared

  // ---------- bubble sort ----------

  /** The last `done` entries have reached their places. */
  ghost predicate Settled(s: seq<MemoryMapping>, done: nat) {
    forall j, k :: 0 <= j < k < |s| && |s| - done <= k ==> s[j].start <= s[k].start
  }

  /** In round `done` the entry before `i` is the largest so far. */
  ghost predicate Rising(s: seq<MemoryMapping>, done: nat, i: nat) {
    && Settled(s, done)
    && (0 < i <= |s| ==> forall j :: 0 <= j < i - 1 ==> s[j].start <= s[i - 1].start)
    && (0 < |s| - done < i ==> Settled(s, done + 1))
  }

  function Exchanged(s: seq<MemoryMapping>, i: nat): seq<MemoryMapping>
    requires 0 < i < |s|
  {
    s[i - 1 := s[i]][i := s[i - 1]]
  }

  lemma ExchangedMembers(s: seq<MemoryMapping>, i: nat)
    requires 0 < i < |s|
    ensures multiset(Exchanged(s, i)) == multiset(s)
  {
    assert s == s[..i - 1] + [s[i - 1], s[i]] + s[i + 1..];
    assert Exchanged(s, i) == s[..i - 1] + [s[i], s[i - 1]] + s[i + 1..];
  }

  /** An exchange of neighbours that are out of order makes no difference to the
      result. */
  lemma {:induction false} ExchangedSort(s: seq<MemoryMapping>, i: nat)
    requires 0 < i < |s| && s[i - 1].start > s[i].start
    ensures SortStable(Exchanged(s, i)) == SortStable(s)
  {
    hide SortStable;
    hide InsertBehind;
    var t, n := Exchanged(s, i), |s| - 1;
    if i == n {
      var front, x, y := s[..n - 1], s[n - 1], s[n];
      assert s == front + [x] + [y] && t == front + [y] + [x];
      SortTwo(front, x, y);
      SortTwo(front, y, x);
      InsertsSwap(SortStable(front), x, y);
    } else {
      assert s == s[..n] + [s[n]] && t == Exchanged(s[..n], i) + [s[n]];
      ExchangedSort(s[..n], i);
      SortSnoc(s[..n], s[n]);
      SortSnoc(Exchanged(s[..n], i), s[n]);
    }
  }

  lemma SortTwo(s: seq<MemoryMapping>, x: MemoryMapping, y: MemoryMapping)
    ensures SortStable(s + [x] + [y]) == InsertBehind(InsertBehind(SortStable(s), x), y)
  {
    SortSnoc(s, x);
    SortSnoc(s + [x], y);
  }

  lemma RiseEnds(s: seq<MemoryMapping>, done: nat, i: nat)
    requires Settled(s, done)
    ensures Rising(s, done, 1)
    ensures Rising(s, done, i) && (i == |s| || |s| == 0) ==> Settled(s, done + 1)
  {
  }

  lemma RiseStep(s: seq<MemoryMapping>, done: nat, i: nat)
    requires 0 < i < |s| && Rising(s, done, i)
    ensures s[i - 1].start <= s[i].start ==> Rising(s, done, i + 1)
    ensures s[i - 1].start > s[i].start ==>
      done < |s| && Settled(Exchanged(s, i), done) && Rising(Exchanged(s, i), done, i + 1)
    ensures s[i - 1].start <= s[i].start && Sorted(s[..i]) ==> Sorted(s[..i + 1])
  {
  }

  // ---------- the loops that remove and merge ----------

  lemma AliveStep(s: seq<MemoryMapping>, i: nat)
    requires i < |s|
    ensures !s[i].Empty() ==> s[..i] + Alive(s[i..]) == s[..i + 1] + Alive(s[i + 1..])
    ensures s[i].Empty() ==> Alive(s[i..]) == Alive(s[i + 1..])
  {
    assert s[i..][0] == s[i] && s[i..][1..] == s[i + 1..];
  }

  /** The merge loop stands before entry `i`: what is left of it yields this. */
  function Pass(s: seq<MemoryMapping>, i: nat): seq<MemoryMapping>
    requires 0 < i <= |s|
  {
    s[..i - 1] + Crunch(s[i - 1..])
  }

  lemma PassSkip(s: seq<MemoryMapping>, i: nat)
    requires 0 < i < |s| && !Contiguous(s[i - 1], s[i])
    ensures Pass(s, i + 1) == Pass(s, i)
  {
    var t := s[i - 1..];
    assert t[0] == s[i - 1] && t[1] == s[i] && t[1..] == s[i..];
  }

  lemma PassMerge(s: seq<MemoryMapping>, u: seq<MemoryMapping>, i: nat)
    requires 0 < i < |s| && Contiguous(s[i - 1], s[i])
    requires u == s[i - 1 := Merge(s[i - 1], s[i])][..i] + s[i + 1..]
    ensures |u| == |s| - 1 && Pass(u, i) == Pass(s, i)
  {
    var t := s[i - 1..];
    assert t[0] == s[i - 1] && t[1] == s[i] && t[2..] == s[i + 1..];
    assert u[..i - 1] == s[..i - 1] && u[i - 1..] == [Merge(s[i - 1], s[i])] + s[i + 1..];
  }

  lemma PassEnds(s: seq<MemoryMapping>)
    ensures s != [] ==> Pass(s, 1) == Crunch(s) && Pass(s, |s|) == s
    ensures s == [] ==> Crunch(s) == []
  {
    if s != [] {
      assert s[..0] + Crunch(s[0..]) == Crunch(s) by { assert s[0..] == s; }
      assert s[|s| - 1..] == [s[|s| - 1]] && s[..|s| - 1] + [s[|s| - 1]] == s;
    }
  }

  /** What sorting and merging make of the map with the new range. */
  lemma MergedLaw(was: seq<MemoryMapping>, n: MemoryMapping, sorted: seq<MemoryMapping>)
    requires !n.Empty() && Sorted(sorted) && multiset(sorted) == multiset(was + [n])
    ensures var s := Crunch(Alive(sorted));
      && Sorted(s) && Live(s)
      && (forall a :: Covers(s, a) <==> Covers(was, a) || n.Has(a))
      && (Live(was) && Separated(was) ==> (Separated(s) <==> !SharesEnd(was, n)))
      && (Live(was) && EndsDiffer(was + [n]) ==> Separated(s))
  {
    var live := Alive(sorted);
    AliveLaw(sorted);
    SameMembers(sorted, was + [n]);
    CrunchSorted(live);
    CrunchCovers(live, 0);
    forall a ensures Covers(Crunch(live), a) <==> Covers(was, a) || n.Has(a) {
      CrunchCovers(live, a);
      CoversSplit(was, [n], a);
      CoversOne(n, a);
    }
    if Live(was) {
      assert live == sorted;
      if Separated(was) { AddedStaysSeparated(was, n, sorted); }
      if EndsDiffer(was + [n]) {
        EndsDifferSorted(was + [n], sorted);
        DistinctEnds(sorted);
        CrunchSeparates(sorted);
      }
    }
  }

  // ---------- the kernel's range ----------

  lemma AlignedOrder(start: nat, end: nat)
    requires start <= end && 0 < end
    ensures 0 <= AlignFloor(start) <= EndAligned(end) + 1
  {
  }

  class Arguments {
    const memoryMap: array<MemoryMapping>
    var memoryMapCount: nat
    var kernelStart: nat
    var kernelEnd: nat

    function KernelRange(): MemoryMapping
      reads this
    {
      FromAddresses(kernelStart, kernelEnd)
    }

    ghost predicate Valid()
      reads this, memoryMap
    {
      && memoryMap.Length == MAX_MEMORY_ENTRIES && memoryMapCount <= memoryMap.Length
      && 0 < KernelRange().End() && KernelRange().End() + (PAGE_SIZE - 1) < TOP
      && Fit(Map())
    }

    /** The entries in use. */
    ghost function Map(): seq<MemoryMapping>
      reads this, memoryMap
      requires memoryMapCount <= memoryMap.Length
    {
      memoryMap[..memoryMapCount]
    }

    constructor (kernelStart: nat, kernelEnd: nat)
      requires 0 < FromAddresses(kernelStart, kernelEnd).End() < TOP - (PAGE_SIZE - 1)
      ensures Valid() && fresh(memoryMap) && Map() == []
      ensures this.kernelStart == kernelStart && this.kernelEnd == kernelEnd
    {
      memoryMap := new MemoryMapping[MAX_MEMORY_ENTRIES](_ => MemoryMapping(0, 0, 0));
      memoryMapCount := 0;
      this.kernelStart := kernelStart;
      this.kernelEnd := kernelEnd;
    }

    // ---------- sorting ----------

    method Swap(i: nat)
      requires 0 < i < memoryMapCount <= memoryMap.Length
      modifies memoryMap
      ensures Map() == Exchanged(old(Map()), i)
      ensures multiset(Map()) == multiset(old(Map()))
      ensures old(memoryMap[i - 1].start > memoryMap[i].start) ==> SortStable(Map()) == SortStable(old(Map()))
    {
      if memoryMap[i - 1].start > memoryMap[i].start { ExchangedSort(Map(), i); }
      memoryMap[i - 1], memoryMap[i] := memoryMap[i], memoryMap[i - 1];
      ExchangedMembers(old(Map()), i);
    }

    /** One round of the bubble sort: the largest entry that has not settled
        rises to its place, and a round without an exchange proves order. */
    method Bubble(ghost done: nat) returns (sorted: bool)
      requires memoryMapCount <= memoryMap.Length && Settled(Map(), done)
      modifies memoryMap
      ensures Settled(Map(), done + 1) && multiset(Map()) == multiset(old(Map()))
      ensures SortStable(Map()) == SortStable(old(Map()))
      ensures sorted ==> Sorted(Map())
      ensures done >= memoryMapCount ==> sorted
    {
      hide SortStable;
      hide Settled;
      hide Rising;
      RiseEnds(Map(), done, 1);
      sorted := true;
      var i := 1;
      while i < memoryMapCount
        invariant 1 <= i && (i <= memoryMapCount || memoryMapCount == 0)
        invariant Settled(Map(), done) && Rising(Map(), done, i) && multiset(Map()) == multiset(old(Map()))
        invariant SortStable(Map()) == SortStable(old(Map()))
        invariant sorted ==> Sorted(Map()[..if memoryMapCount == 0 then 0 else i])
        invariant done >= memoryMapCount ==> sorted
      {
        RiseStep(Map(), done, i);
        if memoryMap[i - 1].start > memoryMap[i].start {
          Swap(i);
          sorted := false;
        }
        i := i + 1;
      }
      RiseEnds(Map(), done, i);
      assert memoryMapCount > 0 ==> Map()[..i] == Map();
    }

    method SortMappings()
      requires Valid()
      modifies memoryMap
      ensures Valid() && Map() == SortStable(old(Map()))
      ensures Sorted(Map()) && multiset(Map()) == multiset(old(Map()))
    {
      ghost var done := 0;
      var sorted := false;
      while !sorted
        invariant Settled(Map(), done) && multiset(Map()) == multiset(old(Map()))
        invariant SortStable(Map()) == SortStable(old(Map()))
        invariant if sorted then Sorted(Map()) else done <= memoryMapCount
        decreases if sorted then 0 else memoryMapCount + 1 - done
      {
        sorted := Bubble(done);
        done := done + 1;
      }
      SortedStays(Map());
      SameMembers(old(Map()), Map());
    }

    // ---------- removing and merging entries ----------

    method SlideEntries(start: nat)
      requires start < memoryMapCount <= memoryMap.Length
      modifies memoryMap, `memoryMapCount
      ensures memoryMapCount == old(memoryMapCount) - 1
      ensures Map() == old(Map())[..start] + old(Map())[start + 1..]
    {
      var i := start + 1;
      while i < memoryMapCount
        invariant start < i <= memoryMapCount == old(memoryMapCount)
        invariant forall k :: 0 <= k < memoryMapCount ==>
          memoryMap[k] == if start <= k < i - 1 then old(memoryMap[k + 1]) else old(memoryMap[k])
      {
        memoryMap[i - 1] := memoryMap[i];
        i := i + 1;
      }
      memoryMapCount := memoryMapCount - 1;
    }

    method RemoveDeadMappings()
      requires memoryMapCount <= memoryMap.Length
      modifies memoryMap, `memoryMapCount
      ensures memoryMapCount <= memoryMap.Length && Map() == Alive(old(Map()))
    {
      var index := 0;
      assert Map()[..0] + Alive(Map()[0..]) == Alive(Map());
      while index < memoryMapCount
        invariant index <= memoryMapCount <= memoryMap.Length
        invariant Map()[..index] + Alive(Map()[index..]) == Alive(old(Map()))
        decreases memoryMapCount - index
      {
        ghost var s := Map();
        AliveStep(s, index);
        if memoryMap[index].length > 0 {
          index := index + 1;
        } else {
          SlideEntries(index);
          assert Map()[..index] == s[..index] && Map()[index..] == s[index + 1..];
        }
      }
      assert Map()[..index] == Map() && Map()[index..] == [];
    }

    /** The second pass of `MergeContiguousMappings`. */
    method MergePass()
      requires memoryMapCount <= memoryMap.Length
      modifies memoryMap, `memoryMapCount
      ensures memoryMapCount <= memoryMap.Length && Map() == Crunch(old(Map()))
    {
      ghost var live := Map();
      PassEnds(live);
      hide Crunch;
      hide Contiguous;
      hide Pass;
      var i := 1;
      while i < memoryMapCount
        invariant memoryMapCount <= memoryMap.Length && if live == [] then i == 1
          && Map() == [] else 0 < i <= memoryMapCount
        invariant live != [] ==> Pass(Map(), i) == Crunch(live)
        decreases memoryMapCount - i
      {
        ghost var s := Map();
        var lastMapping, mapping := memoryMap[i - 1], memoryMap[i];
        if Contiguous(lastMapping, mapping) {
          memoryMap[i - 1] := Merge(lastMapping, mapping);
          assert Map() == s[i - 1 := Merge(lastMapping, mapping)];
          SlideEntries(i);
          PassMerge(s, Map(), i);
        } else {
          PassSkip(s, i);
          i := i + 1;
        }
      }
      PassEnds(Map());
    }

    method MergeContiguousMappings()
      requires Valid()
      modifies memoryMap, `memoryMapCount
      ensures Valid() && Map() == Crunch(Alive(SortStable(old(Map()))))
    {
      SortMappings();
      AliveLaw(Map());
      RemoveDeadMappings();
      CrunchFits(Map());
      MergePass();
    }

    method AddMemoryMap(addr: nat, length: nat, kind: nat) returns (ok: bool)
      requires Valid() && addr + length < TOP
      modifies memoryMap, `memoryMapCount
      ensures Valid()
      ensures ok <==> length == 0 || old(memoryMapCount) + 1 < MAX_MEMORY_ENTRIES
      ensures !ok || length == 0 ==> Map() == old(Map())
      ensures ok && length > 0 ==>
        Map() == Crunch(Alive(SortStable(old(Map()) + [MemoryMapping(addr, length, kind)])))
      ensures ok ==> forall a :: Covers(Map(), a) <==> Covers(old(Map()), a) || addr <= a < addr + length
      ensures ok && length > 0 ==> Sorted(Map()) && Live(Map())
      ensures ok && length > 0 && Live(old(Map())) && Separated(old(Map())) ==>
        (Separated(Map()) <==> !SharesEnd(old(Map()), MemoryMapping(addr, length, kind)))
      ensures ok && length > 0 && Live(old(Map())) && EndsDiffer(old(Map()) + [MemoryMapping(addr, length, kind)]) ==>
        Separated(Map())
    {
      hide SortStable;
      hide Alive;
      hide Crunch;
      hide Sorted;
      hide Separated;
      hide SharesEnd;
      hide EndsDiffer;
      hide Live;
      if length == 0 {
        return true;
      }
      if memoryMapCount + 1 >= MAX_MEMORY_ENTRIES {
        return false;
      }
      var n := MemoryMapping(addr, length, kind);
      memoryMap[memoryMapCount] := n;
      memoryMapCount := memoryMapCount + 1;
      assert Map() == old(Map()) + [n];
      SortStableLaw(Map(), 0);
      MergedLaw(old(Map()), n, SortStable(Map()));
      MergeContiguousMappings();
      return true;
    }

    // ---------- the kernel's own memory ----------

    function First(): nat
      reads this
    {
      if kernelStart <= kernelEnd then kernelStart else kernelEnd
    }

    function Last(): nat
      reads this
    {
      if kernelStart <= kernelEnd then kernelEnd else kernelStart
    }

    /** The pages of the kernel: from the start of the page of its first byte up to
        the byte before the next page boundary at or above its last byte. */
    function KernelFloor(): (lo: int)
      reads this
      ensures lo == First() / 4096 * 4096
    {
      AlignFloor(KernelRange().start)
    }

    function KernelCeiling(): (hi: int)
      reads this
      ensures hi == (Last() + 4095) / 4096 * 4096 - 1
    {
      EndAligned(KernelRange().End())
    }

    /** The map loses exactly the addresses of those pages. The kernel's own bytes
        are all gone exactly when its last one does not start a page, or was not in
        the map. */
    ghost predicate KernelGone(was: seq<MemoryMapping>, now: seq<MemoryMapping>)
      reads this
    {
      && (forall a :: Covers(now, a) <==>
        Covers(was, a) && !(First() / 4096 * 4096 <= a <= (Last() + 4095) / 4096 * 4096 - 1))
      && ((forall a | First() <= a <= Last() :: !Covers(now, a)) <==> Last() % 4096 != 0 || !Covers(was, Last()))
    }

    /** Takes the pages of the kernel out of the map, which must not be empty
        anywhere at address zero. The kernel panics, which is `ok == false`, when a
        mapping must be split and no entry is left. Everything of the kernel is
        gone exactly when no mapping meets it that comes behind the split one in
        the order of the sort, as is always so for disjoint mappings. */
    method KnockoutUsedMemory() returns (ok: bool)
      requires Valid() && Ends(Map())
      modifies memoryMap, `memoryMapCount
      ensures ok <==> (old(memoryMapCount) + 1 < MAX_MEMORY_ENTRIES
        || forall m :: m in old(Map()) ==> !Splits(m, KernelFloor(), KernelCeiling()))
      ensures ok ==> Valid() && Live(Map())
      ensures ok ==> (Removed(old(Map()), Map(), KernelFloor(), KernelCeiling())
        <==> ClearBehind(SortStable(old(Map())), KernelFloor(), KernelCeiling()))
      ensures ok && Live(old(Map())) && Disjoint(old(Map())) ==>
        Removed(old(Map()), Map(), KernelFloor(), KernelCeiling())
      ensures ok && Removed(old(Map()), Map(), KernelFloor(), KernelCeiling()) ==> KernelGone(old(Map()), Map())
    {
      hide KernelGone;
      hide Removed;
      hide ClearBehind;
      hide Sorted;
      hide SortStable;
      hide Splits;
      var kernelRange := KernelRange();
      var kernelStartAligned := AlignFloor(kernelRange.start);
      var kernelEndAligned := EndAligned(kernelRange.End());
      AlignedOrder(kernelRange.start, kernelRange.End());
      SortMappings();
      ghost var sorted := Map();
      SameMembers(old(Map()), sorted);
      if Live(sorted) && Disjoint(old(Map())) {
        DisjointSorted(old(Map()), sorted);
        DisjointClear(sorted, kernelStartAligned, kernelEndAligned);
      }
      ok := Knockout(kernelStartAligned, kernelEndAligned);
      if ok {
        Finish(old(Map()), sorted, kernelStartAligned, kernelEndAligned);
        RemoveDeadMappings();
        BytesLeft(old(Map()), Map());
      }
    }

    lemma BytesLeft(was: seq<MemoryMapping>, now: seq<MemoryMapping>)
      requires KernelRange().End() >= 0
      ensures Removed(was, now, KernelFloor(), KernelCeiling()) ==> KernelGone(was, now)
    {
      if Removed(was, now, KernelFloor(), KernelCeiling()) {
        KernelRemoved(was, now, KernelRange());
        assert forall a: int :: KernelRange().Has(a) <==> First() <= a <= Last();
      }
    }

    /** The loop over the sorted mappings. */
    method Knockout(kernelStartAligned: int, kernelEndAligned: int) returns (ok: bool)
      requires Valid() && Ends(Map()) && Sorted(Map()) && 0 <= kernelStartAligned <= kernelEndAligned + 1
      modifies memoryMap, `memoryMapCount
      ensures ok <==> (old(memoryMapCount) + 1 < MAX_MEMORY_ENTRIES
        || forall m :: m in old(Map()) ==> !Splits(m, kernelStartAligned, kernelEndAligned))
      ensures ok ==> Valid()
      ensures ok ==> (Removed(old(Map()), Map(), kernelStartAligned, kernelEndAligned)
        <==> ClearBehind(old(Map()), kernelStartAligned, kernelEndAligned))
    {
      hide Ends;
      hide Sorted;
      hide ClearBehind;
      hide Fit;
      hide Trimmed;
      hide Removed;
      ghost var s := Map();
      var i := 0;
      TrimmedNone(s, kernelStartAligned, kernelEndAligned);
      while i < memoryMapCount
        invariant memoryMapCount == |s| && Valid() && i <= |s|
        invariant Trimmed(s, Map(), kernelStartAligned, kernelEndAligned, i)
      {
        var mapping := memoryMap[i];
        ghost var was := Map();
        TrimmedAt(s, was, kernelStartAligned, kernelEndAligned, i);
        var mapEnd := mapping.End();
        if mapEnd < kernelStartAligned {
          TrimStep(s, was, kernelStartAligned, kernelEndAligned, i);
          assert was == was[i := mapping];
          i := i + 1;
          continue;
        }
        if mapping.start > kernelEndAligned {
          break;
        }
        var hasStartGap := kernelStartAligned > mapping.start;
        var hasEndGap := kernelEndAligned < mapEnd;
        if hasStartGap && hasEndGap {
          ok := SplitEntry(i, kernelStartAligned, kernelEndAligned);
          if ok {
            TrimmedSplit(s, was, kernelStartAligned, kernelEndAligned, i, Map()[|s|].kind);
          }
          assert s[i] in s;
          return;
        }
        TrimStep(s, was, kernelStartAligned, kernelEndAligned, i);
        if !hasStartGap && !hasEndGap {
          memoryMap[i] := mapping.(length := 0);
        } else if hasStartGap {
          memoryMap[i] := mapping.(length := kernelStartAligned - mapping.start);
        } else {
          memoryMap[i] := mapping.(start := kernelEndAligned + 1, length := mapEnd - kernelEndAligned);
        }
        assert Map() == was[i := Trim(mapping, kernelStartAligned, kernelEndAligned)];
        i := i + 1;
      }
      ok := true;
      TrimmedAll(s, Map(), kernelStartAligned, kernelEndAligned, i);
      NoSplit(s, kernelStartAligned, kernelEndAligned);
    }

    /** The kernel lies inside entry `i`: its front stays, its back becomes a new
        entry, if there is one. */
    method SplitEntry(i: nat, kernelStartAligned: int, kernelEndAligned: int) returns (ok: bool)
      requires i < memoryMapCount <= memoryMap.Length == MAX_MEMORY_ENTRIES
        && 0 <= kernelStartAligned <= kernelEndAligned + 1
      requires Splits(memoryMap[i], kernelStartAligned, kernelEndAligned)
      modifies memoryMap, `memoryMapCount
      ensures ok <==> old(memoryMapCount) + 1 < MAX_MEMORY_ENTRIES
      ensures ok ==> old(memoryMapCount) < memoryMapCount <= memoryMap.Length
      ensures ok ==>
        var front := Trim(old(memoryMap[i]), kernelStartAligned, kernelEndAligned);
        var back := Rest(old(memoryMap[i]), kernelEndAligned, Map()[old(memoryMapCount)].kind);
        Map() == old(Map())[i := front] + [back]
    {
      var mapping := memoryMap[i];
      memoryMap[i] := mapping.(length := kernelStartAligned - mapping.start);
      if memoryMapCount + 1 >= MAX_MEMORY_ENTRIES {
        return false;
      }
      var last := memoryMapCount;
      memoryMapCount := memoryMapCount + 1;
      memoryMap[last] := memoryMap[last].(start := kernelEndAligned + 1, length := mapping.End() - kernelEndAligned);
      return true;
    }

    lemma Finish(was: seq<MemoryMapping>, s: seq<MemoryMapping>, lo: int, hi: int)
      requires Valid() && multiset(s) == multiset(was)
      ensures Removed(was, Alive(Map()), lo, hi) <==> Removed(s, Map(), lo, hi)
      ensures Live(Alive(Map())) && Fit(Alive(Map())) && |Alive(Map())| <= |Map()|
    {
      AliveLaw(Map());
      SameMembers(s, was);
    }
  }
}
