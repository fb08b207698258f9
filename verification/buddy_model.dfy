/** The free set of the page-frame allocator (work/PageFrameAllocator.cpp) as a
    set of blocks, and what its operations do to it. */
module BuddyModel {
  import opened Powers
  import opened PageMath
  import opened Shared

  /** `Block(k, s)` is the block of bucket `k` that starts at address `s`. */
  datatype Block = Block(order: nat, start: nat)

  const TOP: nat := BUCKETS - 1
  const MEMORY: nat := BlockSize(BUCKETS)

  ghost predicate Covers(b: Block, x: int) {
    b.start <= x < b.start + BlockSize(b.order)
  }

  /** Size and alignment that belong to the bucket, inside 32-bit memory. */
  ghost predicate Proper(b: Block) {
    b.order < BUCKETS && b.start % BlockSize(b.order) == 0 && b.start + BlockSize(b.order) <= MEMORY
  }

  ghost predicate Free(f: set<Block>, x: int) {
    exists b :: b in f && Covers(b, x)
  }

  ghost predicate Overlap(b: Block, c: Block) {
    b.start < c.start + BlockSize(c.order) && c.start < b.start + BlockSize(b.order)
  }

  /** Proper blocks that are pairwise disjoint. */
  ghost predicate Tiling(f: set<Block>) {
    && (forall b :: b in f ==> Proper(b))
    && (forall b, c :: b in f && c in f && b != c ==> !Overlap(b, c))
  }

  /** The same addresses are free. */
  ghost predicate SameCover(f: set<Block>, g: set<Block>) {
    forall x: int :: Free(f, x) <==> Free(g, x)
  }

  function Odd(b: Block): bool {
    (b.start / BlockSize(b.order)) % 2 == 1
  }

  function Buddy(b: Block): Block {
    Block(b.order, if Odd(b) then Max0(b.start - BlockSize(b.order)) else b.start + BlockSize(b.order))
  }

  function Max0(x: int): nat { if x < 0 then 0 else x }

  /** The block that `b` and its buddy make up. */
  function Parent(b: Block): Block {
    Block(b.order + 1, if Odd(b) then Max0(b.start - BlockSize(b.order)) else b.start)
  }

  function LeftHalf(b: Block): Block
    requires b.order > 0
  {
    Block(b.order - 1, b.start)
  }

  function RightHalf(b: Block): Block
    requires b.order > 0
  {
    Block(b.order - 1, b.start + BlockSize(b.order - 1))
  }

  /** Fully coalesced: below the top bucket no two buddies are both free. */
  ghost predicate Coalesced(f: set<Block>) {
    forall b :: b in f && b.order < TOP ==> Buddy(b) !in f
  }

  // ---------- alignment ----------

  lemma Halves(b: Block)
    requires b.order > 0 && Proper(b)
    ensures Proper(LeftHalf(b)) && Proper(RightHalf(b))
    ensures !Odd(LeftHalf(b)) && Odd(RightHalf(b))
    ensures Buddy(LeftHalf(b)) == RightHalf(b) && Buddy(RightHalf(b)) == LeftHalf(b)
    ensures Parent(LeftHalf(b)) == b && Parent(RightHalf(b)) == b
    ensures forall x: int :: Covers(b, x) <==> Covers(LeftHalf(b), x) || Covers(RightHalf(b), x)
    ensures !Overlap(LeftHalf(b), RightHalf(b))
  {
    hide BlockSize;
    BlockSizeIsPow2(b.order - 1);
    TwoHalves(b.start, BlockSize(b.order - 1));
  }

  /** A block is one of the halves of its parent, its buddy is the other. */
  lemma ParentHalves(b: Block)
    requires Proper(b) && b.order < TOP
    ensures Proper(Parent(b)) && Proper(Buddy(b)) && Buddy(Buddy(b)) == b && Odd(Buddy(b)) != Odd(b)
    ensures LeftHalf(Parent(b)) == (if Odd(b) then Buddy(b) else b)
    ensures RightHalf(Parent(b)) == (if Odd(b) then b else Buddy(b))
    ensures Odd(b) ==> BlockSize(b.order) <= b.start
  {
    hide BlockSize;
    BlockSizeIsPow2(b.order);
    EvenOdd(b.start, BlockSize(b.order));
    BlockSizeIsPow2(b.order + 1);
    Inside(Parent(b));
    Halves(Parent(b));
  }

  /** An aligned block that starts inside memory ends inside it. */
  lemma Inside(b: Block)
    requires b.order < BUCKETS && b.start % BlockSize(b.order) == 0 && b.start < MEMORY
    ensures Proper(b)
  {
    hide BlockSize; hide Pow2;
    BlockSizeIsPow2(b.order); BlockSizeIsPow2(BUCKETS);
    var d := BUCKETS - b.order;
    Pow2Add(MIN_BUCKET + b.order, d);
    assert MEMORY == BlockSize(b.order) * Pow2(d);
    DivIs(MEMORY, BlockSize(b.order), Pow2(d), 0);
    MultiplesApart(b.start, MEMORY, BlockSize(b.order));
  }

  /** Aligned blocks are nested or disjoint. */
  lemma Nested(b: Block, c: Block)
    requires Proper(b) && Proper(c) && c.order <= b.order && Overlap(b, c)
    ensures b.start <= c.start && c.start + BlockSize(c.order) <= b.start + BlockSize(b.order)
    ensures c.order == b.order ==> b == c
  {
    hide BlockSize; hide Pow2;
    BlockSizeIsPow2(b.order); BlockSizeIsPow2(c.order);
    var d := b.order - c.order;
    Pow2Add(MIN_BUCKET + c.order, d);
    BothEnds(b.start, BlockSize(b.order), BlockSize(c.order), Pow2(d));
    NestedRanges(b.start, b.start + BlockSize(b.order), c.start, BlockSize(c.order));
  }

  // ---------- splitting and merging ----------

  lemma OverlapHalves(b: Block, c: Block)
    requires b.order > 0 && Proper(b)
    ensures Overlap(b, c) <==> Overlap(LeftHalf(b), c) || Overlap(RightHalf(b), c)
  {
    hide BlockSize;
    BlockSizeIsPow2(b.order - 1);
    BlockSizeIsPow2(c.order);
  }

  lemma Symmetric(b: Block, c: Block)
    ensures Overlap(b, c) <==> Overlap(c, b)
    ensures b == c ==> Overlap(b, c)
  {
    BlockSizeIsPow2(b.order);
  }

  /** A block may be replaced by its halves. */
  lemma SplitKeeps(f: set<Block>, b: Block)
    requires b !in f && b.order > 0 && Tiling(f + {b})
    ensures Tiling(f + {LeftHalf(b), RightHalf(b)}) && LeftHalf(b) !in f && RightHalf(b) !in f
    ensures SameCover(f + {b}, f + {LeftHalf(b), RightHalf(b)})
  {
    hide BlockSize; hide Overlap; hide Covers; hide Odd; hide Proper;
    assert Proper(b);
    Halves(b);
    var l, r := LeftHalf(b), RightHalf(b);
    forall c | c in f ensures !Overlap(l, c) && !Overlap(r, c) && !Overlap(c, l) && !Overlap(c, r) && c != l && c != r {
      OverlapHalves(b, c);
      Symmetric(l, c); Symmetric(r, c);
    }
    Symmetric(l, r);
    CoverSplit(f, b);
  }

  /** Two buddies may be replaced by the block they make up. */
  lemma MergeKeeps(f: set<Block>, b: Block)
    requires b.order > 0 && Proper(b) && LeftHalf(b) !in f && RightHalf(b) !in f
    requires Tiling(f + {LeftHalf(b), RightHalf(b)})
    ensures Tiling(f + {b}) && b !in f
    ensures SameCover(f + {b}, f + {LeftHalf(b), RightHalf(b)})
  {
    hide BlockSize; hide Overlap; hide Covers; hide Odd; hide Proper;
    Halves(b);
    var l, r := LeftHalf(b), RightHalf(b);
    forall c | c in f ensures !Overlap(b, c) && !Overlap(c, b) && c != b {
      OverlapHalves(b, c);
      Symmetric(b, c);
      assert !Overlap(l, c) && !Overlap(r, c);
    }
    CoverSplit(f, b);
  }

  lemma CoverSplit(f: set<Block>, b: Block)
    requires b.order > 0 && Proper(b)
    ensures SameCover(f + {b}, f + {LeftHalf(b), RightHalf(b)})
  {
    hide BlockSize; hide Covers; hide Proper;
    Halves(b);
    var g, h := f + {b}, f + {LeftHalf(b), RightHalf(b)};
    forall x: int ensures Free(g, x) <==> Free(h, x) {
      if Free(g, x) {
        var c :| c in g && Covers(c, x);
        if c == b {
          assert Covers(LeftHalf(b), x) || Covers(RightHalf(b), x);
          assert LeftHalf(b) in h && RightHalf(b) in h;
        } else {
          assert c in h;
        }
      }
      if Free(h, x) {
        var c :| c in h && Covers(c, x);
        if c in f { assert c in g; } else { assert b in g && Covers(b, x); }
      }
    }
  }

  // ---------- the operations ----------

  ghost function Starts(f: set<Block>, order: nat): set<nat> {
    set b | b in f && b.order == order :: b.start
  }

  ghost function Least(s: set<nat>): (m: nat)
    requires s != {}
    ensures m in s && forall x :: x in s ==> m <= x
  {
    HasLeast(s);
    var m :| m in s && forall x :: x in s ==> m <= x;
    m
  }

  lemma LeastIs(s: set<nat>, m: nat)
    requires m in s && forall x :: x in s ==> m <= x
    ensures m == Least(s)
  {
  }

  lemma HasLeast(s: set<nat>)
    requires s != {}
    ensures exists m :: m in s && forall x :: x in s ==> m <= x
  {
    var y :| y in s;
    LeastFrom(s, y);
  }

  lemma LeastFrom(s: set<nat>, y: nat)
    requires y in s
    ensures exists m :: m in s && forall x :: x in s ==> m <= x
    decreases y
  {
    if z :| z in s && z < y {
      LeastFrom(s, z);
    }
  }

  /** `GetAvailableNode`: the least block of the order, or half of a bigger one. */
  ghost function Take(f: set<Block>, order: nat): Option<(nat, set<Block>)>
    requires order < BUCKETS
    decreases BUCKETS - order
  {
    if Starts(f, order) != {} then
      var s := Least(Starts(f, order));
      Some((s, f - {Block(order, s)}))
    else if order >= TOP then None
    else
      match Take(f, order + 1)
      case None => None
      case Some((s, g)) => Some((s, g + {Block(order, s + BlockSize(order))}))
  }

  /** `GetExactFrame`: the block that starts at `address`, carved out of the free
      block around it. */
  ghost function Carve(f: set<Block>, address: nat, order: nat): Option<set<Block>>
    requires order < BUCKETS
    decreases BUCKETS - order
  {
    var b := Block(order, address);
    if b in f then Some(f - {b})
    else if order >= TOP then None
    else
      match Carve(f, Parent(b).start, order + 1)
      case None => None
      case Some(g) => Some(g + {Buddy(b)})
  }

  /** `Release`: the block goes back, merged with its buddy as long as that one
      is free. */
  ghost function Give(f: set<Block>, b: Block): set<Block>
    requires b.order < BUCKETS
    decreases BUCKETS - b.order
  {
    if b.order < TOP && Buddy(b) in f then Give(f - {Buddy(b)}, Parent(b)) else f + {b}
  }

  // ---------- taking ----------

  /** A block is taken from a free set `f`, leaving `g`: the blocks in play are
      still disjoint and cover the same memory. */
  ghost predicate Taken(f: set<Block>, b: Block, g: set<Block>) {
    && b !in g && Tiling(g + {b}) && SameCover(f, g + {b})
    && (Coalesced(f) ==> Coalesced(g))
  }

  lemma SubTiling(f: set<Block>, g: set<Block>)
    requires Tiling(g) && f <= g
    ensures Tiling(f)
  {
  }

  lemma CoverTrans(f: set<Block>, g: set<Block>, h: set<Block>)
    requires SameCover(f, g) && SameCover(g, h)
    ensures SameCover(f, h)
  {
  }

  /** Splitting a taken block in two and giving one half back. */
  lemma TakenHalf(f: set<Block>, b: Block, g: set<Block>, keep: Block)
    requires Taken(f, b, g) && b.order > 0 && (keep == LeftHalf(b) || keep == RightHalf(b))
    ensures Taken(f, keep, g + {Buddy(keep)}) && Buddy(keep).order == b.order - 1
  {
    hide BlockSize; hide Overlap; hide Covers; hide Odd; hide Proper; hide SameCover; hide Tiling;
    ProperIn(g + {b}, b);
    Halves(b);
    SplitKeeps(g, b);
    var h := g + {Buddy(keep)};
    assert h + {keep} == g + {LeftHalf(b), RightHalf(b)};
    CoverTrans(f, g + {b}, h + {keep});
    if Coalesced(f) {
      forall c | c in h && c.order < TOP ensures Buddy(c) !in h {
        if c in g {
          if Buddy(c) == Buddy(keep) {
            ProperIn(g + {b}, c);
            ParentHalves(c);
            assert false;
          }
        } else {
          assert Buddy(c) == keep;
        }
      }
    }
  }

  lemma ProperIn(f: set<Block>, b: Block)
    requires Tiling(f) && b in f
    ensures Proper(b)
  {
  }

  ghost predicate Bigger(f: set<Block>, order: nat) {
    exists b :: b in f && b.order >= order
  }

  /** What `Take` promises: a block of the order asked for whenever there is a
      free block big enough. */
  lemma {:induction false} TakeLaw(f: set<Block>, order: nat)
    requires Tiling(f) && order < BUCKETS
    ensures Take(f, order).None? <==> !Bigger(f, order)
    ensures Take(f, order).Some? ==> Taken(f, Block(order, Take(f, order).value.0), Take(f, order).value.1)
    decreases BUCKETS - order
  {
    hide BlockSize; hide Overlap; hide Covers; hide Odd; hide Proper; hide SameCover; hide Tiling;
    StartsOf(f, order);
    if Starts(f, order) != {} {
      var b := Block(order, Least(Starts(f, order)));
      assert b in f;
      TakeOne(f, b);
    } else if order < TOP {
      TakeLaw(f, order + 1);
      if Take(f, order + 1).Some? {
        var (s, g) := Take(f, order + 1).value;
        var b := Block(order + 1, s);
        ProperIn(g + {b}, b);
        Halves(b);
        TakenHalf(f, b, g, LeftHalf(b));
        assert Bigger(f, order);
      }
    } else {
      forall b | b in f ensures b.order < order {
        ProperIn(f, b);
        TopOrder(b);
      }
    }
  }

  /** Of the free blocks that are large enough, a smallest one, and of those the one
      at the lowest address. */
  ghost predicate BestFit(f: set<Block>, order: nat, c: Block) {
    c in f && c.order >= order
    && forall d | d in f && d.order >= order :: c.order < d.order || (c.order == d.order && c.start <= d.start)
  }

  /** What is left of a block when its front part of the order is cut off: a block
      of every order in between. */
  ghost function UpperHalves(c: Block, order: nat): set<Block> {
    set k: nat | order <= k < c.order :: Block(k, c.start + BlockSize(k))
  }

  lemma UpperHalvesHas(c: Block, order: nat)
    ensures forall b: Block ::
      b in UpperHalves(c, order) <==> order <= b.order < c.order && b.start == c.start + BlockSize(b.order)
  {
    hide BlockSize;
    forall b: Block | order <= b.order < c.order && b.start == c.start + BlockSize(b.order)
      ensures b in UpperHalves(c, order)
    {
      assert b == Block(b.order, c.start + BlockSize(b.order));
    }
  }

  lemma UpperHalvesMore(c: Block, order: nat)
    requires order < c.order
    ensures UpperHalves(c, order) == UpperHalves(c, order + 1) + {Block(order, c.start + BlockSize(order))}
  {
    hide BlockSize;
    UpperHalvesHas(c, order);
    UpperHalvesHas(c, order + 1);
    hide UpperHalves;
  }

  lemma OneFit(f: set<Block>, order: nat, c: Block, d: Block)
    requires BestFit(f, order, c) && BestFit(f, order, d)
    ensures c == d
  {
  }

  /** Which block is taken: the front part of the best fitting one. Everything else
      that is free stays as it is. */
  lemma {:induction false} TakeIs(f: set<Block>, order: nat) returns (c: Block)
    requires Tiling(f) && order < BUCKETS && Bigger(f, order)
    ensures BestFit(f, order, c) && Take(f, order) == Some((c.start, f - {c} + UpperHalves(c, order)))
    decreases BUCKETS - order
  {
    hide BlockSize;
    hide Proper;
    hide Tiling;
    StartsOf(f, order);
    if Starts(f, order) != {} {
      c := Block(order, Least(Starts(f, order)));
      assert forall d | d in f && d.order == order :: d.start in Starts(f, order);
      UpperHalvesHas(c, order);
      assert UpperHalves(c, order) == {};
      assert f - {c} + {} == f - {c};
    } else {
      assert Bigger(f, order + 1);
      TopBigger(f, order);
      c := TakeIs(f, order + 1);
      UpperHalvesMore(c, order);
      hide UpperHalves;
      assert f - {c} + (UpperHalves(c, order + 1) + {Block(order, c.start + BlockSize(order))})
        == (f - {c} + UpperHalves(c, order + 1)) + {Block(order, c.start + BlockSize(order))};
    }
  }

  lemma TopBigger(f: set<Block>, order: nat)
    requires Tiling(f) && Bigger(f, order + 1)
    ensures order < TOP
  {
    var b :| b in f && b.order >= order + 1;
    ProperIn(f, b);
    TopOrder(b);
  }

  lemma TopOrder(b: Block)
    requires Proper(b)
    ensures b.order <= TOP
  {
  }

  lemma StartsOf(f: set<Block>, order: nat)
    ensures forall s :: s in Starts(f, order) <==> Block(order, s) in f
    ensures Starts(f, order) == {} ==> forall b :: b in f ==> b.order != order
  {
    forall b | b in f && b.order == order ensures b.start in Starts(f, order) && Block(order, b.start) == b {
    }
    forall s | s in Starts(f, order) ensures Block(order, s) in f {
    }
  }

  lemma TakeOne(f: set<Block>, b: Block)
    requires Tiling(f) && b in f
    ensures Taken(f, b, f - {b})
  {
    assert f - {b} + {b} == f;
  }

  /** One free block contains the whole block `b`. */
  ghost predicate Contains(c: Block, b: Block) {
    c.order >= b.order && c.start <= b.start && b.start + BlockSize(b.order) <= c.start + BlockSize(c.order)
  }

  ghost predicate Held(f: set<Block>, b: Block) {
    exists c :: c in f && Contains(c, b)
  }

  /** What `Carve` promises: exactly the block asked for, whenever one free block
      contains it. */
  lemma {:induction false} CarveLaw(f: set<Block>, b: Block)
    requires Tiling(f) && Proper(b)
    ensures Carve(f, b.start, b.order).Some? <==> Held(f, b)
    ensures Carve(f, b.start, b.order).Some? ==> Taken(f, b, Carve(f, b.start, b.order).value)
    decreases BUCKETS - b.order
  {
    hide BlockSize; hide Overlap; hide Covers; hide Odd; hide SameCover; hide Tiling; hide Proper; hide Contains;
    TopOrder(b);
    if b in f {
      TakeOne(f, b);
      SelfContains(b);
    } else if b.order < TOP {
      var p := Parent(b);
      ParentHalves(b);
      CarveLaw(f, p);
      forall c | c in f ensures Contains(c, b) <==> Contains(c, p) {
        ProperIn(f, c);
        ContainsParent(c, b);
      }
      if Carve(f, p.start, p.order).Some? {
        TakenHalf(f, p, Carve(f, p.start, p.order).value, b);
      }
    } else {
      forall c | c in f ensures !Contains(c, b) {
        ProperIn(f, c);
        ContainsTop(c, b);
      }
    }
  }

  lemma SelfContains(b: Block)
    ensures Contains(b, b)
  {
  }

  lemma ContainsParent(c: Block, b: Block)
    requires Proper(c) && Proper(b) && b.order < TOP && c != b
    ensures Contains(c, b) <==> Contains(c, Parent(b))
  {
    hide BlockSize; hide Odd;
    ParentHalves(b);
    BlockSizeIsPow2(b.order); BlockSizeIsPow2(c.order);
    var p := Parent(b);
    assert p.start <= b.start && b.start + BlockSize(b.order) <= p.start + BlockSize(p.order) by { Halves(p); }
    if Contains(c, b) {
      if c.order > b.order {
        Nested(c, p);
      }
    }
  }

  lemma ContainsTop(c: Block, b: Block)
    requires Proper(c) && Proper(b) && b.order == TOP && c != b
    ensures !Contains(c, b)
  {
  }

  // ---------- giving back ----------

  /** What `Give` promises: the free memory grows by the block, and the free set
      stays fully coalesced. */
  lemma {:induction false} GiveLaw(f: set<Block>, b: Block)
    requires b !in f && Tiling(f + {b})
    ensures Tiling(Give(f, b)) && SameCover(f + {b}, Give(f, b))
    ensures Coalesced(f) ==> Coalesced(Give(f, b))
    decreases BUCKETS - b.order
  {
    hide BlockSize; hide Overlap; hide Covers; hide Odd; hide SameCover; hide Tiling; hide Proper;
    ProperIn(f + {b}, b);
    TopOrder(b);
    if b.order < TOP && Buddy(b) in f {
      ParentHalves(b);
      var p, g := Parent(b), f - {Buddy(b)};
      assert f + {b} == g + {LeftHalf(p), RightHalf(p)};
      assert b !in g && Buddy(b) !in g;
      MergeKeeps(g, p);
      GiveLaw(g, p);
      CoverSwap(g + {p}, f + {b});
      CoverTrans(f + {b}, g + {p}, Give(g, p));
      assert Coalesced(f) ==> Coalesced(g);
    } else {
      CoverSelf(f + {b});
      if Coalesced(f) {
        forall c | c in f + {b} && c.order < TOP ensures Buddy(c) !in f + {b} {
          ProperIn(f + {b}, c);
          ParentHalves(c);
          if c == b {
            assert Buddy(b) != b;
          } else if Buddy(c) == b {
            assert false;
          }
        }
      }
    }
  }

  lemma CoverSwap(f: set<Block>, g: set<Block>)
    requires SameCover(f, g)
    ensures SameCover(g, f)
  {
  }

  lemma CoverSelf(f: set<Block>)
    ensures SameCover(f, f)
  {
  }

  // ---------- canonical form ----------

  /** In a coalesced free set, an aligned block all of whose memory is free lies
      in a single free block. */
  lemma {:induction false} Whole(f: set<Block>, b: Block)
    requires Tiling(f) && Coalesced(f) && Proper(b) && forall x: int :: Covers(b, x) ==> Free(f, x)
    ensures Held(f, b)
    decreases b.order
  {
    hide BlockSize; hide Odd; hide Contains;
    BlockSizeIsPow2(b.order);
    if b.order == 0 {
      assert Covers(b, b.start);
      var c :| c in f && Covers(c, b.start);
      ContainsAt(c, b, b.start);
    } else {
      Halves(b);
      var l, r := LeftHalf(b), RightHalf(b);
      Whole(f, l);
      Whole(f, r);
      var c :| c in f && Contains(c, l);
      var d :| d in f && Contains(d, r);
      TopOrder(b);
      if c == l && d == r {
        assert false;
      } else if c != l {
        ContainsParent(c, l);
      } else {
        ContainsParent(d, r);
      }
    }
  }

  lemma ContainsAt(c: Block, b: Block, x: int)
    requires Proper(c) && Proper(b) && c.order >= b.order && Covers(c, x) && Covers(b, x)
    ensures Contains(c, b)
  {
    hide BlockSize;
    Nested(c, b);
  }

  /** Two coalesced free sets that cover the same memory are the same. */
  lemma Canonical(f: set<Block>, g: set<Block>)
    requires Tiling(f) && Tiling(g) && Coalesced(f) && Coalesced(g) && SameCover(f, g)
    ensures f == g
  {
    hide BlockSize; hide Odd; hide Coalesced; hide Covers; hide Overlap; hide Tiling; hide Proper; hide SameCover;
    forall b | b in f ensures b in g { SameBlock(f, g, b); }
    CoverSwap(f, g);
    forall b | b in g ensures b in f { SameBlock(g, f, b); }
  }

  lemma SameBlock(f: set<Block>, g: set<Block>, b: Block)
    requires Tiling(f) && Tiling(g) && Coalesced(f) && Coalesced(g) && SameCover(f, g) && b in f
    ensures b in g
  {
    hide BlockSize; hide Odd; hide Coalesced;
    Whole(g, b);
    var c :| c in g && Contains(c, b);
    Whole(f, c);
    var d :| d in f && Contains(d, c);
    BlockSizeIsPow2(b.order);
    assert Overlap(d, b);
  }

  /** Releasing what was just allocated restores every bucket. */
  lemma TakeThenGive(f: set<Block>, order: nat)
    requires Tiling(f) && Coalesced(f) && order < BUCKETS && Take(f, order).Some?
    ensures var (s, g) := Take(f, order).value; Give(g, Block(order, s)) == f
  {
    hide BlockSize; hide Odd; hide Coalesced; hide Covers; hide Overlap; hide Tiling; hide Proper; hide SameCover;
    TakeLaw(f, order);
    var (s, g) := Take(f, order).value;
    TakenGiven(f, Block(order, s), g);
  }

  lemma CarveThenGive(f: set<Block>, b: Block)
    requires Tiling(f) && Coalesced(f) && Proper(b) && Carve(f, b.start, b.order).Some?
    ensures Give(Carve(f, b.start, b.order).value, b) == f
  {
    hide BlockSize; hide Odd; hide Coalesced; hide Covers; hide Overlap; hide Tiling; hide SameCover;
    CarveLaw(f, b);
    TakenGiven(f, b, Carve(f, b.start, b.order).value);
  }

  lemma TakenGiven(f: set<Block>, b: Block, g: set<Block>)
    requires Tiling(f) && Coalesced(f) && b.order < BUCKETS && Taken(f, b, g)
    ensures Give(g, b) == f
  {
    hide BlockSize; hide Odd; hide Coalesced; hide Covers; hide Overlap; hide Tiling; hide Proper; hide SameCover;
    GiveLaw(g, b);
    CoverTrans(f, g + {b}, Give(g, b));
    Canonical(f, Give(g, b));
  }

  /** When nothing can be carved out of a coalesced free set, some of the memory
      asked for is not free. */
  lemma CarveFails(f: set<Block>, b: Block)
    requires Tiling(f) && Coalesced(f) && Proper(b)
    ensures Carve(f, b.start, b.order).None? <==> exists x: int :: Covers(b, x) && !Free(f, x)
  {
    hide BlockSize; hide Odd; hide Coalesced; hide Overlap; hide Tiling;
    CarveLaw(f, b);
    if Held(f, b) {
      var c :| c in f && Contains(c, b);
      forall x: int | Covers(b, x) ensures Free(f, x) { assert Covers(c, x); }
    } else if forall x: int :: Covers(b, x) ==> Free(f, x) {
      Whole(f, b);
    }
  }

  // ---------- runs ----------

  /** The free set and the blocks handed out. */
  datatype State = State(free: set<Block>, out: set<Block>)

  /** A client may release what it holds, and nothing else. */
  datatype Op = Allocate(order: nat) | Acquire(block: Block) | Release(block: Block)

  ghost function Step(st: State, op: Op): State {
    match op
    case Allocate(order) =>
      if order >= BUCKETS then st else
      (match Take(st.free, order)
       case None => st
       case Some((s, g)) => State(g, st.out + {Block(order, s)}))
    case Acquire(b) =>
      if !Proper(b) then st else
      (match Carve(st.free, b.start, b.order)
       case None => st
       case Some(g) => State(g, st.out + {b}))
    case Release(b) =>
      if b !in st.out || b.order >= BUCKETS then st else State(Give(st.free, b), st.out - {b})
  }

  ghost function Run(st: State, ops: seq<Op>): State
    decreases |ops|
  {
    if ops == [] then st else Step(Run(st, ops[..|ops| - 1]), ops[|ops| - 1])
  }

  /** Free and outstanding blocks are proper and pairwise disjoint, and the free
      set is fully coalesced. */
  ghost predicate Sound(st: State) {
    st.free !! st.out && Tiling(st.free + st.out) && Coalesced(st.free)
  }

  /** Free blocks may be rearranged without touching the outstanding ones. */
  lemma Rearranged(f: set<Block>, o: set<Block>, h: set<Block>)
    requires f !! o && Tiling(f + o) && Tiling(h) && SameCover(f, h)
    ensures h !! o && Tiling(h + o)
  {
    hide BlockSize; hide Overlap; hide Proper;
    forall c, d | c in h && d in o ensures c != d && !Overlap(c, d) && !Overlap(d, c) {
      Symmetric(c, d);
      if Overlap(c, d) {
        var x := CommonAddress(c, d);
        assert Free(h, x);
        var e :| e in f && Covers(e, x);
        ShareAddress(e, d, x);
        assert false;
      }
    }
  }

  lemma CommonAddress(c: Block, d: Block) returns (x: int)
    requires Overlap(c, d)
    ensures Covers(c, x) && Covers(d, x)
  {
    BlockSizeIsPow2(c.order); BlockSizeIsPow2(d.order);
    x := if c.start < d.start then d.start else c.start;
  }

  lemma ShareAddress(c: Block, d: Block, x: int)
    requires Covers(c, x) && Covers(d, x)
    ensures Overlap(c, d)
  {
  }

  lemma UnionCover(f: set<Block>, h: set<Block>, o: set<Block>)
    requires SameCover(f, h)
    ensures SameCover(f + o, h + o)
  {
    forall x: int ensures Free(f + o, x) <==> Free(h + o, x) {
      if Free(f + o, x) {
        var c :| c in f + o && Covers(c, x);
        if c in f { assert Free(f, x); var d :| d in h && Covers(d, x); assert d in h + o; } else { assert c in h + o; }
      }
      if Free(h + o, x) {
        var c :| c in h + o && Covers(c, x);
        if c in h { assert Free(h, x); var d :| d in f && Covers(d, x); assert d in f + o; } else { assert c in f + o; }
      }
    }
  }

  lemma TakenStep(st: State, b: Block, g: set<Block>)
    requires Sound(st) && Taken(st.free, b, g)
    ensures Sound(State(g, st.out + {b})) && SameCover(st.free + st.out, g + (st.out + {b}))
  {
    hide BlockSize; hide Overlap; hide Proper; hide Tiling; hide SameCover; hide Coalesced; hide Covers;
    var h := g + {b};
    Rearranged(st.free, st.out, h);
    UnionCover(st.free, h, st.out);
    assert g + (st.out + {b}) == h + st.out;
  }

  lemma {:induction false} StepSound(st: State, op: Op)
    requires Sound(st)
    ensures Sound(Step(st, op)) && SameCover(st.free + st.out, Step(st, op).free + Step(st, op).out)
  {
    hide BlockSize; hide Overlap; hide Proper; hide Tiling; hide SameCover; hide Coalesced; hide Covers;
    CoverSelf(st.free + st.out);
    SubTiling(st.free, st.free + st.out);
    match op
    case Allocate(order) =>
      if order < BUCKETS {
        TakeLaw(st.free, order);
        if Take(st.free, order).Some? {
          var (s, g) := Take(st.free, order).value;
          TakenStep(st, Block(order, s), g);
        }
      }
    case Acquire(b) =>
      if Proper(b) {
        TopOrder'(b);
        CarveLaw(st.free, b);
        if Carve(st.free, b.start, b.order).Some? {
          TakenStep(st, b, Carve(st.free, b.start, b.order).value);
        }
      }
    case Release(b) =>
      if b in st.out && b.order < BUCKETS {
        var f, o := st.free + {b}, st.out - {b};
        assert f + o == st.free + st.out && f !! o;
        SubTiling(f, f + o);
        GiveLaw(st.free, b);
        Rearranged(f, o, Give(st.free, b));
        UnionCover(f, Give(st.free, b), o);
      }
  }

  lemma TopOrder'(b: Block)
    requires Proper(b)
    ensures b.order < BUCKETS
  {
  }

  /** Every run keeps blocks proper and disjoint, memory conserved and the free
      set coalesced. */
  lemma {:induction false} RunSound(st: State, ops: seq<Op>)
    requires Sound(st)
    ensures Sound(Run(st, ops)) && SameCover(st.free + st.out, Run(st, ops).free + Run(st, ops).out)
    decreases |ops|
  {
    hide BlockSize; hide Overlap; hide Proper; hide Tiling; hide SameCover; hide Coalesced; hide Covers; hide Step;
    hide Sound;
    if ops == [] {
      CoverSelf(st.free + st.out);
    } else {
      var mid := Run(st, ops[..|ops| - 1]);
      RunSound(st, ops[..|ops| - 1]);
      StepSound(mid, ops[|ops| - 1]);
      CoverTrans(st.free + st.out, mid.free + mid.out, Run(st, ops).free + Run(st, ops).out);
    }
  }

  /** A run, in whatever order, that ends with the same blocks outstanding as it
      began with has restored every bucket exactly. */
  lemma RunRestores(st: State, ops: seq<Op>)
    requires Sound(st) && Run(st, ops).out == st.out
    ensures Run(st, ops).free == st.free
  {
    hide BlockSize; hide Overlap; hide Proper; hide Tiling; hide SameCover; hide Coalesced; hide Covers; hide Step;
    hide Run;
    RunSound(st, ops);
    var end := Run(st, ops);
    SubTiling(st.free, st.free + st.out);
    SubTiling(end.free, end.free + end.out);
    Cancel(st.free, end.free, st.out);
    Canonical(st.free, end.free);
  }

  lemma Cancel(f: set<Block>, h: set<Block>, o: set<Block>)
    requires f !! o && h !! o && Tiling(f + o) && Tiling(h + o) && SameCover(f + o, h + o)
    ensures SameCover(f, h)
  {
    hide BlockSize; hide Overlap; hide Proper;
    forall x: int ensures Free(f, x) <==> Free(h, x) {
      if Free(f, x) { CancelAt(f, h, o, x); }
      if Free(h, x) { CancelAt(h, f, o, x); }
    }
  }

  lemma CancelAt(f: set<Block>, h: set<Block>, o: set<Block>, x: int)
    requires f !! o && Tiling(f + o) && SameCover(f + o, h + o) && Free(f, x)
    ensures Free(h, x)
  {
    hide BlockSize; hide Overlap; hide Proper;
    var b :| b in f && Covers(b, x);
    assert b in f + o;
    assert Free(f + o, x);
    var c :| c in h + o && Covers(c, x);
    if c in o {
      ShareAddress(b, c, x);
      assert false;
    }
  }

  // ---------- bytes ----------

  /** The pages whose first address lies in a block of `f`. */
  ghost function Pages(f: set<Block>): set<nat> {
    set p: nat | p < Pow2(BUCKETS) && Free(f, PAGE_SIZE * p)
  }

  /** The number of free bytes plus the number of bytes handed out never changes. */
  lemma BytesConserved(st: State, ops: seq<Op>)
    requires Sound(st)
    ensures var end := Run(st, ops);
      PAGE_SIZE * |Pages(end.free)| + PAGE_SIZE * |Pages(end.out)| ==
      PAGE_SIZE * |Pages(st.free)| + PAGE_SIZE * |Pages(st.out)|
  {
    hide BlockSize; hide Overlap; hide Proper; hide Tiling; hide Coalesced; hide Covers; hide Step; hide Run;
    RunSound(st, ops);
    var end := Run(st, ops);
    PagesOf(st.free, st.out);
    PagesOf(end.free, end.out);
    assert Pages(st.free + st.out) == Pages(end.free + end.out);
  }

  lemma PagesOf(f: set<Block>, o: set<Block>)
    requires f !! o && Tiling(f + o)
    ensures |Pages(f + o)| == |Pages(f)| + |Pages(o)|
  {
    hide BlockSize; hide Overlap; hide Proper; hide Pow2;
    forall x: int ensures Free(f + o, x) <==> Free(f, x) || Free(o, x) {
      if Free(f + o, x) { var c :| c in f + o && Covers(c, x); assert c in f || c in o; }
      if Free(f, x) { var c :| c in f && Covers(c, x); assert c in f + o; }
      if Free(o, x) { var c :| c in o && Covers(c, x); assert c in f + o; }
    }
    assert Pages(f + o) == Pages(f) + Pages(o);
    forall p | p in Pages(f) ensures p !in Pages(o) {
      if p in Pages(o) {
        var c :| c in f && Covers(c, PAGE_SIZE * p);
        var d :| d in o && Covers(d, PAGE_SIZE * p);
        ShareAddress(c, d, PAGE_SIZE * p);
        assert false;
      }
    }
  }
}
