/** The page-frame allocator of work/PageFrameAllocator.cpp over the AVL trees of
    its buckets. */
module BuddyAllocator {
  import opened Powers
  import opened PageMath
  import opened BuddyModel
  import opened BuddyNodes
  import opened Shared
  import opened BuddyBuckets

  /** The result of an allocation; `Nil` has size zero. */
  datatype PageBlock = PageBlock(start: nat, size: nat)

  const NIL := PageBlock(0, 0)

  ghost function FreeSet(buckets: Buckets): set<Block> {
    set k, s | 0 <= k < |buckets| && s in buckets[k] :: Block(k, s)
  }

  lemma FreeSetHas(buckets: Buckets)
    ensures forall b: Block :: b in FreeSet(buckets) <==> b.order < |buckets| && b.start in buckets[b.order]
  {
    forall b: Block | b.order < |buckets| && b.start in buckets[b.order] ensures b in FreeSet(buckets) {
      assert b == Block(b.order, b.start);
    }
  }

  ghost predicate InBucket(buckets: Buckets, n: BuddyNode) {
    exists k, s :: 0 <= k < |buckets| && s in buckets[k] && buckets[k][s] == n
  }

  lemma InBucketRemove(buckets: Buckets, k: nat, s: nat, n: BuddyNode)
    requires k < |buckets| && InBucket(Remove(buckets, k, s), n)
    ensures InBucket(buckets, n)
  {
    var b := Remove(buckets, k, s);
    var j, t :| 0 <= j < |b| && t in b[j] && b[j][t] == n;
    assert t in buckets[j] && buckets[j][t] == n;
  }

  lemma InBucketInsert(buckets: Buckets, k: nat, s: nat, m: BuddyNode, n: BuddyNode)
    requires k < |buckets| && InBucket(Insert(buckets, k, s, m), n) && n != m
    ensures InBucket(buckets, n)
  {
    var b := Insert(buckets, k, s, m);
    var j, t :| 0 <= j < |b| && t in b[j] && b[j][t] == n;
    assert t in buckets[j] && buckets[j][t] == n;
  }

  lemma FreeSetInsert(buckets: Buckets, k: nat, s: nat, n: BuddyNode)
    requires k < |buckets|
    ensures FreeSet(Insert(buckets, k, s, n)) == FreeSet(buckets) + {Block(k, s)}
  {
    FreeSetHas(buckets);
    FreeSetHas(Insert(buckets, k, s, n));
  }

  lemma FreeSetRemove(buckets: Buckets, k: nat, s: nat)
    requires k < |buckets|
    ensures FreeSet(Remove(buckets, k, s)) == FreeSet(buckets) - {Block(k, s)}
  {
    FreeSetHas(buckets);
    FreeSetHas(Remove(buckets, k, s));
  }

  lemma FreeSetStarts(buckets: Buckets, k: nat)
    requires k < |buckets|
    ensures Starts(FreeSet(buckets), k) == buckets[k].Keys
  {
    FreeSetHas(buckets);
    StartsOf(FreeSet(buckets), k);
  }

  ghost function NextIn(s: seq<BuddyNode>, i: nat, end: BuddyNode): BuddyNode {
    if i + 1 < |s| then s[i + 1] else end
  }

  class PageFrameAllocator {
    const maxSize: nat
    const freePool: BuddyNode  // sentinel of the chain of unused nodes
    const bins: BucketArray
    ghost var buckets: Buckets  // what the bins hold
    ghost var pool: seq<BuddyNode>
    ghost var repr: set<BuddyNode>

    /** The member initialisers; memory arrives through `Release`. */
    constructor (maxSize: nat)
      requires PAGE_SIZE < maxSize <= Pow2(WORD - 1)
      ensures Valid() && FreeSet(buckets) == {} && pool == [] && this.maxSize == maxSize
    {
      this.maxSize := maxSize;
      var sentinel := new BuddyNode();
      freePool := sentinel;
      bins := new BucketArray(BUCKETS);
      buckets := seq(BUCKETS, i => map[]);
      pool := [];
      repr := {sentinel};
    }

    /** A bucket files its nodes under their start, with the bucket's size. */
    ghost predicate Filed()
      reads this`buckets, this`repr, repr
    {
      |buckets| == BUCKETS &&
      forall k, s :: 0 <= k < BUCKETS && s in buckets[k] ==>
        buckets[k][s] in repr && buckets[k][s] != freePool
        && buckets[k][s].start == s && buckets[k][s].size == BlockSize(k)
    }

    /** The chain of unused nodes runs through `pool` and back to the sentinel. */
    ghost predicate Pooled()
      reads this`pool, this`repr, repr
    {
      && freePool in repr
      && freePool.next == (if pool == [] then freePool else pool[0])
      && (forall i :: 0 <= i < |pool| ==> pool[i] in repr && pool[i] != freePool && pool[i].size == 0)
      && (forall i :: 0 <= i < |pool| ==> pool[i].next == NextIn(pool, i, freePool))
      && (forall i, j :: 0 <= i < j < |pool| ==> pool[i] != pool[j])
    }

    ghost predicate Valid()
      reads this, repr, bins, bins.trees, bins.nodes
    {
      && Filed() && Pooled() && maxSize <= Pow2(WORD - 1)
      && bins.Valid() && bins.contents == buckets && |bins.trees| == BUCKETS
    }

    /** A node that is neither in the pool nor in a bucket. */
    ghost predicate Loose(n: BuddyNode)
      reads this
    {
      n in repr && n != freePool && n !in pool && !InBucket(buckets, n)
    }

    /** No node is in the pool and in a bucket at once. */
    lemma PoolOrBucket(n: BuddyNode)
      requires Valid() && n in pool
      ensures !InBucket(buckets, n)
    {
    }

    method GetFreeNode() returns (node: BuddyNode)
      requires Valid()
      modifies this`pool, this`repr, repr`next
      ensures Valid() && Loose(node) && repr == old(repr) + {node} && (fresh(node) || node in old(repr))
      ensures old(pool) == [] ==> fresh(node) && pool == []
      ensures old(pool) != [] ==> node == old(pool)[0] && pool == old(pool)[1..]
      ensures forall n :: n in old(repr) && old(Loose(n)) ==> Loose(n) && n != node && n.next == old(n.next)
    {
      node := freePool.next;
      if node == freePool {
        assert pool == [];
        node := new BuddyNode();
        repr := repr + {node};
        return;
      }
      PoolOrBucket(node);
      ghost var was := pool;
      assert was[0].next == NextIn(was, 0, freePool);
      freePool.next := node.next;
      node.next := null;
      pool := was[1..];
      forall i | 0 <= i < |pool| ensures pool[i].next == NextIn(pool, i, freePool) {
        assert pool[i] == was[i + 1] && was[i + 1] != was[0];
        assert was[i + 1].next == NextIn(was, i + 1, freePool);
      }
    }

    method ReleaseNode(node: BuddyNode?)
      requires Valid() && (node != null ==> Loose(node))
      modifies this`pool, freePool`next, node
      ensures Valid() && repr == old(repr)
      ensures pool == if node == null then old(pool) else [node] + old(pool)
      ensures forall n :: n in repr && n != node && old(Loose(n)) ==> Loose(n)
    {
      if node == null {
        return;
      }
      node.start := 0;
      node.size := 0;
      node.next := freePool.next;
      freePool.next := node;
      ghost var was := pool;
      pool := [node] + was;
      forall i | 0 <= i < |pool| ensures pool[i].next == NextIn(pool, i, freePool) {
        if i > 0 { assert pool[i] == was[i - 1] && was[i - 1].next == NextIn(was, i - 1, freePool); }
      }
    }

    /** Taking a node out of its bucket. */
    method Unfile(order: nat, n: BuddyNode)
      requires Valid() && order < BUCKETS && n.start in buckets[order] && buckets[order][n.start] == n
      modifies this`buckets, bins, bins.trees, bins.nodes
      ensures Valid() && fresh(bins.nodes - old(bins.nodes)) && buckets == Remove(old(buckets), order, n.start)
      ensures n.size == BlockSize(order) && Loose(n)
      ensures FreeSet(buckets) == FreeSet(old(buckets)) - {Block(order, n.start)}
      ensures forall m :: m in repr && old(Loose(m)) ==> Loose(m) && m != n
    {
      hide BlockSize; hide InBucket;
      hide BucketArray.Valid;
      var s := n.start;
      BlockSizeIsPow2(order);
      ghost var was := buckets;
      FreeSetRemove(buckets, order, s);
      bins.Drop(order, s);
      buckets := Remove(buckets, order, s);
      NotFiled(n, order);
      forall m | m in repr && old(Loose(m)) ensures Loose(m) && m != n {
        if InBucket(buckets, m) { InBucketRemove(was, order, s, m); }
        OutOfBucket(was, order, s, m);
      }
    }

    /** A filed node is found under its own start and nowhere else. */
    lemma NotFiled(n: BuddyNode, order: nat)
      requires Valid() && order < BUCKETS && n.size == BlockSize(order) && n.start !in buckets[order]
      ensures !InBucket(buckets, n) && n !in pool
    {
      BlockSizeIsPow2(order);
      forall k, s | 0 <= k < BUCKETS && s in buckets[k] ensures buckets[k][s] != n {
        OneSize(k, order);
      }
    }

    static lemma OutOfBucket(b: Buckets, k: nat, s: nat, m: BuddyNode)
      requires k < |b| && s in b[k] && !InBucket(b, m)
      ensures b[k][s] != m
    {
    }

    static lemma OneSize(j: nat, k: nat)
      ensures BlockSize(j) == BlockSize(k) ==> j == k
    {
      if j < k { Pow2Monotone(j, k); }
      if k < j { Pow2Monotone(k, j); }
    }

    /** Putting a loose node in its bucket. */
    method File(order: nat, n: BuddyNode)
      requires Valid() && order < BUCKETS && Loose(n) && n.size == BlockSize(order)
      modifies this`buckets, bins, bins.trees, bins.nodes
      ensures Valid() && fresh(bins.nodes - old(bins.nodes))
      ensures buckets == Insert(old(buckets), order, n.start, n)
      ensures FreeSet(buckets) == FreeSet(old(buckets)) + {Block(order, n.start)}
      ensures forall m :: m in repr && m != n && old(Loose(m)) ==> Loose(m)
    {
      hide BlockSize; hide InBucket; hide FreeSet; hide Pooled;
      hide BucketArray.Valid;
      ghost var was := buckets;
      FreeSetInsert(buckets, order, n.start, n);
      bins.Add(order, n.start, n);
      buckets := Insert(buckets, order, n.start, n);
      forall m | m in repr && m != n && old(Loose(m)) ensures Loose(m) {
        if InBucket(buckets, m) { InBucketInsert(was, order, n.start, n, m); }
      }
    }

    /** The data of the least key of a bucket, and null for an empty one. */
    method Min(order: nat) returns (n: BuddyNode?)
      requires Valid() && order < BUCKETS
      ensures n == null <==> Starts(FreeSet(buckets), order) == {}
      ensures n != null ==>
        n.start in buckets[order] && buckets[order][n.start] == n && n.start == Least(Starts(FreeSet(buckets), order))
    {
      FreeSetStarts(buckets, order);
      n := bins.Min(order);
      if n != null {
        ghost var s :| s in buckets[order] && buckets[order][s] == n && forall t :: t in buckets[order] ==> s <= t;
        LeastIs(buckets[order].Keys, s);
      }
    }

    /** A split block keeps its first half in `split`; `remain` gets the other. */
    method Halve(split: BuddyNode, remain: BuddyNode, size: nat)
      requires Valid() && Loose(split) && Loose(remain) && split != remain
      modifies split`size, remain`start, remain`size, remain`next
      ensures Valid() && remain.start == split.start + size && remain.size == size && split.size == size
    {
      remain.start := split.start + size;
      remain.size := size;
      split.size := size;
      remain.next := null;
      forall k, s | 0 <= k < BUCKETS && s in buckets[k] ensures buckets[k][s] != split && buckets[k][s] != remain {
      }
    }

    method GetAvailableNode(order: nat) returns (r: BuddyNode?)
      requires Valid() && order < BUCKETS
      modifies this`buckets, this`pool, this`repr, repr, bins, bins.trees, bins.nodes
      ensures Valid() && old(repr) <= repr && fresh(repr - old(repr)) && fresh(bins.nodes - old(bins.nodes))
      ensures match Take(old(FreeSet(buckets)), order)
        case None => r == null && buckets == old(buckets)
        case Some((s, g)) =>
          r != null && Loose(r) && r.start == s && r.size == BlockSize(order) && FreeSet(buckets) == g
      ensures forall n :: n in old(repr) && old(Loose(n)) ==>
        Loose(n) && n != r && n.start == old(n.start) && n.size == old(n.size)
      decreases BUCKETS - order
    {
      hide BlockSize; hide Filed; hide Pooled; hide FreeSet; hide InBucket; hide Starts;
      hide BucketArray.Valid;
      var rval := Min(order);
      if rval != null {
        Unfile(order, rval);
        return rval;
      }
      if order >= BUCKETS - 1 {
        return null;
      }
      var size := BlockSize(order);
      // Take a block twice as large, and keep one half of it.
      var split := GetAvailableNode(order + 1);
      if split == null {
        return null;
      }
      r := KeepHalf(split, order, 0);
    }

    /** One half of the block in `split` is kept, the other one is filed. */
    method KeepHalf(split: BuddyNode, order: nat, odd: int) returns (kept: BuddyNode)
      requires Valid() && Loose(split) && order < BUCKETS
      modifies this`buckets, this`pool, this`repr, repr, bins, bins.trees, bins.nodes
      ensures Valid() && old(repr) <= repr && fresh(repr - old(repr)) && fresh(bins.nodes - old(bins.nodes))
      ensures Loose(kept) && kept.size == BlockSize(order) && (kept == split || kept !in old(repr) || !old(Loose(kept)))
      ensures kept.start == if odd != 0 then old(split.start) + BlockSize(order) else old(split.start)
      ensures FreeSet(buckets) == FreeSet(old(buckets))
        + {Block(order, if odd != 0 then old(split.start) else old(split.start) + BlockSize(order))}
      ensures forall n :: n in old(repr) && old(Loose(n)) && n != split ==>
        Loose(n) && n != kept && n.start == old(n.start) && n.size == old(n.size)
    {
      hide BlockSize; hide Filed; hide Pooled; hide FreeSet; hide InBucket;
      hide BucketArray.Valid;
      var size := BlockSize(order);
      var remain := GetFreeNode();
      Halve(split, remain, size);
      kept := split;
      if odd != 0 {
        kept, remain := remain, kept;
      }
      File(order, remain);
    }

    method GetExactFrame(address: nat, order: nat) returns (r: BuddyNode?)
      requires Valid() && Tiling(FreeSet(buckets)) && Proper(Block(order, address))
      modifies this`buckets, this`pool, this`repr, repr, bins, bins.trees, bins.nodes
      ensures Valid() && old(repr) <= repr && fresh(repr - old(repr)) && fresh(bins.nodes - old(bins.nodes))
      ensures match Carve(old(FreeSet(buckets)), address, order)
        case None => r == null && buckets == old(buckets)
        case Some(g) =>
          r != null && Loose(r) && r.start == address && r.size == BlockSize(order) && FreeSet(buckets) == g
      ensures forall n :: n in old(repr) && old(Loose(n)) ==>
        Loose(n) && n != r && n.start == old(n.start) && n.size == old(n.size)
      decreases BUCKETS - order
    {
      hide BlockSize; hide Filed; hide Pooled; hide FreeSet; hide InBucket; hide Tiling; hide Odd; hide Proper;
      hide BucketArray.Valid;
      hide Carve; hide Parent; hide Buddy;
      ghost var f, b := FreeSet(buckets), Block(order, address);
      TopOrder'(b);
      FreeSetHas(buckets);
      CarveIs(f, b);
      Parts();
      var rval := bins.Find(order, address);
      if rval != null {
        FiledAt(order, address);
        Unfile(order, rval);
        return rval;
      }
      if order >= BUCKETS - 1 {
        return null;
      }
      var size := BlockSize(order);
      BlockSizeIsPow2(order);
      var odd := if size == 0 then 0 else (address / size) % 2;
      HalvesOf(b);
      var higherAddr := address - (if odd != 0 then size else 0);
      var split := GetExactFrame(higherAddr, order + 1);
      if split == null {
        return null;
      }
      r := KeepHalf(split, order, odd);
    }

    /** The cases of carving. */
    static lemma CarveIs(f: set<Block>, b: Block)
      requires b.order < BUCKETS
      ensures b in f ==> Carve(f, b.start, b.order) == Some(f - {b})
      ensures b !in f && b.order >= TOP ==> Carve(f, b.start, b.order) == None
      ensures b !in f && b.order < TOP ==>
        var up := Carve(f, Parent(b).start, b.order + 1);
        Carve(f, b.start, b.order) == if up.None? then None else Some(up.value + {Buddy(b)})
    {
      assert b == Block(b.order, b.start);
    }

    /** The larger block around a block, and the other half of it. */
    static lemma HalvesOf(b: Block)
      requires b.order < TOP && Proper(b)
      ensures var size := BlockSize(b.order);
        var odd := (b.start / size) % 2;
        && Parent(b) == Block(b.order + 1, b.start - (if odd != 0 then size else 0)) && Proper(Parent(b))
        && b.start == Parent(b).start + (if odd != 0 then size else 0)
        && Buddy(b) == Block(b.order, if odd != 0 then Parent(b).start else Parent(b).start + size)
    {
      ParentHalves(b);
      OddMeans(b);
      BlockSizeIsPow2(b.order);
    }

    static lemma OddMeans(b: Block)
      requires b.order < TOP && Proper(b)
      ensures Odd(b) <==> (b.start / BlockSize(b.order)) % 2 == 1
      ensures Parent(b).start == b.start - (if Odd(b) then BlockSize(b.order) else 0)
      ensures Parent(b).start + BlockSize(b.order) == if Odd(b) then b.start else Buddy(b).start
      ensures Odd(b) ==> Buddy(b).start == Parent(b).start
    {
      ParentHalves(b);
    }

    /** The least power of two pages that is big enough, if one is free. */
    method Allocate(requested: nat) returns (r: PageBlock)
      requires Valid()
      modifies this`buckets, this`pool, this`repr, repr, bins, bins.trees, bins.nodes
      ensures Valid() && old(repr) <= repr && fresh(repr - old(repr)) && fresh(bins.nodes - old(bins.nodes))
      ensures r == NIL ==> buckets == old(buckets)
      ensures requested == 0 || requested >= maxSize ==> r == NIL
      ensures 0 < requested < maxSize ==>
        exists order :: BigEnough(requested, order) && Served(old(FreeSet(buckets)), FreeSet(buckets), order, r)
      ensures 0 < requested < maxSize && Tiling(old(FreeSet(buckets))) ==>
        exists order :: BigEnough(requested, order) && BestServed(old(FreeSet(buckets)), FreeSet(buckets), order, r)
    {
      hide BlockSize; hide Filed; hide Pooled; hide FreeSet; hide InBucket; hide Pow2;
      hide BucketArray.Valid;
      hide BestServed;
      ghost var f := FreeSet(buckets);
      if requested == 0 {
        return NIL;
      }
      if requested >= maxSize {
        return NIL;
      }
      var wanted := if requested < PAGE_SIZE then PAGE_SIZE else requested;
      PageFits();
      var pow2 := ToPow2(wanted);
      ghost var k: nat :| k < WORD && pow2 == Pow2(k) && Ceiling(wanted, k);
      OrderFits(wanted, k);
      var order := GetOrder(pow2);
      AtLeastAPage(requested, order);
      Parts();
      var frame := GetAvailableNode(order);
      if frame == null {
        r := NIL;
      } else {
        r := PageBlock(frame.start, frame.size);
        BlockSizeIsPow2(order);
        ReleaseNode(frame);
      }
      if Tiling(f) { ServedBest(f, FreeSet(buckets), order, r); }
    }

    static lemma PageFits()
      ensures PAGE_SIZE <= Pow2(WORD - 1) < Pow2(WORD)
    {
      BlockSizeIsPow2(0);
      Pow2Monotone(MIN_BUCKET, WORD - 1);
      Pow2Monotone(WORD - 1, WORD);
    }

    /** Requests below a page are served like a page. */
    static lemma AtLeastAPage(requested: nat, order: nat)
      requires order < BUCKETS && 0 < requested
      requires var w := if requested < PAGE_SIZE then PAGE_SIZE else requested;
        w <= BlockSize(order) && (order > 0 ==> BlockSize(order - 1) < w)
      ensures BigEnough(requested, order)
    {
      if order > 0 { AtLeast(Pow2(order - 1), PAGE_SIZE); }
    }

    lemma Parts()
      requires Valid()
      ensures |buckets| == BUCKETS == |bins.trees| && freePool in repr && bins.Valid() && bins.contents == buckets
    {
    }

    /** A node is filed under its start. */
    lemma FiledAt(order: nat, s: nat)
      requires Valid() && order < BUCKETS && s in buckets[order]
      ensures buckets[order][s].start == s && buckets[order][s].size == BlockSize(order)
    {
    }

    /** The smallest order whose blocks hold `requested` bytes. */
    static ghost predicate BigEnough(requested: nat, order: nat) {
      order < BUCKETS && requested <= BlockSize(order) && (order > 0 ==> BlockSize(order - 1) < requested)
    }

    /** A request for a block of `order` leads from the free set `f` to `g`. */
    static ghost predicate Served(f: set<Block>, g: set<Block>, order: nat, r: PageBlock)
      requires order < BUCKETS
    {
      match Take(f, order)
      case None => r == NIL && g == f
      case Some((s, h)) => r == PageBlock(s, BlockSize(order)) && g == h
    }

    /** The front part of the best fitting free block is handed out, and what is left
        of that block stays free; nil exactly if no free block is large enough. */
    static ghost predicate BestServed(f: set<Block>, g: set<Block>, order: nat, r: PageBlock) {
      if exists c :: BestFit(f, order, c) then
        exists c :: BestFit(f, order, c) && r == PageBlock(c.start, BlockSize(order))
          && g == f - {c} + UpperHalves(c, order)
      else r == NIL && g == f && !Bigger(f, order)
    }

    static lemma ServedBest(f: set<Block>, g: set<Block>, order: nat, r: PageBlock)
      requires Tiling(f) && order < BUCKETS && Served(f, g, order, r)
      ensures BestServed(f, g, order, r)
    {
      hide BlockSize; hide Tiling;
      TakeLaw(f, order);
      if Bigger(f, order) {
        var c := TakeIs(f, order);
      }
    }

    /** The block that a client hands back: one that it holds. */
    static ghost predicate Returnable(f: set<Block>, block: PageBlock, b: Block) {
      block == PageBlock(b.start, BlockSize(b.order)) && b !in f && Tiling(f + {b})
    }

    method Release(block: PageBlock, ghost b: Block)
      requires Valid() && (block.size != 0 ==> Returnable(FreeSet(buckets), block, b))
      modifies this`buckets, this`pool, this`repr, repr, bins, bins.trees, bins.nodes
      ensures Valid() && old(repr) <= repr && fresh(repr - old(repr)) && fresh(bins.nodes - old(bins.nodes))
      ensures block.size == 0 ==> buckets == old(buckets)
      ensures block.size != 0 ==> b.order < BUCKETS && FreeSet(buckets) == Give(old(FreeSet(buckets)), b)
    {
      hide BlockSize; hide Filed; hide Pooled; hide FreeSet; hide InBucket; hide Tiling; hide Odd; hide Proper;
      hide BucketArray.Valid;
      if block.size == 0 {
        return;
      }
      ghost var f0 := FreeSet(buckets);
      ProperIn(f0 + {b}, b);
      TopOrder'(b);
      var frame := GetFreeNode();
      SetFrame(frame, block.start, block.size);
      GetOrderOfBlock(b.order);
      var order := GetOrder(frame.size);
      ghost var c := b;
      while order < BUCKETS - 1
        invariant Valid() && old(repr) <= repr && fresh(repr - old(repr)) && fresh(bins.nodes - old(bins.nodes))
        invariant Loose(frame)
        invariant c == Block(order, frame.start) && frame.size == BlockSize(order) && order < BUCKETS
        invariant c !in FreeSet(buckets) && Tiling(FreeSet(buckets) + {c})
        invariant Give(FreeSet(buckets), c) == Give(f0, b)
        decreases BUCKETS - order
      {
        var merged := Absorb(frame, order, c);
        if !merged {
          break;
        }
        order := order + 1;
        c := Parent(c);
      }
      Last(FreeSet(buckets), c);
      File(order, frame);
    }

    /** The node of the buddy, left or right of the frame, if it is free. */
    method FindBuddy(frame: BuddyNode, order: nat, ghost c: Block) returns (buddy: BuddyNode?)
      requires Valid() && order < BUCKETS - 1 && c == Block(order, frame.start) && frame.size == BlockSize(order)
      requires Proper(c)
      ensures buddy != null <==> Buddy(c) in FreeSet(buckets)
      ensures buddy != null ==>
        buddy.start == Buddy(c).start && buddy.start in buckets[order] && buckets[order][buddy.start] == buddy
    {
      hide BlockSize; hide Filed; hide Pooled; hide FreeSet; hide InBucket; hide Tiling; hide Odd; hide Proper;
      hide BucketArray.Valid;
      BlockSizeIsPow2(order);
      ParentHalves(c);
      OddMeans(c);
      FreeSetHas(buckets);
      Parts();
      var odd := (frame.start / frame.size) % 2;
      var there := if odd != 0 then frame.start - frame.size else frame.start + frame.size;
      buddy := bins.Find(order, there);
      if buddy != null { FiledAt(order, there); }
    }

    /** One round of the loop: the buddy of the frame, if it is free, is taken out of
        its bucket and becomes part of the frame. */
    method Absorb(frame: BuddyNode, order: nat, ghost c: Block) returns (merged: bool)
      requires Valid() && Loose(frame) && order < BUCKETS - 1
      requires c == Block(order, frame.start) && frame.size == BlockSize(order)
      requires c !in FreeSet(buckets) && Tiling(FreeSet(buckets) + {c})
      modifies this`buckets, this`pool, repr, bins, bins.trees, bins.nodes
      ensures Valid() && Loose(frame) && repr == old(repr) && fresh(bins.nodes - old(bins.nodes))
      ensures merged <==> Buddy(c) in FreeSet(old(buckets))
      ensures !merged ==> buckets == old(buckets) && frame.start == old(frame.start) && frame.size == old(frame.size)
      ensures merged ==> Parent(c) == Block(order + 1, frame.start) && frame.size == BlockSize(order + 1)
      ensures merged ==> Parent(c) !in FreeSet(buckets) && Tiling(FreeSet(buckets) + {Parent(c)})
      ensures merged ==> Give(FreeSet(buckets), Parent(c)) == Give(FreeSet(old(buckets)), c)
    {
      hide BlockSize; hide Filed; hide Pooled; hide FreeSet; hide InBucket; hide Tiling; hide Odd; hide Proper;
      hide BucketArray.Valid;
      Parts();
      ProperIn(FreeSet(buckets) + {c}, c);
      var buddy := FindBuddy(frame, order, c);
      if buddy == null {
        return false;
      }
      ghost var f := FreeSet(buckets);
      Unfile(order, buddy);
      MergeStep(f, c);
      SetFrame(frame, if frame.start <= buddy.start then frame.start else buddy.start, frame.size + buddy.size);
      ReleaseNode(buddy);
      return true;
    }

    static lemma Last(f: set<Block>, c: Block)
      requires c.order < BUCKETS
      ensures c.order == TOP || Buddy(c) !in f ==> Give(f, c) == f + {c}
    {
    }

    /** One merge of `Release` is one step of `Give`. */
    static lemma MergeStep(f: set<Block>, c: Block)
      requires c !in f && Tiling(f + {c}) && c.order < TOP && Buddy(c) in f
      ensures var g, p := f - {Buddy(c)}, Parent(c);
        p !in g && Tiling(g + {p}) && Give(f, c) == Give(g, p)
      ensures Parent(c).start == if c.start <= Buddy(c).start then c.start else Buddy(c).start
      ensures BlockSize(c.order + 1) == BlockSize(c.order) + BlockSize(c.order)
    {
      ParentStart(f, c);
      hide BlockSize; hide Tiling; hide Odd; hide Proper; hide Buddy; hide Parent; hide LeftHalf; hide RightHalf;
      ProperIn(f + {c}, c);
      ParentHalves(c);
      var g, p := f - {Buddy(c)}, Parent(c);
      assert p.order > 0 && Buddy(c) != c;
      assert f + {c} == g + {LeftHalf(p), RightHalf(p)};
      MergeKeeps(g, p);
    }

    static lemma ParentStart(f: set<Block>, c: Block)
      requires c !in f && Tiling(f + {c}) && c.order < TOP
      ensures Parent(c).start == if c.start <= Buddy(c).start then c.start else Buddy(c).start
      ensures BlockSize(c.order + 1) == BlockSize(c.order) + BlockSize(c.order)
      ensures Parent(c).order == c.order + 1 && Buddy(c) != c
    {
      hide BlockSize; hide Tiling; hide Proper;
      ProperIn(f + {c}, c);
      ParentHalves(c);
      BlockSizeIsPow2(c.order);
    }

    method SetFrame(frame: BuddyNode, start: nat, size: nat)
      requires Valid() && Loose(frame)
      modifies frame`start, frame`size
      ensures Valid() && frame.start == start && frame.size == size
    {
      frame.start := start;
      frame.size := size;
      forall k, s | 0 <= k < BUCKETS && s in buckets[k] ensures buckets[k][s] != frame {
      }
    }
  }
}
