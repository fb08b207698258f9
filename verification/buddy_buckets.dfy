/** The buckets of the page-frame allocator (work/PageFrameAllocator.h): one AVL
    tree of nodes for each order. */
module BuddyBuckets {

  import opened BuddyNodes
  import opened AvlShape
  import opened AvlTree

  /** What the trees hold: a node by its key. */
  type Buckets = seq<map<nat, BuddyNode>>

  /** `m_buckets[k].Insert(s, n)` */
  function Insert(buckets: Buckets, k: nat, s: nat, n: BuddyNode): Buckets
    requires k < |buckets|
  {
    var m: map<nat, BuddyNode> := buckets[k][s := n];
    buckets[k := m]
  }

  /** `m_buckets[k].Remove(s)` */
  function Remove(buckets: Buckets, k: nat, s: nat): Buckets
    requires k < |buckets|
  {
    buckets[k := buckets[k] - {s}]
  }

  ghost predicate Separate(s: AVLTree, t: AVLTree)
    reads s, t
  {
    s != t && s.root != t.root && s.root !in t.repr && t.root !in s.repr && s.repr !! t.repr
  }

  class BucketArray {
    const trees: seq<AVLTree>
    ghost var contents: Buckets
    ghost var nodes: set<Node>  // of all trees, the sentinels included

    ghost predicate Apart()
      reads this, trees
    {
      && |contents| == |trees|
      && (forall k | 0 <= k < |trees| :: trees[k].root in nodes && trees[k].repr <= nodes)
      && (forall j, k | 0 <= j < k < |trees| :: Separate(trees[j], trees[k]))
    }

    /** Each tree is valid and holds what it should, and no two share a node. */
    ghost predicate Valid()
      reads this, trees, nodes
    {
      Apart() && forall k | 0 <= k < |trees| :: trees[k].Valid() && trees[k].Contents() == contents[k]
    }

    constructor (n: nat)
      ensures Valid() && fresh(trees) && fresh(nodes) && |trees| == n && contents == seq(n, i => map[])
    {
      hide AVLTree.Valid;
      hide AVLTree.Contents;
      var ts: seq<AVLTree> := [];
      ghost var ns: set<Node> := {};
      while |ts| < n
        invariant |ts| <= n && fresh(ts) && fresh(ns)
        invariant forall k | 0 <= k < |ts| :: ts[k].root in ns && ts[k].repr <= ns
        invariant forall j, k | 0 <= j < k < |ts| :: Separate(ts[j], ts[k])
        invariant forall k | 0 <= k < |ts| :: ts[k].Valid() && ts[k].Contents() == map[]
      {
        var t := new AVLTree();
        ts, ns := ts + [t], ns + {t.root} + t.repr;
      }
      trees, nodes := ts, ns;
      contents := seq(n, i => map[]);
    }

    /** The node filed under a key, if any. */
    method Find(k: nat, s: nat) returns (n: BuddyNode?)
      requires Valid() && k < |trees|
      ensures n == if s in contents[k] then contents[k][s] else null
    {
      n := trees[k].Find(s);
    }

    /** The node of the least key. */
    method Min(k: nat) returns (n: BuddyNode?)
      requires Valid() && k < |trees|
      ensures n == null <==> contents[k] == map[]
      ensures n != null ==>
        exists s :: s in contents[k] && contents[k][s] == n && forall t :: t in contents[k] ==> s <= t
    {
      n := trees[k].Min();
      if contents[k] != map[] {
        ghost var s: int :| s in trees[k].Contents() && trees[k].Contents()[s] == n
          && forall j :: j in trees[k].Contents() ==> s <= j;
        assert s in contents[k] && contents[k][s] == n;
      }
    }

    method Add(k: nat, s: nat, n: BuddyNode)
      requires Valid() && k < |trees|
      modifies this, trees, nodes
      ensures Valid() && contents == Insert(old(contents), k, s, n) && fresh(nodes - old(nodes))
    {
      hide AVLTree.Valid;
      hide AVLTree.Contents;
      var t := trees[k];
      t.Insert(s, n);
      contents := Insert(contents, k, s, n);
      nodes := nodes + t.repr;
    }

    method Drop(k: nat, s: nat)
      requires Valid() && k < |trees|
      modifies this, trees, nodes
      ensures Valid() && contents == Remove(old(contents), k, s) && nodes == old(nodes)
    {
      hide AVLTree.Valid;
      hide AVLTree.Contents;
      var t := trees[k];
      var _ := t.Remove(s);
      contents := Remove(contents, k, s);
    }
  }
}
