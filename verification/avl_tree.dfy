/** The AVL tree of work/AVLTree.h. */
module AvlTree {
  import opened AvlShape
  import opened AvlRotate
  import opened AvlWalk
  import opened AvlContents
  import opened Powers

  class AVLTree {
    const root: Node  // the sentinel m_root; the tree hangs from its left pointer
    var min: Node?
    var count: nat
    ghost var tree: Tree
    ghost var repr: set<Node>

    /** What the heap must look like, and what the tree must look like: links in
        both directions, exact balance factors, search order, nothing removed. */
    ghost predicate Linked()
      reads this, root, repr
    {
      root !in repr && root.right == null && Nodes(tree) == repr && Distinct(tree) && Fits(Top, tree, root)
    }

    ghost predicate Valid()
      reads this, root, repr
    {
      && Linked()
      && Gones(tree) == {} && Avl(tree) && Sorted(Entries(tree))
      && min == Least(Entries(tree)) && count == |Entries(tree)|
    }

    ghost function Contents(): map<int, Data>
      reads this
    {
      ToMap(Entries(tree))
    }

    constructor ()
      ensures Valid() && fresh(root) && fresh(repr) && Contents() == map[]
    {
      root := new Node();
      min, count, tree, repr := null, 0, Nil, {};
    }

    /** The search loop shared by `FindNode` and `Insert`: it ends at the key or
        at the hole where the key belongs. */
    method Search(key: int)
      returns (current: Node?, parent: Node, cmp: int, ghost path: Path, ghost sub: Tree, ghost steps: nat)
      requires Valid()
      ensures Plug(path, sub) == tree && Fits(path, sub, root) && Apart(path, sub, root)
      ensures current == TopNode(sub) && parent == Holder(path, root)
      ensures sub == Nil || (sub.Br? && sub.e.key == key)
      ensures AllBelow(Before(path), key) && AllAbove(After(path), key)
      ensures (path.InLeft? && sub == Nil ==> cmp < 0) && (path.InRight? && sub == Nil ==> cmp > 0)
      ensures (current != null ==>
        current in repr) && parent in repr + {root} && PathNodes(path) <= repr && Nodes(sub) <= repr
      ensures steps <= Height(tree)
    {
      hide Rep; hide RepPath; hide Nodes; hide PathNodes; hide Distinct; hide DistinctPath; hide Plug; hide Before;
      hide After; hide Entries;
      hide AllBelow; hide AllAbove; hide Avl; hide Gones;
      SearchStart(key);
      current, parent, cmp := root.left, root, 0;
      path, sub, steps := Top, tree, 0;
      TopInNodes(sub);
      while current != null
        invariant Plug(path, sub) == tree && Fits(path, sub, root) && Apart(path, sub, root)
        invariant current == TopNode(sub) && parent == Holder(path, root)
        invariant AllBelow(Before(path), key) && AllAbove(After(path), key)
        invariant (path.InLeft? ==> cmp < 0) && (path.InRight? ==> cmp > 0)
        invariant steps + Height(sub) <= Height(tree)
        decreases sub
      {
        SearchAt(path, sub);
        cmp := if key < current.key then -1 else if key > current.key then 1 else 0;
        if cmp == 0 {
          break;
        }
        Descend(path, sub, key);
        parent := current;
        current := if cmp < 0 then current.left else current.right;
        path, sub := if cmp < 0 then InLeft(path, sub.e, sub.b, sub.r) else InRight(path, sub.l, sub.e, sub.b),
                     if cmp < 0 then sub.l else sub.r;
        steps := steps + 1;
      }
      SearchEnd(path, sub);
    }

    lemma SearchEnd(path: Path, sub: Tree)
      requires Valid() && Plug(path, sub) == tree
      ensures PathNodes(path) <= repr && Nodes(sub) <= repr && Holder(path, root) in repr + {root}
      ensures sub != Nil ==> TopNode(sub) in Nodes(sub)
      ensures sub == Nil <==> TopNode(sub) == null
    {
      PlugNodes(path, sub);
      HolderInPath(path, root);
      TopInNodes(sub);
    }

    lemma SearchStart(key: int)
      requires Valid()
      ensures Plug(Top, tree) == tree && Apart(Top, tree, root) && root.left == TopNode(tree)
      ensures AllBelow(Before(Top), key) && AllAbove(After(Top), key)
    {
    }

    lemma SearchAt(path: Path, sub: Tree)
      requires Valid() && Plug(path, sub) == tree && sub != Nil
      ensures sub.Br? && Sorted(Before(path) + Entries(sub) + After(path))
      ensures Fits(path, sub, root) ==> sub.e.node.key == sub.e.key
    {
      PlugNodes(path, sub);
      PlugEntries(path, sub);
    }

    lemma Descend(path: Path, sub: Tree, key: int)
      requires Fits(path, sub, root) && Apart(path, sub, root) && sub.Br?
      requires Sorted(Before(path) + Entries(sub) + After(path))
      requires AllBelow(Before(path), key) && AllAbove(After(path), key)
      ensures var p := InLeft(path, sub.e, sub.b, sub.r);
        && Plug(p, sub.l) == Plug(path, sub) && Fits(p, sub.l, root) && Apart(p, sub.l, root)
        && TopNode(sub.l) == sub.e.node.left
        && (key < sub.e.key ==> AllBelow(Before(p), key) && AllAbove(After(p), key))
      ensures var p := InRight(path, sub.l, sub.e, sub.b);
        && Plug(p, sub.r) == Plug(path, sub) && Fits(p, sub.r, root) && Apart(p, sub.r, root)
        && TopNode(sub.r) == sub.e.node.right
        && (key > sub.e.key ==> AllBelow(Before(p), key) && AllAbove(After(p), key))
    {
      hide AllBelow; hide AllAbove; hide Sorted; hide Entries; hide Rep; hide RepPath; hide Distinct; hide DistinctPath;
      var p, q := InLeft(path, sub.e, sub.b, sub.r), InRight(path, sub.l, sub.e, sub.b);
      StepUp(p, sub.l, root);
      StepUp(q, sub.r, root);
      OpenTree(sub);
      EntriesOf(sub);
      OneSide(Before(path), Entries(sub.l), sub.e, Entries(sub.r), After(path), key);
    }

    /** A tree that has just grown by one: no node but a new leaf has equal
        subtrees at the top. */
    static ghost predicate Grown(t: Tree) {
      t.Br? && (t.b == 0 ==> Height(t) == 1) && Avl(t)
    }

    /** The factors on the path still speak of the height before. */
    static ghost predicate GrownIn(p: Path, t: Tree) {
      Grown(t) && AvlPath(p, Height(t) - 1)
    }

    lemma AtRoot(p: Path, t: Tree)
      requires Fits(p, t, root) && Apart(p, t, root) && t != Nil
      ensures TopNode(t) == root.left <==> p == Top
    {
      TopInNodes(t);
      if p != Top { RootChild(p, root); }
    }

    /** The three cases of a left subtree that has grown. */
    static lemma GrownLeft(p: Path, t: Tree)
      requires p.InLeft? && GrownIn(p, t)
      ensures var w := Bigger(p, t);
        && w == Br(t, p.e, p.b, p.r) && -1 <= p.b <= 1
        && (p.b == 1 ==> Avl(w.(b := 0)) && AvlPath(p.up, Height(w.(b := 0))))
        && (p.b == 0 ==> GrownIn(p.up, w.(b := -1)))
        && (p.b == -1 ==>
          t.Br? && t.b != 0 && Avl(w.l) && Avl(w.r) && Height(w.l) == Height(w.r) + 2 && AvlPath(p.up, Height(w) - 1))
    {
    }

    static lemma GrownRight(p: Path, t: Tree)
      requires p.InRight? && GrownIn(p, t)
      ensures var w := Bigger(p, t);
        && w == Br(p.l, p.e, p.b, t) && -1 <= p.b <= 1
        && (p.b == -1 ==> Avl(w.(b := 0)) && AvlPath(p.up, Height(w.(b := 0))))
        && (p.b == 0 ==> GrownIn(p.up, w.(b := 1)))
        && (p.b == 1 ==>
          t.Br? && t.b != 0 && Avl(w.l) && Avl(w.r) && Height(w.r) == Height(w.l) + 2 && AvlPath(p.up, Height(w) - 1))
    {
    }

    /** The walk of `Insert` back up: `grown` hangs in the hole of `hole` and is
        one higher than what the factors on the path still say. */
    method RebalanceInsert(start: Node, ghost hole: Path, ghost grown: Tree) returns (ghost t: Tree)
      requires Fits(hole, grown, root) && Apart(hole, grown, root) && start == TopNode(grown)
      requires GrownIn(hole, grown) && Gones(grown) == {} && PathGones(hole) == {}
      modifies root, Nodes(grown), PathNodes(hole)
      ensures Fits(Top, t, root) && SameButShape(Plug(hole, grown), t) && Avl(t)
      ensures root.right == old(root.right)
    {
      hide Rep; hide RepPath; hide Nodes; hide PathNodes; hide Distinct; hide DistinctPath; hide Entries; hide Plug;
      hide Fits; hide Apart; hide SameButShape; hide Avl; hide AvlPath; hide Height; hide GrownIn; hide Gones;
      hide PathGones;
      ghost var all, t0 := Nodes(grown) + PathNodes(hole), Plug(hole, grown);
      ghost var path, cur := hole, grown;
      var current, parent := start, start.parent;
      StartWalk(path, cur);
      while current != root.left
        invariant Fits(path, cur, root) && Apart(path, cur, root) && SameButShape(t0, Plug(path, cur))
        invariant Nodes(cur) + PathNodes(path) == all && cur != Nil
        invariant current == TopNode(cur) && parent == Holder(path, root)
        invariant GrownIn(path, cur) && Gones(cur) == {} && PathGones(path) == {}
        invariant root.right == old(root.right)
        decreases path
      {
        AtRoot(path, cur);
        StepUp(path, cur, root);
        ghost var up, w := Upper(path), Bigger(path, cur);
        ghost var was, p := cur, path;
        AroundHole(path, cur, root);
        if current == parent.left {
          GrownLeft(path, cur);
          if parent.balance == 1 {
            SameFactor(w, 0);
            Carry(t0, path, cur, w.(b := 0), root);
            cur := SetFactor(parent, 0, path, cur, root);
            path := up;
            break;
          } else if parent.balance == 0 {
            SameFactor(w, -1);
            Carry(t0, path, cur, w.(b := -1), root);
            cur := SetFactor(parent, -1, path, cur, root);
            path := up;
          } else if parent.balance == -1 {
            InsertLeftRestores(w);
            Carry(t0, path, cur, InsertLeft(w), root);
            RepairInsertLeft(parent, up, w, root);
            cur := InsertLeft(w);
            path := up;
            break;
          }
        } else {
          GrownRight(path, cur);
          if parent.balance == -1 {
            SameFactor(w, 0);
            Carry(t0, path, cur, w.(b := 0), root);
            cur := SetFactor(parent, 0, path, cur, root);
            path := up;
            break;
          } else if parent.balance == 0 {
            SameFactor(w, 1);
            Carry(t0, path, cur, w.(b := 1), root);
            cur := SetFactor(parent, 1, path, cur, root);
            path := up;
          } else if parent.balance == 1 {
            InsertRightRestores(w);
            Carry(t0, path, cur, InsertRight(w), root);
            RepairInsertRight(parent, up, w, root);
            cur := InsertRight(w);
            path := up;
            break;
          }
        }
        current := parent;
        parent := current.parent;
      }
      EndWalk(path, cur);
      PlugAvl(path, cur);
      PlugFits(path, cur, root);
      t := Plug(path, cur);
    }

    lemma StartWalk(p: Path, t: Tree)
      requires Fits(p, t, root) && GrownIn(p, t)
      ensures SameButShape(Plug(p, t), Plug(p, t)) && t != Nil && TopNode(t).parent == Holder(p, root)
    {
    }

    lemma EndWalk(p: Path, t: Tree)
      requires Fits(p, t, root) && Apart(p, t, root) && t != Nil
      ensures GrownIn(p, t) && TopNode(t) == root.left ==> Avl(t) && AvlPath(p, Height(t))
    {
      AtRoot(p, t);
    }

    /** The value side of an insertion into the empty hole of `p`. */
    static lemma Inserted(p: Path, e: Entry, t: Tree)
      requires Sorted(Entries(Plug(p, Nil))) && AllBelow(Before(p), e.key) && AllAbove(After(p), e.key)
      requires SameButShape(Plug(p, Br(Nil, e, 0, Nil)), t)
      ensures Sorted(Entries(t)) && ToMap(Entries(t)) == ToMap(Entries(Plug(p, Nil)))[e.key := e.data]
      ensures |Entries(t)| == |Entries(Plug(p, Nil))| + 1
      ensures var old' := Entries(Plug(p, Nil));
        Least(Entries(t)) == if old' == [] || e.key < old'[0].key then e.node else Least(old')
    {
      hide Sorted; hide ToMap; hide AllBelow; hide AllAbove; hide Distinct; hide Nodes; hide Before; hide After;
      var a, c := Before(p), After(p);
      PlugEntries(p, Nil);
      PlugEntries(p, Br(Nil, e, 0, Nil));
      assert Entries(Plug(p, Nil)) == a + c;
      assert Entries(t) == a + [e] + c;
      MapMissing(a, c, e.key);
      MapInsert(a, e, c);
      LeastInsert(a, e, c);
    }

    static lemma InsertedNodes(p: Path, e: Entry, t: Tree)
      requires SameButShape(Plug(p, Br(Nil, e, 0, Nil)), t)
      requires Distinct(Plug(p, Nil)) && e.node !in PathNodes(p)
      ensures Nodes(t) == Nodes(Plug(p, Nil)) + {e.node} && Gones(t) == Gones(Plug(p, Nil)) && Distinct(t)
    {
      hide Entries;
      PlugNodes(p, Nil);
      PlugNodes(p, Br(Nil, e, 0, Nil));
      assert Nodes(Br(Nil, e, 0, Nil)) == {e.node};
    }

    /** The value side of replacing the data of the entry in the hole. */
    static lemma Updated(p: Path, t: Tree, e: Entry)
      requires t.Br? && Sorted(Entries(Plug(p, t))) && e.key == t.e.key && e.node == t.e.node
      ensures var s, s' := Entries(Plug(p, t)), Entries(Plug(p, t.(e := e)));
        Sorted(s') && ToMap(s') == ToMap(s)[e.key := e.data] && |s'| == |s| && Least(s') == Least(s)
    {
      hide Sorted; hide ToMap; hide Before; hide After; hide Entries;
      var u := t.(e := e);
      PlugEntries(p, t); PlugEntries(p, u);
      EntriesOf(t); EntriesOf(u);
      var a, c := Before(p) + Entries(t.l), Entries(t.r) + After(p);
      Regroup(Before(p), Entries(t.l), [t.e], Entries(t.r), After(p));
      Regroup(Before(p), Entries(t.l), [e], Entries(t.r), After(p));
      assert Before(p) + (Entries(t.l) + [t.e] + Entries(t.r)) + After(p) == a + [t.e] + c;
      assert Before(p) + (Entries(t.l) + [e] + Entries(t.r)) + After(p) == a + [e] + c;
      MapUpdate(a, t.e, e, c);
      LeastUpdate(a, t.e, e, c);
    }

    static lemma UpdatedShape(p: Path, t: Tree, e: Entry)
      requires t.Br? && e.node == t.e.node
      ensures var w, w' := Plug(p, t), Plug(p, t.(e := e));
        (Distinct(w') <==> Distinct(w)) && Nodes(w') == Nodes(w) && Gones(w') == Gones(w) && (Avl(w') <==> Avl(w))
    {
      PlugNodes(p, t); PlugNodes(p, t.(e := e));
      PlugAvl(p, t); PlugAvl(p, t.(e := e));
    }

    /** The cached node and the least key. */
    lemma LeastKey()
      requires Valid()
      ensures min == null <==> Entries(tree) == []
      ensures min != null ==> min in repr && min.key == Entries(tree)[0].key && min.data == Entries(tree)[0].data
    {
      EntriesHeld(tree);
    }

    /** A leaf in the hole of a balanced tree. */
    static lemma NewLeaf(p: Path, e: Entry)
      requires Avl(Plug(p, Nil)) && Gones(Plug(p, Nil)) == {}
      ensures GrownIn(p, Br(Nil, e, 0, Nil)) && Gones(Br(Nil, e, 0, Nil)) == {} && PathGones(p) == {}
      ensures Nodes(Br(Nil, e, 0, Nil)) == {e.node} && PathNodes(p) == Nodes(Plug(p, Nil))
    {
      PlugAvl(p, Nil);
      PlugNodes(p, Nil);
      assert Height(Nil) == 0 && Height(Br(Nil, e, 0, Nil)) == 1;
    }

    method Insert(key: int, data: Data)
      requires Valid()
      modifies this, root, repr
      ensures Valid() && fresh(repr - old(repr))
      ensures Contents() == old(Contents())[key := data]
    {
      hide Rep; hide RepPath; hide Nodes; hide PathNodes; hide Distinct; hide DistinctPath; hide Entries; hide Plug;
      hide Before; hide After;
      hide Avl; hide Sorted; hide Gones; hide ToMap; hide Height; hide GrownIn; hide PathGones; hide AllAbove;
      hide AllBelow; hide Fits; hide Apart; hide SameButShape;
      var current, parent, cmp, path, sub, _ := Search(key);
      if current != null {
        Overwrite(current, data, path, sub);
      } else {
        InsertAt(parent, cmp, key, data, path);
      }
    }

    /** A duplicate key only replaces the data. */
    method Overwrite(current: Node, data: Data, ghost path: Path, ghost sub: Tree)
      requires Valid() && Plug(path, sub) == tree && Fits(path, sub, root) && Apart(path, sub, root)
      requires sub.Br? && current == sub.e.node && current in repr
      modifies this`tree, current`key, current`data
      ensures Valid() && Contents() == old(Contents())[sub.e.key := data] && count == old(count) && repr == old(repr)
    {
      hide Rep; hide RepPath; hide Nodes; hide PathNodes; hide Distinct; hide DistinctPath; hide Entries; hide Plug;
      hide Before; hide After;
      hide Avl; hide Sorted; hide Gones; hide ToMap; hide Height; hide GrownIn; hide PathGones; hide AllAbove;
      hide AllBelow; hide Fits; hide Apart; hide SameButShape;
      ghost var e := Entry(current, current.key, data);
      HeldAt(path, sub);
      Updated(path, sub, e);
      UpdatedShape(path, sub, e);
      SetPayload(current, current.key, data, path, sub, root);
      PlugFits(path, sub.(e := e), root);
      NotANode(Top, Plug(path, sub.(e := e)));
      tree := Plug(path, sub.(e := e));
    }

    /** Writing the tree's own fields does not touch its nodes. */
    lemma NotANode(p: Path, t: Tree)
      ensures (this as object) !in PathNodes(p) && (this as object) !in Nodes(t)
    {
    }

    lemma HeldAt(p: Path, t: Tree)
      requires Fits(p, t, root) && t.Br?
      ensures t.e.node.key == t.e.key && t.e.node.data == t.e.data
    {
    }

    /** The part of `Insert` after the search: a new leaf in the hole. */
    method InsertAt(parent: Node, cmp: int, key: int, data: Data, ghost path: Path)
      requires Valid() && Plug(path, Nil) == tree && Fits(path, Nil, root) && Apart(path, Nil, root)
      requires parent == Holder(path, root) && parent in repr + {root} && PathNodes(path) <= repr
      requires AllBelow(Before(path), key) && AllAbove(After(path), key)
      requires (path.InLeft? ==> cmp < 0) && (path.InRight? ==> cmp > 0)
      modifies this, root, repr
      ensures Valid() && fresh(repr - old(repr))
      ensures Contents() == old(Contents())[key := data]
    {
      hide Rep; hide RepPath; hide Nodes; hide PathNodes; hide Distinct; hide DistinctPath; hide Entries; hide Plug;
      hide Before; hide After;
      hide Avl; hide Sorted; hide Gones; hide ToMap; hide Height; hide GrownIn; hide PathGones; hide AllAbove;
      hide AllBelow; hide Fits; hide Apart; hide SameButShape;
      LeastKey();
      ghost var e, leaf;
      var current;
      current, e, leaf := NewNode(parent, cmp, key, data, path);
      if min == null || current.key < min.key {
        min := current;
      }
      ghost var t := RebalanceInsert(current, path, leaf);
      Inserted(path, e, t);
      InsertedNodes(path, e, t);
      NotANode(Top, t);
      tree := t;
      repr := repr + {current};
      count := count + 1;
    }

    method NewNode(parent: Node, cmp: int, key: int, data: Data, ghost path: Path) returns (current: Node,
            ghost e: Entry, ghost leaf: Tree)
      requires Valid() && Plug(path, Nil) == tree && Fits(path, Nil, root) && Apart(path, Nil, root)
      requires parent == Holder(path, root) && parent in repr + {root} && PathNodes(path) <= repr
      requires (path.InLeft? ==> cmp < 0) && (path.InRight? ==> cmp > 0)
      modifies parent`left, parent`right
      ensures fresh(current) && current.key == key && e == Entry(current, key, data) && leaf == Br(Nil, e, 0, Nil)
      ensures Fits(path, leaf, root) && Apart(path, leaf, root) && root.right == old(root.right)
      ensures GrownIn(path, leaf) && Gones(leaf) == {} && PathGones(path) == {} && Nodes(leaf) == {current}
    {
      hide Rep; hide RepPath; hide Nodes; hide PathNodes; hide Distinct; hide DistinctPath; hide Entries; hide Plug;
      hide Before; hide After;
      hide Avl; hide Sorted; hide Gones; hide ToMap; hide Height; hide GrownIn; hide PathGones; hide AllAbove;
      hide AllBelow; hide Fits; hide Apart; hide SameButShape;
      RepNil();
      assert allocated(PathNodes(path));
      current := new Node();
      current.parent := parent;
      current.key := key;
      current.data := data;
      e := Entry(current, key, data);
      NewLeaf(path, e);
      leaf := Link(current, parent, cmp, root, path);
    }

    /** The node that comes next from left to right, down to the left end of the
        right subtree or up to the first ancestor on the right. */
    method Successor(node: Node, ghost path: Path, ghost sub: Tree) returns (n: Node?, ghost spine: Path,
            ghost leaf: Tree)
      requires Fits(path, sub, root) && Apart(path, sub, root) && root.right == null
      requires sub.Br? && node == sub.e.node && Gones(sub) == {}
      ensures n == Least(Entries(sub.r) + After(path))
      ensures sub.r != Nil ==>
        leaf.Br? && leaf.l == Nil && n == leaf.e.node && Plug(spine, leaf) == sub.r && Before(spine) == []
    {
      hide Rep; hide RepPath; hide Nodes; hide PathNodes; hide Distinct; hide DistinctPath;
      OpenTree(sub);
      TopInNodes(sub.r);
      n := node.right;
      spine, leaf := Top, sub.r;
      if n != null {
        while n.left != null
          invariant leaf.Br? && n == leaf.e.node && Rep(leaf) && Gones(leaf) == {}
          invariant Plug(spine, leaf) == sub.r && Before(spine) == []
          decreases leaf
        {
          OpenTree(leaf);
          TopInNodes(leaf.l);
          n := n.left;
          spine, leaf := InLeft(spine, leaf.e, leaf.b, leaf.r), leaf.l;
        }
        OpenTree(leaf);
        TopInNodes(leaf.l);
        PlugEntries(spine, leaf);
        assert Entries(sub.r)[0] == leaf.e;
      } else {
        ghost var p, t := path, sub;
        var cur := node;
        n := node.parent;
        while cur == n.right
          invariant Fits(p, t, root) && Apart(p, t, root) && t != Nil && cur == TopNode(t)
          invariant n == Holder(p, root) && After(p) == After(path)
          decreases p
        {
          AtHole(p, t);
          StepUp(p, t, root);
          cur, n := n, n.parent;
          p, t := Upper(p), Bigger(p, t);
        }
        AtHole(p, t);
        if n == root {
          n := null;
        }
      }
    }

    lemma AtHole(p: Path, t: Tree)
      requires Fits(p, t, root) && Apart(p, t, root) && t != Nil && root.right == null
      ensures TopNode(t) == Holder(p, root).right <==> p.InRight?
      ensures Holder(p, root) == root <==> p == Top
      ensures p != Top ==> Holder(p, root).parent == Holder(Upper(p), root)
      ensures p == Top ==> After(p) == []
      ensures p.InLeft? ==> After(p) != [] && After(p)[0].node == Holder(p, root)
      ensures p.InRight? ==> After(p) == After(Upper(p))
      ensures TopNode(t).parent == Holder(p, root)
    {
      TopInNodes(t);
      TopInNodes(Sibling(p));
      HolderInPath(p, root);
    }

    /** A subtree that has just lost one level, below factors that still speak
        of the height before. */
    static ghost predicate ShrunkIn(p: Path, t: Tree) {
      Avl(t) && AvlPath(p, Height(t) + 1)
    }

    /** The three cases of a left subtree that has shrunk. */
    static lemma ShrunkLeft(p: Path, t: Tree)
      requires p.InLeft? && ShrunkIn(p, t) && PathGones(p) == {}
      ensures var w := Bigger(p, t);
        && w == Br(t, p.e, p.b, p.r) && -1 <= p.b <= 1
        && (p.b == -1 ==> ShrunkIn(p.up, w.(b := 0)))
        && (p.b == 0 ==> Avl(w.(b := 1)) && AvlPath(p.up, Height(w.(b := 1))))
        && (p.b == 1 ==>
          Avl(w.l) && Avl(w.r) && Height(w.r) == Height(w.l) + 2 && Gones(w.r) == {} && AvlPath(p.up, Height(w)))
    {
    }

    static lemma ShrunkRight(p: Path, t: Tree)
      requires p.InRight? && ShrunkIn(p, t) && PathGones(p) == {}
      ensures var w := Bigger(p, t);
        && w == Br(p.l, p.e, p.b, t) && -1 <= p.b <= 1
        && (p.b == 1 ==> ShrunkIn(p.up, w.(b := 0)))
        && (p.b == 0 ==> Avl(w.(b := -1)) && AvlPath(p.up, Height(w.(b := -1))))
        && (p.b == -1 ==>
          Avl(w.l) && Avl(w.r) && Height(w.l) == Height(w.r) + 2 && Gones(w.l) == {} && AvlPath(p.up, Height(w)))
    {
    }

    lemma FactorAt(p: Path, t: Tree)
      requires Fits(p, t, root) && t.Br?
      ensures t.e.node.balance == t.b && t.e.node.parent == Holder(p, root)
    {
    }

    lemma EndShrink(p: Path, t: Tree)
      requires Fits(p, t, root) && Apart(p, t, root) && t != Nil
      ensures ShrunkIn(p, t) && TopNode(t) == root.left ==> Avl(t) && AvlPath(p, Height(t))
    {
      AtRoot(p, t);
    }

    /** The walk of `Remove` back up, with the target still linked in. */
    method RebalanceRemove(target: Node, ghost hole: Path, ghost shrunk: Tree) returns (ghost t: Tree)
      requires Fits(hole, shrunk, root) && Apart(hole, shrunk, root) && target == TopNode(shrunk)
      requires ShrunkIn(hole, shrunk) && PathGones(hole) == {}
      modifies root, Nodes(shrunk), PathNodes(hole)
      ensures Fits(Top, t, root) && SameButShape(Plug(hole, shrunk), t) && Avl(t)
      ensures root.right == old(root.right)
    {
      hide Rep; hide RepPath; hide Nodes; hide PathNodes; hide Distinct; hide DistinctPath; hide Entries; hide Plug;
      hide Fits; hide Apart; hide SameButShape; hide Avl; hide AvlPath; hide Height; hide ShrunkIn; hide Gones;
      hide PathGones; hide DeleteLeft; hide DeleteRight;
      ghost var all, t0 := Nodes(shrunk) + PathNodes(hole), Plug(hole, shrunk);
      ghost var path, cur := hole, shrunk;
      var current, parent := target, target.parent;
      StartShrink(path, cur);
      while current != root.left
        invariant Fits(path, cur, root) && Apart(path, cur, root) && SameButShape(t0, Plug(path, cur))
        invariant Nodes(cur) + PathNodes(path) == all && cur != Nil
        invariant current == TopNode(cur) && parent == Holder(path, root)
        invariant ShrunkIn(path, cur) && PathGones(path) == {}
        invariant root.right == old(root.right)
        decreases path
      {
        AtRoot(path, cur);
        StepUp(path, cur, root);
        ghost var up, w := Upper(path), Bigger(path, cur);
        AroundHole(path, cur, root);
        if current == parent.left {
          ShrunkLeft(path, cur);
          if parent.balance == -1 {
            SameFactor(w, 0);
            Carry(t0, path, cur, w.(b := 0), root);
            cur := SetFactor(parent, 0, path, cur, root);
            path := up;
          } else if parent.balance == 0 {
            SameFactor(w, 1);
            Carry(t0, path, cur, w.(b := 1), root);
            cur := SetFactor(parent, 1, path, cur, root);
            path := up;
            break; // as high as before
          } else if parent.balance == 1 {
            DeleteRightRestores(w);
            Carry(t0, path, cur, DeleteRight(w), root);
            parent := RepairDeleteRight(parent, up, w, root);
            cur := DeleteRight(w);
            path := up;
            FactorAt(path, cur);
            Settled(path, cur, w);
            if parent.balance == -1 {
              break; // as high as before
            }
          }
        } else {
          ShrunkRight(path, cur);
          if parent.balance == 1 {
            SameFactor(w, 0);
            Carry(t0, path, cur, w.(b := 0), root);
            cur := SetFactor(parent, 0, path, cur, root);
            path := up;
          } else if parent.balance == 0 {
            SameFactor(w, -1);
            Carry(t0, path, cur, w.(b := -1), root);
            cur := SetFactor(parent, -1, path, cur, root);
            path := up;
            break; // as high as before
          } else if parent.balance == -1 {
            DeleteLeftRestores(w);
            Carry(t0, path, cur, DeleteLeft(w), root);
            parent := RepairDeleteLeft(parent, up, w, root);
            cur := DeleteLeft(w);
            path := up;
            FactorAt(path, cur);
            Settled(path, cur, w);
            if parent.balance == 1 {
              break; // as high as before
            }
          }
        }
        current := parent;
        parent := current.parent;
      }
      EndShrink(path, cur);
      PlugAvl(path, cur);
      PlugFits(path, cur, root);
      t := Plug(path, cur);
    }

    lemma StartShrink(p: Path, t: Tree)
      requires Fits(p, t, root) && TopNode(t) != null
      ensures SameButShape(Plug(p, t), Plug(p, t)) && t != Nil && TopNode(t).parent == Holder(p, root)
    {
    }

    /** After a rotation either the height is what the path expects, or it is
        one less. */
    static lemma Settled(p: Path, u: Tree, w: Tree)
      requires AvlPath(p, Height(w)) && Avl(u)
      ensures Height(u) == Height(w) - 1 ==> ShrunkIn(p, u)
      ensures Height(u) == Height(w) ==> AvlPath(p, Height(u))
    {
    }

    /** The value side of taking out a node with at most one child. */
    static lemma Dropped(p: Path, t: Tree, x: Tree)
      requires t.Br? && (t.l == Nil || t.r == Nil) && Sorted(Entries(Plug(p, t)))
      requires Entries(x) == Entries(Plug(p, Gone(t.e.node, if t.l == Nil then t.r else t.l)))
      ensures var s, s' := Entries(Plug(p, t)), Entries(x);
        && Sorted(s') && ToMap(s') == ToMap(s) - {t.e.key} && t.e.key in ToMap(s) && |s'| == |s| - 1
        && Least(s') == if Least(s) == t.e.node
        && Before(p) + Entries(t.l) == [] then Least(Entries(t.r) + After(p)) else Least(s)
    {
      hide Sorted; hide ToMap; hide Before; hide After; hide Distinct; hide Nodes; hide Gones;
      var g := Gone(t.e.node, if t.l == Nil then t.r else t.l);
      PlugEntries(p, t); PlugEntries(p, g);
      EntriesOf(t);
      var a, c := Before(p) + Entries(t.l), Entries(t.r) + After(p);
      assert Entries(Plug(p, t)) == a + [t.e] + c;
      assert Entries(x) == a + c;
      SortedParts(a, t.e, c);
      MapInsert(a, t.e, c);
      if a != [] {
        assert (a + c)[0] == a[0] && (a + [t.e] + c)[0] == a[0];
      } else {
        assert a + c == c && (a + [t.e] + c)[0] == t.e;
      }
    }

    /** Only the first entry has nothing before it. */
    lemma MinIsFirst(p: Path, t: Tree)
      requires Valid() && Plug(p, t) == tree && t.Br? && Fits(p, t, root)
      ensures t.e.node == min <==> Before(p) + Entries(t.l) == []
    {
      hide Rep; hide RepPath; hide Before; hide After; hide Nodes; hide PathNodes; hide Distinct; hide Gones;
      hide Avl; hide Fits; hide Plug; hide Sorted;
      PlugEntries(p, t);
      EntriesOf(t);
      var a, c := Before(p) + Entries(t.l), Entries(t.r) + After(p);
      assert Entries(tree) == a + [t.e] + c;
      LeastKey();
      SortedParts(a, t.e, c);
      HeldAt(p, t);
      if a != [] {
        assert Entries(tree)[0] == a[0];
      } else {
        assert Entries(tree)[0] == t.e;
      }
    }

    /** The value side of removing a node with two children: it takes over the
        entry of its successor, whose node goes. */
    static lemma Replaced(p: Path, t: Tree, spine: Path, leaf: Tree, x: Tree)
      requires t.Br? && leaf.Br? && leaf.l == Nil && Plug(spine, leaf) == t.r && Before(spine) == []
        && t.l != Nil && Gones(t.l) == {}
      requires Sorted(Entries(Plug(p, t)))
      requires Entries(x) ==
        Entries(Plug(Append(InRight(p, t.l, Entry(t.e.node, leaf.e.key, leaf.e.data), t.b), spine),
                     Gone(leaf.e.node, leaf.r)))
      ensures var s, s' := Entries(Plug(p, t)), Entries(x);
        && Sorted(s') && ToMap(s') == ToMap(s) - {t.e.key} && t.e.key in ToMap(s) && |s'| == |s| - 1
        && Least(s') == Least(s)
    {
      hide Sorted; hide ToMap; hide Distinct; hide Nodes; hide Append; hide Plug; hide Gones; hide After; hide Before;
      var e' := Entry(t.e.node, leaf.e.key, leaf.e.data);
      var q, g := Append(InRight(p, t.l, e', t.b), spine), Gone(leaf.e.node, leaf.r);
      PlugEntries(p, t); PlugEntries(q, g); PlugEntries(spine, leaf);
      EntriesOf(t); EntriesOf(leaf);
      AppendPath(InRight(p, t.l, e', t.b), spine, g);
      OneStepDown(p, t.l, e', t.b);
      Spread(Before(p), Entries(t.l), t.e, leaf.e, e', Entries(leaf.r), After(spine), After(p));
      var a, c := Before(p) + Entries(t.l), Entries(leaf.r) + After(spine) + After(p);
      MapReplace(a, t.e, leaf.e, e', c);
      HasEntries(t.l);
      assert (a + [t.e] + ([leaf.e] + c))[0] == a[0] && (a + [e'] + c)[0] == a[0];
    }

    static lemma OneStepDown(p: Path, l: Tree, e: Entry, b: int)
      ensures Before(InRight(p, l, e, b)) == Before(p) + Entries(l) + [e] && After(InRight(p, l, e, b)) == After(p)
    {
    }

    static lemma Spread(b: seq<Entry>, l: seq<Entry>, e: Entry, f: Entry, f': Entry, r: seq<Entry>,
            s: seq<Entry>, a: seq<Entry>)
      ensures b + (l + [e] + ([] + ([] + [f] + r) + s)) + a == (b + l) + [e] + ([f] + (r + s + a))
      ensures (b + l + [f'] + []) + r + (s + a) == (b + l) + [f'] + (r + s + a)
    {
    }

    static lemma HasEntries(t: Tree)
      requires t != Nil && Gones(t) == {}
      ensures Entries(t) != []
    {
    }

    /** The target with its at most one child, taken for removed. */
    lemma Doomed(p: Path, t: Tree, x: Tree)
      requires Avl(Plug(p, t)) && Gones(Plug(p, t)) == {} && t.Br? && (t.l == Nil || t.r == Nil)
      requires Fits(p, t, root) && Apart(p, t, root) && x == Gone(t.e.node, if t.l == Nil then t.r else t.l)
      ensures Fits(p, x, root) && Apart(p, x, root) && ShrunkIn(p, x) && PathGones(p) == {} && Gones(x) == {t.e.node}
      ensures Nodes(x) + PathNodes(p) == Nodes(Plug(p, t))
    {
      hide Rep; hide RepPath; hide Distinct; hide DistinctPath; hide Fits; hide Apart;
      PlugAvl(p, t);
      PlugNodes(p, t);
      Bury(p, t, root);
    }

    /** `Key` and `Data` of the node and of its successor change places. */
    method SwapOut(node: Node, target: Node, ghost p: Path, ghost t: Tree, ghost spine: Path, ghost leaf: Tree)
      returns (ghost q: Path, ghost low: Tree)
      requires Plug(p, t) == tree && Nodes(tree) == repr && Distinct(tree) && Avl(tree) && Gones(tree) == {}
      requires Fits(p, t, root) && Apart(p, t, root) && t.Br? && node == t.e.node
      requires leaf.Br? && leaf.l == Nil && target == leaf.e.node && Plug(spine, leaf) == t.r
      modifies repr`key, repr`data
      ensures q == Append(InRight(p, t.l, Entry(node, leaf.e.key, leaf.e.data), t.b), spine)
      ensures low.Br? && low.l == Nil && low.r == leaf.r && low.e.node == target
      ensures Fits(q, low, root) && Apart(q, low, root) && Avl(Plug(q, low)) && Gones(Plug(q, low)) == {}
        && Nodes(Plug(q, low)) == repr
    {
      hide Rep; hide RepPath; hide Nodes; hide PathNodes; hide Distinct; hide DistinctPath; hide Entries; hide Plug;
      hide Before; hide After;
      hide Avl; hide Sorted; hide Gones; hide ToMap; hide Height; hide GrownIn; hide PathGones; hide AllAbove;
      hide AllBelow; hide Fits; hide Apart; hide SameButShape;
      InsidePlug(p, t);
      InsidePlug(spine, leaf);
      OpenTree(t);
      HeldBelow(p, t, spine, leaf);
      var k, d := node.key, node.data;
      ghost var e' := Entry(node, target.key, target.data);
      ghost var u := t.(e := e');
      UpdatedShape(p, t, e');
      SetPayload(node, target.key, target.data, p, t, root);
      ghost var base := InRight(p, t.l, e', t.b);
      q := Append(base, spine);
      AppendPath(base, spine, leaf);
      StepUp(base, t.r, root);
      PlugFits(p, u, root);
      PlugFits(q, leaf, root);
      PlugApart(p, u);
      PlugApart(q, leaf);
      low := leaf.(e := Entry(target, k, d));
      UpdatedShape(q, leaf, low.e);
      InsidePlug(q, leaf);
      SetPayload(target, k, d, q, leaf, root);
    }

    lemma InsidePlug(p: Path, t: Tree)
      ensures Nodes(t) <= Nodes(Plug(p, t)) && PathNodes(p) <= Nodes(Plug(p, t))
      ensures t.Br? ==> t.e.node in Nodes(t)
    {
      PlugNodes(p, t);
    }

    lemma PlugApart(p: Path, t: Tree)
      ensures Apart(p, t, root) <==> Distinct(Plug(p, t)) && root !in Nodes(Plug(p, t))
    {
      PlugNodes(p, t);
    }

    lemma HeldBelow(p: Path, t: Tree, spine: Path, leaf: Tree)
      requires Fits(p, t, root) && t.Br? && leaf.Br? && Plug(spine, leaf) == t.r
      ensures leaf.e.node.key == leaf.e.key && leaf.e.node.data == leaf.e.data
      ensures t.e.node.key == t.e.key && t.e.node.data == t.e.data
    {
      HeldAt(p, t);
      HeldIn(spine, leaf);
    }

    static lemma HeldIn(p: Path, t: Tree)
      requires Rep(Plug(p, t)) && t.Br?
      ensures t.e.node.key == t.e.key && t.e.node.data == t.e.data
    {
      PlugEntries(p, t);
      EntriesOf(t);
      EntriesHeld(Plug(p, t));
      assert t.e in Entries(Plug(p, t)) by {
        assert Entries(Plug(p, t)) == (Before(p) + Entries(t.l)) + [t.e] + (Entries(t.r) + After(p));
      }
    }

    /** A removed node stands somewhere in the tree. */
    static lemma Locate(t: Tree, x: Node) returns (p: Path, c: Tree)
      requires Gones(t) == {x}
      ensures Plug(p, Gone(x, c)) == t
      ensures Distinct(t) ==> Gones(Plug(p, c)) == {}
      ensures Entries(Plug(p, c)) == Entries(t) && (Avl(t) ==> Avl(Plug(p, c)))
      ensures Distinct(t) ==> Distinct(Plug(p, c)) && Nodes(Plug(p, c)) == Nodes(t) - {x}
    {
      p, c := LocateAt(Top, t, x);
      PlugEntries(p, c); PlugEntries(p, Gone(x, c));
      PlugAvl(p, c); PlugAvl(p, Gone(x, c));
      PlugNodes(p, c); PlugNodes(p, Gone(x, c));
      GonesInside(c); PathGonesInside(p);
    }

    static lemma GonesInside(t: Tree)
      ensures Gones(t) <= Nodes(t)
    {
    }

    static lemma PathGonesInside(p: Path)
      ensures PathGones(p) <= PathNodes(p)
    {
      match p
      case Top =>
      case InLeft(up, _, _, r) => PathGonesInside(up); GonesInside(r);
      case InRight(up, l, _, _) => PathGonesInside(up); GonesInside(l);
    }

    static lemma {:induction false} LocateAt(p: Path, t: Tree, x: Node) returns (q: Path, c: Tree)
      requires Gones(t) == {x}
      ensures Plug(q, Gone(x, c)) == Plug(p, t)
      decreases t
    {
      match t
      case Br(l, e, b, r) =>
        if x in Gones(l) {
          assert Gones(l) == {x};
          q, c := LocateAt(InLeft(p, e, b, r), l, x);
        } else {
          assert Gones(r) == {x};
          q, c := LocateAt(InRight(p, l, e, b), r, x);
        }
      case Gone(y, rest) =>
        q, c := p, rest;
    }

    /** Rebalance above the target, then unlink it. */
    method TakeOut(target: Node, ghost q: Path, ghost low: Tree) returns (ghost t: Tree)
      requires Fits(q, low, root) && Apart(q, low, root) && root.right == null
      requires low.Br? && (low.l == Nil || low.r == Nil) && target == low.e.node
      requires Avl(Plug(q, low)) && Gones(Plug(q, low)) == {} && Nodes(Plug(q, low)) == repr
      modifies root, repr
      ensures Fits(Top, t, root) && root.right == null && Distinct(t) && Avl(t) && Gones(t) == {}
      ensures Nodes(t) == repr - {target} && repr == old(repr)
      ensures Entries(t) == Entries(Plug(q, Gone(target, if low.l == Nil then low.r else low.l)))
    {
      hide Rep; hide RepPath; hide Nodes; hide PathNodes; hide Distinct; hide DistinctPath; hide Entries; hide Plug;
      hide Before; hide After;
      hide Avl; hide Sorted; hide Gones; hide ToMap; hide Height; hide GrownIn; hide PathGones; hide AllAbove;
      hide AllBelow; hide Fits; hide Apart;
      ghost var g := Gone(target, if low.l == Nil then low.r else low.l);
      Doomed(q, low, g);
      InsidePlug(q, low);
      ghost var t1 := RebalanceRemove(target, q, g);
      PlugApart(q, g);
      PlugNodes(q, g);
      ghost var p, c := Locate(t1, target);
      PlugFits(p, Gone(target, c), root);
      PlugApart(p, Gone(target, c));
      ParentOf(p, Gone(target, c));
      InsidePlug(p, Gone(target, c));
      HolderInPath(p, root);
      TopInNodes(c);
      OpenGone(target, c);
      Unlink(target, p, c, root);
      PlugFits(p, c, root);
      t := Plug(p, c);
    }

    lemma ParentOf(p: Path, t: Tree)
      requires Fits(p, t, root) && t != Nil
      ensures TopNode(t) != null && TopNode(t).parent == Holder(p, root)
    {
      TopInNodes(t);
    }

    /** A failed search means the key is not there. */
    lemma Absent(p: Path, key: int)
      requires Valid() && Plug(p, Nil) == tree && AllBelow(Before(p), key) && AllAbove(After(p), key)
      ensures key !in Contents()
    {
      PlugEntries(p, Nil);
      assert Entries(tree) == Before(p) + After(p);
      MapMissing(Before(p), After(p), key);
    }

    method Remove(key: int) returns (found: bool)
      requires Valid()
      modifies this, root, repr
      ensures Valid() && repr <= old(repr)
      ensures found <==> key in old(Contents())
      ensures Contents() == old(Contents()) - {key}
    {
      hide Rep; hide RepPath; hide Nodes; hide PathNodes; hide Distinct; hide DistinctPath; hide Entries; hide Plug;
      hide Before; hide After;
      hide Avl; hide Sorted; hide Gones; hide ToMap; hide Height; hide GrownIn; hide PathGones; hide AllAbove;
      hide AllBelow; hide Fits; hide Apart; hide SameButShape;
      var node, _, _, path, sub, _ := Search(key);
      if node == null {
        Absent(path, key);
        return false;
      }
      NodeAt(path, sub);
      if node.left == null || node.right == null {
        MinIsFirst(path, sub);
        if node == min {
          var next, _, _ := Successor(node, path, sub);
          min := next;
        }
        NotANode(path, sub);
        ghost var t := TakeOut(node, path, sub);
        Dropped(path, sub, t);
        NotANode(Top, t);
        tree := t;
        repr := repr - {node};
      } else {
        var target, spine, leaf := Successor(node, path, sub);
        ghost var q, low := SwapOut(node, target, path, sub, spine, leaf);
        ghost var t := TakeOut(target, q, low);
        Replaced(path, sub, spine, leaf, t);
        NotANode(Top, t);
        tree := t;
        repr := repr - {target};
      }
      count := count - 1;
      return true;
    }

    lemma NodeAt(p: Path, t: Tree)
      requires Valid() && Plug(p, t) == tree && Fits(p, t, root) && t.Br?
      ensures t.e.node.left == null <==> t.l == Nil
      ensures t.e.node.right == null <==> t.r == Nil
      ensures Gones(t) == {} && Gones(t.l) == {} && t.e.node in repr
    {
      PlugNodes(p, t);
      OpenTree(t);
      TopInNodes(t.l); TopInNodes(t.r);
    }

    /** Logarithmic search: at most `steps` levels are descended, and two to the
        power of `steps` is at most the square of one more than the count. */
    method FindNode(key: int) returns (node: Node?, ghost steps: nat)
      requires Valid()
      ensures node != null <==> key in Contents()
      ensures node != null ==> node in repr && node.key == key && node.data == Contents()[key]
      ensures Pow2(steps) <= (count + 1) * (count + 1) && Fib(steps + 2) <= count + 1
    {
      hide Rep; hide RepPath; hide Nodes; hide PathNodes; hide Distinct; hide DistinctPath; hide Plug; hide Entries;
      hide Avl; hide Sorted; hide Gones; hide ToMap; hide Height; hide AllAbove; hide AllBelow; hide Fits; hide Apart;
      hide Fib; hide Pow2;
      var n, _, _, path, sub, s := Search(key);
      node, steps := n, s;
      Steps(steps);
      if node == null {
        Absent(path, key);
      } else {
        Present(path, sub);
      }
    }

    lemma Steps(steps: nat)
      requires Valid() && steps <= Height(tree)
      ensures Pow2(steps) <= (count + 1) * (count + 1) && Fib(steps + 2) <= count + 1
    {
      FibBound(tree);
      FibMonotone(steps + 2, Height(tree) + 2);
      FibSquare(steps);
      Square(Fib(steps + 2), count + 1);
    }

    lemma Present(p: Path, t: Tree)
      requires Valid() && Plug(p, t) == tree && t.Br? && Fits(p, t, root)
      ensures t.e.key in Contents() && Contents()[t.e.key] == t.e.data
      ensures t.e.node.key == t.e.key && t.e.node.data == t.e.data
    {
      hide Rep; hide RepPath; hide Before; hide After; hide Nodes; hide PathNodes; hide Distinct; hide Gones;
      hide Avl; hide Fits; hide Plug; hide Sorted; hide ToMap;
      HeldAt(p, t);
      PlugEntries(p, t);
      EntriesOf(t);
      var a, c := Before(p) + Entries(t.l), Entries(t.r) + After(p);
      assert Entries(tree) == a + [t.e] + c;
      MapInsert(a, t.e, c);
    }

    /** The data of the key, if it has any. */
    method Find(key: int) returns (data: Data)
      requires Valid()
      ensures data == if key in Contents() then Contents()[key] else NO_DATA
    {
      var node, _ := FindNode(key);
      data := if node != null then node.data else NO_DATA;
    }

    /** The cached minimum is the data of the least key. */
    method Min() returns (data: Data)
      requires Valid()
      ensures Contents() == map[] ==> data == NO_DATA
      ensures Contents() != map[] ==>
        exists k :: k in Contents() && Contents()[k] == data && forall j :: j in Contents() ==> k <= j
    {
      hide Rep; hide RepPath; hide Nodes; hide Distinct; hide Entries; hide Avl; hide Gones; hide ToMap; hide Height;
      hide Fits; hide Plug;
      LeastKey();
      LeastData();
      data := if min != null then min.data else NO_DATA;
    }

    lemma LeastData()
      requires Valid()
      ensures Entries(tree) == [] <==> Contents() == map[]
      ensures Entries(tree) != [] ==>
        var k := Entries(tree)[0].key;
        k in Contents() && Contents()[k] == Entries(tree)[0].data && forall j :: j in Contents() ==> k <= j
    {
      hide Rep; hide Entries;
      MapOf(Entries(tree));
    }

    method Count() returns (n: nat)
      requires Valid()
      ensures n == |Contents()|
    {
      hide Rep; hide Entries; hide ToMap;
      MapOf(Entries(tree));
      n := count;
    }

    /** The repository's own consistency check, on any linked tree: it answers
        with the height, or with a negative number exactly when some stored
        balance factor is wrong or out of range. */
    static method CheckHeight(node: Node?, ghost t: Tree) returns (h: int)
      requires Rep(t) && node == TopNode(t) && Gones(t) == {}
      ensures h >= 0 <==> Avl(t)
      ensures h >= 0 ==> h == Height(t)
      decreases t
    {
      hide Rep; hide Nodes; hide Distinct;
      TopInNodes(t);
      if node == null {
        return 0;
      }
      OpenTree(t);
      TopInNodes(t.l);
      TopInNodes(t.r);
      assert allocated(Nodes(t.l)) && allocated(Nodes(t.r));
      var lh := CheckHeight(node.left, t.l);
      if lh < 0 {
        return lh;
      }
      var rh := CheckHeight(node.right, t.r);
      if rh < 0 {
        return rh;
      }
      var cmp := rh - lh;
      if cmp < -1 || cmp > 1 || cmp != node.balance {
        return -1;
      }
      return 1 + (if lh > rh then lh else rh);
    }

    method GetHeight() returns (h: int)
      requires Valid()
      ensures h == Height(tree) >= 0
    {
      SearchStart(0);
      h := CheckHeight(root.left, tree);
    }
  }
}
