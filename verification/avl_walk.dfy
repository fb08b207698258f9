/** The steps of the walks that `Insert` and `Remove` take through the tree
    (work/AVLTree.h), each stated for a tree in the hole of a path. */
module AvlWalk {
  import opened AvlShape
  import opened AvlRotate

  /** All nodes are in different places and the sentinel is none of them. */
  ghost predicate Apart(p: Path, t: Tree, root: Node) {
    Distinct(t) && DistinctPath(p) && Nodes(t) !! PathNodes(p) && root !in Nodes(t) && root !in PathNodes(p)
  }

  ghost function Bigger(p: Path, t: Tree): Tree
    requires p != Top
  {
    match p
    case InLeft(_, e, b, r) => Br(t, e, b, r)
    case InRight(_, l, e, b) => Br(l, e, b, t)
  }

  /** Moving the hole up by one. */
  lemma StepUp(p: Path, t: Tree, root: Node)
    requires p != Top
    ensures Fits(p, t, root) <==> Fits(Upper(p), Bigger(p, t), root)
    ensures Apart(p, t, root) <==> Apart(Upper(p), Bigger(p, t), root)
    ensures Plug(p, t) == Plug(Upper(p), Bigger(p, t))
    ensures TopNode(Bigger(p, t)) == Holder(p, root)
  {
  }

  /** Taking the hole's content away leaves the parts of the path that the
      holder's pointer does not touch. */
  lemma Hinge(p: Path, t: Tree, root: Node)
    requires Fits(p, t, root) && Apart(p, t, root)
    ensures Rep(Sibling(p)) && RepPath(Upper(p), root) && Rep(t)
    ensures Holder(p, root) !in Nodes(t) && Holder(p, root) !in Nodes(Sibling(p))
      && Holder(p, root) !in PathNodes(Upper(p))
    ensures Nodes(Sibling(p)) + PathNodes(Upper(p)) <= PathNodes(p) && Nodes(t) !! PathNodes(p)
    ensures t != Nil ==> TopNode(t) != null && TopNode(t).parent == Holder(p, root)
    ensures Hole(p, root) == TopNode(t)
    ensures p != Top ==> Holder(p, root) != root
  {
    PathParts(p, root);
    HolderInPath(p, root);
    TopInNodes(t);
  }

  /** Putting another tree in the hole. */
  lemma Unhinge(p: Path, u: Tree, root: Node)
    requires Rep(u) && RepPath(p, root)
    requires u != Nil ==> TopNode(u) != null && TopNode(u).parent == Holder(p, root)
    requires Hole(p, root) == TopNode(u)
    ensures Fits(p, u, root)
  {
    TopInNodes(u);
  }

  /** `node->Balance = b` for the holder of the hole. */
  method SetFactor(x: Node, b: int, ghost p: Path, ghost t: Tree, ghost root: Node) returns (ghost u: Tree)
    requires Fits(p, t, root) && Apart(p, t, root) && p != Top && x == Holder(p, root)
    modifies x`balance
    ensures u == (if p.InLeft? then Br(t, p.e, b, p.r) else Br(p.l, p.e, b, t))
    ensures Fits(Upper(p), u, root)
  {
    hide Rep; hide RepPath; hide Nodes; hide PathNodes; hide Distinct; hide DistinctPath;
    Hinge(p, t, root);
    StepUp(p, t, root);
    ghost var w := Bigger(p, t);
    OpenTree(w);
    ghost var up, s := Upper(p), Sibling(p);
    Hinge(up, w, root);
    HolderInPath(up, root);
    assert allocated(Nodes(t)) && allocated(Nodes(s)) && allocated(PathNodes(up));
    x.balance := b;
    u := if p.InLeft? then Br(t, p.e, b, p.r) else Br(p.l, p.e, b, t);
    assert Rep(t) && Rep(s);
    OpenTree(u);
    Unhinge(up, u, root);
  }

  /** One step of `RepPath`. */
  lemma OpenPath(p: Path, root: Node)
    ensures p == Top ==> RepPath(p, root)
    ensures p.InLeft? ==> (RepPath(p, root) <==>
      Holds(p.e, p.b) && Child(p.e.node, p.r, p.e.node.right) && Rep(p.r)
      && p.e.node.parent == Holder(p.up, root) && Hole(p.up, root) == p.e.node && RepPath(p.up, root))
    ensures p.InRight? ==> (RepPath(p, root) <==>
      Holds(p.e, p.b) && Child(p.e.node, p.l, p.e.node.left) && Rep(p.l)
      && p.e.node.parent == Holder(p.up, root) && Hole(p.up, root) == p.e.node && RepPath(p.up, root))
  {
  }

  method RepairInsertLeft(node: Node, ghost p: Path, ghost t: Tree, ghost root: Node)
    requires Fits(p, t, root) && Apart(p, t, root)
    requires t.Br? && t.l.Br? && (t.l.b != t.b ==> t.l.r.Br?) && node == t.e.node
    modifies Holder(p, root)`left, Holder(p, root)`right, Nodes(t)
    ensures Fits(p, InsertLeft(t), root)
    ensures root.right == old(root.right)
  {
    hide Rep; hide RepPath; hide Nodes; hide PathNodes; hide Distinct; hide DistinctPath;
    Hinge(p, t, root);
    OpenPath(p, root);
    HolderInPath(p, root);
    ghost var s, up := Sibling(p), Upper(p);
    TopInNodes(s); TopInNodes(t);
    HolderInPath(up, root);
    assert allocated(Nodes(s)) && allocated(PathNodes(up));
    ghost var top := FixInsertLeftImbalance(node, t, Holder(p, root));
    assert Rep(s);
    assert p != Top ==> RepPath(up, root);
    OpenPath(p, root);
    Unhinge(p, InsertLeft(t), root);
  }

  method RepairInsertRight(node: Node, ghost p: Path, ghost t: Tree, ghost root: Node)
    requires Fits(p, t, root) && Apart(p, t, root)
    requires t.Br? && t.r.Br? && (t.r.b != t.b ==> t.r.l.Br?) && node == t.e.node
    modifies Holder(p, root)`right, Holder(p, root)`left, Nodes(t)
    ensures Fits(p, InsertRight(t), root)
    ensures root.right == old(root.right)
  {
    hide Rep; hide RepPath; hide Nodes; hide PathNodes; hide Distinct; hide DistinctPath;
    Hinge(p, t, root);
    OpenPath(p, root);
    HolderInPath(p, root);
    ghost var s, up := Sibling(p), Upper(p);
    TopInNodes(s); TopInNodes(t);
    HolderInPath(up, root);
    assert allocated(Nodes(s)) && allocated(PathNodes(up));
    ghost var top := FixInsertRightImbalance(node, t, Holder(p, root));
    assert Rep(s);
    assert p != Top ==> RepPath(up, root);
    OpenPath(p, root);
    Unhinge(p, InsertRight(t), root);
  }

  method RepairDeleteLeft(node: Node, ghost p: Path, ghost t: Tree, ghost root: Node) returns (top: Node)
    requires Fits(p, t, root) && Apart(p, t, root)
    requires t.Br? && t.l.Br? && (t.l.b == 1 ==> t.l.r.Br?) && -1 <= t.l.b <= 1 && node == t.e.node
    modifies Holder(p, root)`left, Holder(p, root)`right, Nodes(t)
    ensures top == DeleteLeft(t).e.node && Fits(p, DeleteLeft(t), root)
    ensures root.right == old(root.right)
  {
    hide Rep; hide RepPath; hide Nodes; hide PathNodes; hide Distinct; hide DistinctPath;
    Hinge(p, t, root);
    OpenPath(p, root);
    HolderInPath(p, root);
    ghost var s, up := Sibling(p), Upper(p);
    TopInNodes(s); TopInNodes(t);
    HolderInPath(up, root);
    assert allocated(Nodes(s)) && allocated(PathNodes(up));
    top := FixDeleteLeftImbalance(node, t, Holder(p, root));
    assert Rep(s);
    assert p != Top ==> RepPath(up, root);
    OpenPath(p, root);
    Unhinge(p, DeleteLeft(t), root);
  }

  method RepairDeleteRight(node: Node, ghost p: Path, ghost t: Tree, ghost root: Node) returns (top: Node)
    requires Fits(p, t, root) && Apart(p, t, root)
    requires t.Br? && t.r.Br? && (t.r.b == -1 ==> t.r.l.Br?) && -1 <= t.r.b <= 1 && node == t.e.node
    modifies Holder(p, root)`right, Holder(p, root)`left, Nodes(t)
    ensures top == DeleteRight(t).e.node && Fits(p, DeleteRight(t), root)
    ensures root.right == old(root.right)
  {
    hide Rep; hide RepPath; hide Nodes; hide PathNodes; hide Distinct; hide DistinctPath;
    Hinge(p, t, root);
    OpenPath(p, root);
    HolderInPath(p, root);
    ghost var s, up := Sibling(p), Upper(p);
    TopInNodes(s); TopInNodes(t);
    HolderInPath(up, root);
    assert allocated(Nodes(s)) && allocated(PathNodes(up));
    top := FixDeleteRightImbalance(node, t, Holder(p, root));
    assert Rep(s);
    assert p != Top ==> RepPath(up, root);
    OpenPath(p, root);
    Unhinge(p, DeleteRight(t), root);
  }

  /** Overwriting key and data of the node in the hole. */
  method SetPayload(x: Node, k: int, d: Data, ghost p: Path, ghost t: Tree, ghost root: Node)
    requires Fits(p, t, root) && Apart(p, t, root) && t.Br? && x == t.e.node
    modifies x`key, x`data
    ensures Fits(p, t.(e := Entry(x, k, d)), root) && Apart(p, t.(e := Entry(x, k, d)), root)
  {
    hide Rep; hide RepPath; hide Nodes; hide PathNodes; hide Distinct; hide DistinctPath;
    Hinge(p, t, root);
    OpenTree(t);
    TopInNodes(t); HolderInPath(p, root);
    assert allocated(Nodes(t.l)) && allocated(Nodes(t.r)) && allocated(PathNodes(p));
    x.key := k;
    x.data := d;
    assert Rep(t.l) && Rep(t.r) && RepPath(p, root);
    ghost var u := t.(e := Entry(x, k, d));
    OpenTree(u);
    Unhinge(p, u, root);
  }

  /** Hanging a new node in an empty hole, on the side that the last
      comparison chose. */
  method Link(x: Node, h: Node, cmp: int, root: Node, ghost p: Path) returns (ghost u: Tree)
    requires Fits(p, Nil, root) && Apart(p, Nil, root) && h == Holder(p, root)
    requires (p.InLeft? ==> cmp < 0) && (p.InRight? ==> cmp > 0)
    requires x !in PathNodes(p) && x != root && x.parent == h && x.left == null && x.right == null && x.balance == 0
    modifies h`left, h`right
    ensures u == Br(Nil, Entry(x, x.key, x.data), 0, Nil) && Fits(p, u, root) && Apart(p, u, root)
    ensures root.right == old(root.right)
  {
    hide Rep; hide RepPath; hide PathNodes; hide DistinctPath;
    Hinge(p, Nil, root);
    OpenPath(p, root);
    HolderInPath(p, root);
    ghost var s, up := Sibling(p), Upper(p);
    TopInNodes(s);
    HolderInPath(up, root);
    assert allocated(Nodes(s)) && allocated(PathNodes(up));
    u := Br(Nil, Entry(x, x.key, x.data), 0, Nil);
    RepNil();
    OpenTree(u);
    if h == root || cmp < 0 {
      h.left := x;
    } else {
      h.right := x;
    }
    assert Rep(s);
    assert p != Top ==> RepPath(up, root);
    OpenTree(u);
    OpenPath(p, root);
    Unhinge(p, u, root);
  }

  lemma RepNil()
    ensures Rep(Nil) && Nodes(Nil) == {}
  {
  }

  /** A node with at most one child may be taken for removed. */
  lemma Bury(p: Path, t: Tree, root: Node)
    requires Fits(p, t, root) && Apart(p, t, root) && t.Br? && (t.l == Nil || t.r == Nil)
    ensures var g := Gone(t.e.node, if t.l == Nil then t.r else t.l);
      && Fits(p, g, root) && Apart(p, g, root) && Nodes(g) == Nodes(t)
      && (Avl(t) ==> Avl(g) && Height(t) == Height(g) + 1)
  {
    OpenTree(t);
    TopInNodes(t.l); TopInNodes(t.r);
  }

  /** The last part of `Remove`: the child of the removed node, if any, takes
      its place. */
  method Unlink(target: Node, ghost p: Path, ghost c: Tree, ghost root: Node)
    requires Fits(p, Gone(target, c), root) && Apart(p, Gone(target, c), root)
    requires target.parent != null
    modifies Holder(p, root)`left, Holder(p, root)`right, (if TopNode(c) == null then {} else {TopNode(c)})`parent
    ensures Fits(p, c, root) && Apart(p, c, root)
    ensures root.right == old(root.right)
  {
    hide Rep; hide RepPath; hide PathNodes; hide DistinctPath;
    ghost var g := Gone(target, c);
    Hinge(p, g, root);
    OpenPath(p, root);
    OpenGone(target, c);
    HolderInPath(p, root);
    ghost var s, up := Sibling(p), Upper(p);
    TopInNodes(s); TopInNodes(c);
    HolderInPath(up, root);
    assert allocated(Nodes(s)) && allocated(PathNodes(up)) && allocated(Nodes(c));
    var child := if target.left != null then target.left else target.right;
    if child != null {
      child.parent := target.parent;
    }
    if target == target.parent.left {
      target.parent.left := child;
    } else {
      target.parent.right := child;
    }
    assert Rep(s) && Rep(c);
    assert p != Top ==> RepPath(up, root);
    OpenPath(p, root);
    Unhinge(p, c, root);
  }

  lemma OpenGone(x: Node, c: Tree)
    ensures Rep(Gone(x, c)) <==>
      (x.left == null || x.right == null) && Child(x, c, if x.left == null then x.right else x.left) && Rep(c)
    ensures Distinct(Gone(x, c)) <==> Distinct(c) && x !in Nodes(c)
    ensures Nodes(Gone(x, c)) == {x} + Nodes(c)
  {
  }

  // ---------- what the walks keep ----------

  /** Replacing the content of a hole by the same nodes and entries changes
      nothing for the whole tree. */
  lemma SamePlug(p: Path, t: Tree, u: Tree)
    requires SameButShape(t, u)
    ensures SameButShape(Plug(p, t), Plug(p, u))
  {
    PlugEntries(p, t); PlugEntries(p, u);
    PlugNodes(p, t); PlugNodes(p, u);
  }

  lemma SameFactor(t: Tree, b: int)
    requires t.Br?
    ensures SameButShape(t, t.(b := b))
  {
  }

  /** What is near the hole. */
  lemma AroundHole(p: Path, t: Tree, root: Node)
    requires Fits(p, t, root) && Apart(p, t, root) && p != Top && t != Nil
    ensures Holder(p, root) in PathNodes(p) && Holder(p, root).balance == p.b
    ensures TopNode(t) == Holder(p, root).left <==> p.InLeft?
    ensures Holder(p, root).parent == Holder(Upper(p), root)
    ensures Holder(Upper(p), root) in PathNodes(p) + {root} && Nodes(Bigger(p, t)) <= Nodes(t) + PathNodes(p)
  {
    TopInNodes(t);
    TopInNodes(Sibling(p));
    HolderInPath(Upper(p), root);
  }

  /** Moving the hole up and putting there the same nodes and entries, however
      arranged: the whole tree `t0` keeps its nodes and entries. */
  lemma Carry(t0: Tree, p: Path, t: Tree, u: Tree, root: Node)
    requires p != Top && Apart(p, t, root) && SameButShape(t0, Plug(p, t)) && SameButShape(Bigger(p, t), u)
    ensures Apart(Upper(p), u, root) && SameButShape(t0, Plug(Upper(p), u))
    ensures Nodes(u) + PathNodes(Upper(p)) == Nodes(t) + PathNodes(p)
    ensures Gones(u) == Gones(t) + Gones(Sibling(p)) && PathGones(p) == Gones(Sibling(p)) + PathGones(Upper(p))
  {
    StepUp(p, t, root);
    SamePlug(Upper(p), Bigger(p, t), u);
  }

  // ---------- paths below paths ----------

  ghost function Append(p: Path, q: Path): Path {
    match q
    case Top => p
    case InLeft(up, e, b, r) => InLeft(Append(p, up), e, b, r)
    case InRight(up, l, e, b) => InRight(Append(p, up), l, e, b)
  }

  lemma {:induction false} AppendPath(p: Path, q: Path, t: Tree)
    ensures Plug(Append(p, q), t) == Plug(p, Plug(q, t))
    ensures Before(Append(p, q)) == Before(p) + Before(q) && After(Append(p, q)) == After(q) + After(p)
  {
    match q
    case Top =>
    case InLeft(up, e, b, r) => AppendPath(p, up, Br(t, e, b, r));
    case InRight(up, l, e, b) => AppendPath(p, up, Br(l, e, b, t));
  }
}
