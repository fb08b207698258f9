/** The nodes of the AVL tree (work/AVLTree.h) and the value model of the trees
    they form.

    A `Tree` value records which node stands where and what the tree believes
    it holds; `Rep` says that the heap agrees.  A `Path` is the way from the
    sentinel down to a hole, so the walks of the source, down from the root and
    back up through the parent pointers, become moves of a hole in a tree. */
module AvlShape {

  import opened BuddyNodes

  /** The data of the trees that the kernel uses; the tree only stores it. */
  type Data = BuddyNode?

  /** `DataType()`, what a lookup yields that finds nothing. */
  const NO_DATA: Data := null

  class Node {
    var parent: Node?
    var left: Node?
    var right: Node?
    var balance: int
    var key: int
    var data: Data

    constructor ()
      ensures parent == null && left == null && right == null
      ensures balance == 0 && key == 0 && data == NO_DATA
    {
      parent, left, right := null, null, null;
      balance, key, data := 0, 0, NO_DATA;
    }
  }

  datatype Entry = Entry(node: Node, key: int, data: Data)

  /** `Gone` is a node that is still linked in but no longer counts: `Remove`
      rebalances above its target before it unlinks it. */
  datatype Tree =
    | Nil
    | Br(l: Tree, e: Entry, b: int, r: Tree)
    | Gone(node: Node, rest: Tree)

  datatype Path =
    | Top
    | InLeft(up: Path, e: Entry, b: int, r: Tree)
    | InRight(up: Path, l: Tree, e: Entry, b: int)

  // ---------- trees as values ----------

  function Max(x: int, y: int): int { if x < y then y else x }

  /** The height of the tree without its `Gone` nodes. */
  ghost function Height(t: Tree): nat {
    match t
    case Nil => 0
    case Br(l, _, _, r) => 1 + Max(Height(l), Height(r))
    case Gone(_, c) => Height(c)
  }

  /** Every stored balance factor is exact and within -1..1. */
  ghost predicate Avl(t: Tree) {
    match t
    case Nil => true
    case Br(l, _, b, r) => Avl(l) && Avl(r) && b == Height(r) - Height(l) && -1 <= b <= 1
    case Gone(_, c) => Avl(c)
  }

  /** The entries from left to right. */
  ghost function Entries(t: Tree): seq<Entry> {
    match t
    case Nil => []
    case Br(l, e, _, r) => Entries(l) + [e] + Entries(r)
    case Gone(_, c) => Entries(c)
  }

  /** The nodes that are linked in but removed. */
  ghost function Gones(t: Tree): set<Node> {
    match t
    case Nil => {}
    case Br(l, _, _, r) => Gones(l) + Gones(r)
    case Gone(x, c) => {x} + Gones(c)
  }

  ghost function Nodes(t: Tree): set<Node> {
    match t
    case Nil => {}
    case Br(l, e, _, r) => Nodes(l) + {e.node} + Nodes(r)
    case Gone(x, c) => {x} + Nodes(c)
  }

  /** No node stands in two places. */
  ghost predicate Distinct(t: Tree) {
    match t
    case Nil => true
    case Br(l, e, _, r) =>
      Distinct(l) && Distinct(r) && e.node !in Nodes(l) && e.node !in Nodes(r) && Nodes(l) !! Nodes(r)
    case Gone(x, c) => Distinct(c) && x !in Nodes(c)
  }

  // ---------- paths as values ----------

  ghost function Plug(p: Path, t: Tree): Tree {
    match p
    case Top => t
    case InLeft(up, e, b, r) => Plug(up, Br(t, e, b, r))
    case InRight(up, l, e, b) => Plug(up, Br(l, e, b, t))
  }

  ghost function Before(p: Path): seq<Entry> {
    match p
    case Top => []
    case InLeft(up, _, _, _) => Before(up)
    case InRight(up, l, e, _) => Before(up) + Entries(l) + [e]
  }

  ghost function After(p: Path): seq<Entry> {
    match p
    case Top => []
    case InLeft(up, e, _, r) => [e] + Entries(r) + After(up)
    case InRight(up, _, _, _) => After(up)
  }

  ghost function PathNodes(p: Path): set<Node> {
    match p
    case Top => {}
    case InLeft(up, e, _, r) => PathNodes(up) + {e.node} + Nodes(r)
    case InRight(up, l, e, _) => PathNodes(up) + {e.node} + Nodes(l)
  }

  ghost predicate DistinctPath(p: Path) {
    match p
    case Top => true
    case InLeft(up, e, _, r) =>
      DistinctPath(up) && Distinct(r) && e.node !in Nodes(r) && e.node !in PathNodes(up) && Nodes(r) !! PathNodes(up)
    case InRight(up, l, e, _) =>
      DistinctPath(up) && Distinct(l) && e.node !in Nodes(l) && e.node !in PathNodes(up) && Nodes(l) !! PathNodes(up)
  }

  /** Plugging a balanced tree of height `h` into the hole gives a balanced tree. */
  ghost predicate AvlPath(p: Path, h: nat) {
    match p
    case Top => true
    case InLeft(up, _, b, r) =>
      Avl(r) && b == Height(r) - h && -1 <= b <= 1 && AvlPath(up, 1 + Max(h, Height(r)))
    case InRight(up, l, _, b) =>
      Avl(l) && b == h - Height(l) && -1 <= b <= 1 && AvlPath(up, 1 + Max(Height(l), h))
  }

  ghost function PathGones(p: Path): set<Node> {
    match p
    case Top => {}
    case InLeft(up, _, _, r) => PathGones(up) + Gones(r)
    case InRight(up, l, _, _) => PathGones(up) + Gones(l)
  }

  lemma Regroup(a: seq<Entry>, x: seq<Entry>, y: seq<Entry>, z: seq<Entry>, c: seq<Entry>)
    ensures a + (x + y + z) + c == a + x + (y + z + c) == (a + x + y) + z + c
  {
  }

  lemma {:induction false} PlugEntries(p: Path, t: Tree)
    ensures Entries(Plug(p, t)) == Before(p) + Entries(t) + After(p)
  {
    match p
    case Top =>
    case InLeft(up, e, b, r) =>
      PlugEntries(up, Br(t, e, b, r));
      Regroup(Before(up), Entries(t), [e], Entries(r), After(up));
    case InRight(up, l, e, b) =>
      PlugEntries(up, Br(l, e, b, t));
      Regroup(Before(up), Entries(l), [e], Entries(t), After(up));
  }

  /** Plugging decides balance at the hole alone: the early exits of the
      rebalancing loops rest on this. */
  lemma {:induction false} PlugAvl(p: Path, t: Tree)
    ensures Avl(Plug(p, t)) <==> Avl(t) && AvlPath(p, Height(t))
  {
    match p
    case Top =>
    case InLeft(up, e, b, r) => PlugAvl(up, Br(t, e, b, r));
    case InRight(up, l, e, b) => PlugAvl(up, Br(l, e, b, t));
  }

  lemma {:induction false} PlugNodes(p: Path, t: Tree)
    ensures Nodes(Plug(p, t)) == Nodes(t) + PathNodes(p)
    ensures Distinct(Plug(p, t)) <==> Distinct(t) && DistinctPath(p) && Nodes(t) !! PathNodes(p)
    ensures Gones(Plug(p, t)) == Gones(t) + PathGones(p)
  {
    match p
    case Top =>
    case InLeft(up, e, b, r) => PlugNodes(up, Br(t, e, b, r));
    case InRight(up, l, e, b) => PlugNodes(up, Br(l, e, b, t));
  }

  // ---------- the heap ----------

  ghost function TopNode(t: Tree): Node? {
    match t
    case Nil => null
    case Br(_, e, _, _) => e.node
    case Gone(x, _) => x
  }

  ghost function Kids(t: Tree): set<Node> {
    match t
    case Nil => {}
    case Br(l, _, _, r) => Nodes(l) + Nodes(r)
    case Gone(_, c) => Nodes(c)
  }

  lemma TopInNodes(t: Tree)
    ensures t != Nil ==> TopNode(t) != null && TopNode(t) in Nodes(t)
    ensures t == Nil <==> TopNode(t) == null
    ensures Kids(t) <= Nodes(t)
    ensures Distinct(t) && t != Nil ==> TopNode(t) !in Kids(t)
  {
  }

  ghost predicate Holds(e: Entry, b: int)
    reads e.node`key, e.node`data, e.node`balance
  {
    e.node.key == e.key && e.node.data == e.data && e.node.balance == b
  }

  /** `c` is the tree below a pointer held by `x`. */
  ghost predicate Child(x: Node, c: Tree, ptr: Node?)
    reads (if TopNode(c) == null then {} else {TopNode(c)})`parent
  {
    ptr == TopNode(c) && (ptr != null ==> ptr.parent == x)
  }

  /** The heap agrees with `t`, the parent pointer of its top node left aside. */
  ghost predicate Rep(t: Tree)
    reads Nodes(t)`left, Nodes(t)`right, Nodes(t)`key, Nodes(t)`data, Nodes(t)`balance, Kids(t)`parent
  {
    match t
    case Nil => true
    case Br(l, e, b, r) =>
      TopInNodes(l); TopInNodes(r);
      Holds(e, b) && Child(e.node, l, e.node.left) && Child(e.node, r, e.node.right) && Rep(l) && Rep(r)
    case Gone(x, c) =>
      TopInNodes(c);
      (x.left == null || x.right == null) && Child(x, c, if x.left == null then x.right else x.left) && Rep(c)
  }

  /** One step of `Rep`, `Nodes` and `Distinct`. */
  lemma OpenTree(t: Tree)
    requires t.Br?
    ensures Rep(t) <==>
      && Holds(t.e, t.b) && Child(t.e.node, t.l, t.e.node.left) && Child(t.e.node, t.r, t.e.node.right)
      && Rep(t.l) && Rep(t.r)
    ensures Nodes(t) == Nodes(t.l) + {t.e.node} + Nodes(t.r) && Kids(t) == Nodes(t.l) + Nodes(t.r)
    ensures Distinct(t) <==>
      Distinct(t.l) && Distinct(t.r) && t.e.node !in Nodes(t.l) && t.e.node !in Nodes(t.r) && Nodes(t.l) !! Nodes(t.r)
  {
  }

  lemma EntriesOf(t: Tree)
    requires t.Br?
    ensures Entries(t) == Entries(t.l) + [t.e] + Entries(t.r)
  {
  }

  /** The nodes hold what the tree says they hold. */
  lemma EntriesHeld(t: Tree)
    requires Rep(t)
    ensures forall e :: e in Entries(t) ==> e.node in Nodes(t) && e.node.key == e.key && e.node.data == e.data
  {
  }

  /** The node that the hole hangs from, and the pointer it has for the hole. */
  ghost function Holder(p: Path, root: Node): Node {
    match p
    case Top => root
    case InLeft(_, e, _, _) => e.node
    case InRight(_, _, e, _) => e.node
  }

  lemma HolderInPath(p: Path, root: Node)
    ensures p == Top ==> Holder(p, root) == root
    ensures p != Top ==> Holder(p, root) in PathNodes(p)
  {
  }

  ghost function Hole(p: Path, root: Node): Node?
    reads Holder(p, root)
  {
    match p
    case Top => root.left
    case InLeft(_, e, _, _) => e.node.left
    case InRight(_, _, e, _) => e.node.right
  }

  /** The heap agrees with `p`, the hole left aside. */
  ghost predicate RepPath(p: Path, root: Node)
    reads PathNodes(p), root
  {
    match p
    case Top => true
    case InLeft(up, e, b, r) =>
      TopInNodes(r); HolderInPath(up, root);
      && Holds(e, b) && Child(e.node, r, e.node.right) && Rep(r)
      && e.node.parent == Holder(up, root) && Hole(up, root) == e.node && RepPath(up, root)
    case InRight(up, l, e, b) =>
      TopInNodes(l); HolderInPath(up, root);
      && Holds(e, b) && Child(e.node, l, e.node.left) && Rep(l)
      && e.node.parent == Holder(up, root) && Hole(up, root) == e.node && RepPath(up, root)
  }

  /** The two parts of a path that do not change when its holder gets another
      child in the hole. */
  ghost function Sibling(p: Path): Tree {
    match p
    case Top => Nil
    case InLeft(_, _, _, r) => r
    case InRight(_, l, _, _) => l
  }

  ghost function Upper(p: Path): Path {
    match p
    case Top => Top
    case InLeft(up, _, _, _) => up
    case InRight(up, _, _, _) => up
  }

  lemma PathParts(p: Path, root: Node)
    requires DistinctPath(p) && RepPath(p, root) && root !in PathNodes(p)
    ensures Rep(Sibling(p)) && RepPath(Upper(p), root)
    ensures Nodes(Sibling(p)) <= PathNodes(p) && PathNodes(Upper(p)) <= PathNodes(p)
    ensures Holder(p, root) !in Nodes(Sibling(p)) && Holder(p, root) !in PathNodes(Upper(p))
  {
  }

  /** The heap agrees with the tree `t` in the hole of the path `p`. */
  ghost predicate Fits(p: Path, t: Tree, root: Node)
    reads PathNodes(p), Nodes(t), root
  {
    TopInNodes(t); HolderInPath(p, root);
    RepPath(p, root) && Rep(t) && Child(Holder(p, root), t, Hole(p, root))
  }

  /** Where the hole is does not matter to what the heap holds. */
  lemma {:induction false} PlugFits(p: Path, t: Tree, root: Node)
    ensures Fits(p, t, root) <==> Fits(Top, Plug(p, t), root)
  {
    match p
    case Top =>
    case InLeft(up, e, b, r) => PlugFits(up, Br(t, e, b, r), root);
    case InRight(up, l, e, b) => PlugFits(up, Br(l, e, b, t), root);
  }

  /** Below a proper path the root's child is not the node in the hole. */
  lemma RootChild(p: Path, root: Node)
    requires RepPath(p, root) && p != Top
    ensures root.left != null && root.left in PathNodes(p)
  {
    match p
    case InLeft(up, e, b, r) => if up != Top { RootChild(up, root); }
    case InRight(up, l, e, b) => if up != Top { RootChild(up, root); }
  }
}
