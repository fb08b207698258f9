/** Rotations and the four rebalancing steps of work/AVLTree.h. */
module AvlRotate {
  import opened AvlShape

  // ---------- pointer surgery ----------

  /** Left rotation, in terms of the pointers it moves.  `c` is the subtree
      that changes sides. */
  method RotateLeft(n: Node, ghost c: Node?) returns (tmp: Node)
    requires n.right != null && n.parent != null && c == n.right.left
    requires n.parent.left == n || n.parent.right == n
    requires n.right != n && n.parent != n && n.parent != n.right && c != n && c != n.right && c != n.parent
    modifies n`right, n`parent, n.right`left, n.right`parent, n.parent`left, n.parent`right, c
    ensures tmp == old(n.right) && tmp.left == n && tmp.parent == old(n.parent)
    ensures n.right == c && n.parent == tmp
    ensures c != null ==> c.parent == n && c.left == old(c.left) && c.right == old(c.right)
    ensures c != null ==> c.key == old(c.key) && c.data == old(c.data) && c.balance == old(c.balance)
    ensures tmp.parent.left == if old(n.parent.left) == n then tmp else old(n.parent.left)
    ensures tmp.parent.right == if old(n.parent.left) == n then old(n.parent.right) else tmp
  {
    tmp := n.right;
    n.right := tmp.left;
    if n.right != null {
      n.right.parent := n;
    }
    tmp.parent := n.parent;
    if n == n.parent.left {
      n.parent.left := tmp;
    } else {
      n.parent.right := tmp;
    }
    tmp.left := n;
    n.parent := tmp;
  }

  /** Right rotation, the mirror image. */
  method RotateRight(n: Node, ghost c: Node?) returns (tmp: Node)
    requires n.left != null && n.parent != null && c == n.left.right
    requires n.parent.left == n || n.parent.right == n
    requires n.left != n && n.parent != n && n.parent != n.left && c != n && c != n.left && c != n.parent
    modifies n`left, n`parent, n.left`right, n.left`parent, n.parent`left, n.parent`right, c
    ensures tmp == old(n.left) && tmp.right == n && tmp.parent == old(n.parent)
    ensures n.left == c && n.parent == tmp
    ensures c != null ==> c.parent == n && c.left == old(c.left) && c.right == old(c.right)
    ensures c != null ==> c.key == old(c.key) && c.data == old(c.data) && c.balance == old(c.balance)
    ensures tmp.parent.left == if old(n.parent.left) == n then tmp else old(n.parent.left)
    ensures tmp.parent.right == if old(n.parent.left) == n then old(n.parent.right) else tmp
  {
    tmp := n.left;
    n.left := tmp.right;
    if n.left != null {
      n.left.parent := n;
    }
    tmp.parent := n.parent;
    if n == n.parent.left {
      n.parent.left := tmp;
    } else {
      n.parent.right := tmp;
    }
    tmp.right := n;
    n.parent := tmp;
  }

  // ---------- rotations of trees ----------

  ghost function RotL(t: Tree): Tree
    requires t.Br? && t.r.Br?
  {
    Br(Br(t.l, t.e, t.b, t.r.l), t.r.e, t.r.b, t.r.r)
  }

  ghost function RotR(t: Tree): Tree
    requires t.Br? && t.l.Br?
  {
    Br(t.l.l, t.l.e, t.l.b, Br(t.l.r, t.e, t.b, t.r))
  }

  /** Rotations keep the entries and their order. */
  lemma RotLeftKeeps(t: Tree)
    requires t.Br? && t.r.Br?
    ensures Entries(RotL(t)) == Entries(t) && Nodes(RotL(t)) == Nodes(t)
    ensures Distinct(RotL(t)) <==> Distinct(t)
    ensures Gones(RotL(t)) == Gones(t)
  {
    hide Distinct; hide Nodes; hide Rep;
    OpenTree(t); OpenTree(t.r); OpenTree(RotL(t)); OpenTree(RotL(t).l);
    assert Entries(t) == Entries(t.l) + [t.e] + (Entries(t.r.l) + [t.r.e] + Entries(t.r.r));
    assert Entries(RotL(t)) == (Entries(t.l) + [t.e] + Entries(t.r.l)) + [t.r.e] + Entries(t.r.r);
  }

  lemma RotRightKeeps(t: Tree)
    requires t.Br? && t.l.Br?
    ensures Entries(RotR(t)) == Entries(t) && Nodes(RotR(t)) == Nodes(t)
    ensures Distinct(RotR(t)) <==> Distinct(t)
    ensures Gones(RotR(t)) == Gones(t)
  {
    assert RotL(RotR(t)) == t;
    RotLeftKeeps(RotR(t));
  }

  /** The same rotation, in terms of the tree that hangs from `h`. */
  method TurnLeft(n: Node, ghost t: Tree, ghost h: Node) returns (tmp: Node)
    requires t.Br? && t.r.Br? && Distinct(t) && n == t.e.node
    requires Rep(t) && h !in Nodes(t) && n.parent == h && (h.left == n || h.right == n)
    modifies h`left, h`right, Nodes(t)
    ensures tmp == t.r.e.node && Rep(RotL(t)) && tmp.parent == h
    ensures h.left == if old(h.left) == n then tmp else old(h.left)
    ensures h.right == if old(h.left) == n then old(h.right) else tmp
  {
    hide Rep; hide Distinct; hide Nodes;
    ghost var a, b, c := t.l, t.r.l, t.r.r;
    OpenTree(t); OpenTree(t.r);
    TopInNodes(a); TopInNodes(b); TopInNodes(c);
    ghost var x, y := n.right, TopNode(b);
    assert allocated(Nodes(a)) && allocated(Nodes(b)) && allocated(Nodes(c));
    tmp := RotateLeft(n, y);
    assert Rep(a) && Rep(b) && Rep(c);
    OpenTree(RotL(t)); OpenTree(RotL(t).l);
  }

  method TurnRight(n: Node, ghost t: Tree, ghost h: Node) returns (tmp: Node)
    requires t.Br? && t.l.Br? && Distinct(t) && n == t.e.node
    requires Rep(t) && h !in Nodes(t) && n.parent == h && (h.left == n || h.right == n)
    modifies h`left, h`right, Nodes(t)
    ensures tmp == t.l.e.node && Rep(RotR(t)) && tmp.parent == h
    ensures h.left == if old(h.left) == n then tmp else old(h.left)
    ensures h.right == if old(h.left) == n then old(h.right) else tmp
  {
    hide Rep; hide Distinct; hide Nodes;
    ghost var a, b, c := t.l.l, t.l.r, t.r;
    OpenTree(t); OpenTree(t.l);
    TopInNodes(a); TopInNodes(b); TopInNodes(c);
    ghost var x, y := n.left, TopNode(b);
    assert allocated(Nodes(a)) && allocated(Nodes(b)) && allocated(Nodes(c));
    tmp := RotateRight(n, y);
    assert Rep(a) && Rep(b) && Rep(c);
    OpenTree(RotR(t)); OpenTree(RotR(t).r);
  }

  /** The tree `t` with other balance factors at the top and at both children. */
  ghost function WithBalances(t: Tree, bl: int, b: int, br: int): Tree
    requires t.Br? && t.l.Br? && t.r.Br?
  {
    t.(l := t.l.(b := bl), b := b, r := t.r.(b := br))
  }

  lemma BalancesKeep(t: Tree, bl: int, b: int, br: int)
    requires t.Br? && t.l.Br? && t.r.Br?
    ensures var u := WithBalances(t, bl, b, br);
      && Entries(u) == Entries(t) && Nodes(u) == Nodes(t) && (Distinct(u) <==> Distinct(t)) && Gones(u) == Gones(t)
  {
  }

  /** The four subtrees two levels down, and what they do not contain. */
  lemma Grandchildren(t: Tree)
    requires t.Br? && t.l.Br? && t.r.Br? && Rep(t) && Distinct(t)
    ensures Rep(t.l.l) && Rep(t.l.r) && Rep(t.r.l) && Rep(t.r.r)
    ensures var s := Nodes(t.l.l) + Nodes(t.l.r) + Nodes(t.r.l) + Nodes(t.r.r);
      {t.e.node, t.l.e.node, t.r.e.node} !! s && Nodes(t) == s + {t.e.node, t.l.e.node, t.r.e.node}
    ensures t.e.node.left == t.l.e.node && t.e.node.right == t.r.e.node
    ensures t.e.node != t.l.e.node && t.e.node != t.r.e.node && t.l.e.node != t.r.e.node
  {
  }

  /** The three assignments of balance factors that follow a rotation. */
  method SetBalances(n: Node, bl: int, b: int, br: int, ghost t: Tree)
    requires t.Br? && t.l.Br? && t.r.Br? && Rep(t) && Distinct(t) && n == t.e.node
    modifies n`balance, n.left`balance, n.right`balance
    ensures Rep(WithBalances(t, bl, b, br))
  {
    hide Rep; hide Nodes; hide Distinct;
    Grandchildren(t);
    OpenTree(t); OpenTree(t.l); OpenTree(t.r);
    n.balance := b;
    n.left.balance := bl;
    n.right.balance := br;
    assert Rep(t.l.l) && Rep(t.l.r) && Rep(t.r.l) && Rep(t.r.r);
    ghost var u := WithBalances(t, bl, b, br);
    OpenTree(u); OpenTree(u.l); OpenTree(u.r);
  }

  // ---------- the four rebalancing steps ----------

  /** The factors that a double rotation gives to the two outer nodes, from the
      old factor of the node that comes to the top. */
  function OuterLeft(old': int): int { if old' == 1 then -1 else 0 }

  function OuterRight(old': int): int { if old' == -1 then 1 else 0 }

  ghost function DoubleRight(t: Tree): Tree
    requires t.Br? && t.l.Br? && t.l.r.Br?
  {
    var o := t.l.r.b;
    WithBalances(RotR(t.(l := RotL(t.l))), OuterLeft(o), 0, OuterRight(o))
  }

  ghost function DoubleLeft(t: Tree): Tree
    requires t.Br? && t.r.Br? && t.r.l.Br?
  {
    var o := t.r.l.b;
    WithBalances(RotL(t.(r := RotR(t.r))), OuterLeft(o), 0, OuterRight(o))
  }

  method DoubleRotateRight(node: Node, ghost t: Tree, ghost h: Node) returns (tmp: Node)
    requires t.Br? && t.l.Br? && t.l.r.Br? && Distinct(t) && node == t.e.node
    requires Rep(t) && h !in Nodes(t) && node.parent == h && (h.left == node || h.right == node)
    modifies h`left, h`right, Nodes(t)
    ensures tmp == t.l.r.e.node && Rep(DoubleRight(t)) && tmp.parent == h
    ensures h.left == if old(h.left) == node then tmp else old(h.left)
    ensures h.right == if old(h.left) == node then old(h.right) else tmp
  {
    hide Rep; hide Nodes; hide Distinct;
    OpenTree(t); OpenTree(t.l); OpenTree(t.l.r);
    TopInNodes(t.l); TopInNodes(t.r);
    var oldBalance := node.left.right.balance;
    assert allocated(Nodes(t.r)) && allocated(Nodes(t.l));
    RotLeftKeeps(t.l);
    ghost var v := t.(l := RotL(t.l));
    var x := TurnLeft(node.left, t.l, node);
    assert Rep(t.r);
    OpenTree(v);
    RotRightKeeps(v);
    tmp := TurnRight(node, v, h);
    OpenTree(RotR(v));
    SetBalances(tmp, OuterLeft(oldBalance), 0, OuterRight(oldBalance), RotR(v));
  }

  method DoubleRotateLeft(node: Node, ghost t: Tree, ghost h: Node) returns (tmp: Node)
    requires t.Br? && t.r.Br? && t.r.l.Br? && Distinct(t) && node == t.e.node
    requires Rep(t) && h !in Nodes(t) && node.parent == h && (h.left == node || h.right == node)
    modifies h`left, h`right, Nodes(t)
    ensures tmp == t.r.l.e.node && Rep(DoubleLeft(t)) && tmp.parent == h
    ensures h.left == if old(h.left) == node then tmp else old(h.left)
    ensures h.right == if old(h.left) == node then old(h.right) else tmp
  {
    hide Rep; hide Nodes; hide Distinct;
    OpenTree(t); OpenTree(t.r); OpenTree(t.r.l);
    TopInNodes(t.r); TopInNodes(t.l);
    var oldBalance := node.right.left.balance;
    assert allocated(Nodes(t.l)) && allocated(Nodes(t.r));
    RotRightKeeps(t.r);
    ghost var v := t.(r := RotR(t.r));
    var x := TurnRight(node.right, t.r, node);
    assert Rep(t.l);
    OpenTree(v);
    RotLeftKeeps(v);
    tmp := TurnLeft(node, v, h);
    OpenTree(RotL(v));
    SetBalances(tmp, OuterLeft(oldBalance), 0, OuterRight(oldBalance), RotL(v));
  }

  /** After a single rotation two factors change: that of the new top `n` and
      that of the old one, now its child `x`. */
  method SetPair(n: Node, x: Node, b: int, bx: int, ghost t: Tree)
    requires t.Br? && Rep(t) && Distinct(t) && n == t.e.node
    requires (t.l.Br? && x == t.l.e.node) || (t.r.Br? && x == t.r.e.node)
    modifies n`balance, x`balance
    ensures t.r.Br? && x == t.r.e.node ==> Rep(t.(b := b, r := t.r.(b := bx)))
    ensures t.l.Br? && x == t.l.e.node ==> Rep(t.(b := b, l := t.l.(b := bx)))
  {
    hide Rep; hide Nodes; hide Distinct;
    ghost var y, z := if t.r.Br? && x == t.r.e.node then t.r else t.l, if t.r.Br? && x == t.r.e.node then t.l else t.r;
    OpenTree(t); OpenTree(y);
    TopInNodes(z);
    assert allocated(Nodes(z)) && allocated(Nodes(y.l)) && allocated(Nodes(y.r));
    n.balance := b;
    x.balance := bx;
    assert Rep(z) && Rep(y.l) && Rep(y.r);
    OpenTree(y.(b := bx));
    if t.r.Br? && x == t.r.e.node { OpenTree(t.(b := b, r := t.r.(b := bx))); }
    if t.l.Br? && x == t.l.e.node { OpenTree(t.(b := b, l := t.l.(b := bx))); }
  }

  /** The same nodes hold the same entries in the same order. */
  ghost predicate SameButShape(t: Tree, u: Tree) {
    Entries(u) == Entries(t) && Nodes(u) == Nodes(t) && (Distinct(u) <==> Distinct(t)) && Gones(u) == Gones(t)
  }

  lemma SameSubtree(t: Tree, u: Tree)
    requires t.Br? && u.Br? && u.e == t.e && SameButShape(t.l, u.l) && SameButShape(t.r, u.r)
    ensures SameButShape(t, u)
  {
  }

  lemma DoubleRightKeeps(t: Tree)
    requires t.Br? && t.l.Br? && t.l.r.Br?
    ensures SameButShape(t, DoubleRight(t))
  {
    var v := t.(l := RotL(t.l));
    RotLeftKeeps(t.l);
    SameSubtree(t, v);
    RotRightKeeps(v);
    BalancesKeep(RotR(v), OuterLeft(t.l.r.b), 0, OuterRight(t.l.r.b));
  }

  lemma DoubleLeftKeeps(t: Tree)
    requires t.Br? && t.r.Br? && t.r.l.Br?
    ensures SameButShape(t, DoubleLeft(t))
  {
    var v := t.(r := RotR(t.r));
    RotRightKeeps(t.r);
    SameSubtree(t, v);
    RotLeftKeeps(v);
    BalancesKeep(RotL(v), OuterLeft(t.r.l.b), 0, OuterRight(t.r.l.b));
  }

  /** What `FixInsertLeftImbalance` makes of the tree `t`. */
  ghost function InsertLeft(t: Tree): Tree
    requires t.Br? && t.l.Br? && (t.l.b != t.b ==> t.l.r.Br?)
  {
    if t.l.b == t.b then var u := RotR(t); u.(b := 0, r := u.r.(b := 0)) else DoubleRight(t)
  }

  method FixInsertLeftImbalance(node: Node, ghost t: Tree, ghost h: Node) returns (ghost top: Node)
    requires t.Br? && t.l.Br? && (t.l.b != t.b ==> t.l.r.Br?) && Distinct(t) && node == t.e.node
    requires Rep(t) && h !in Nodes(t) && node.parent == h && (h.left == node || h.right == node)
    modifies h`left, h`right, Nodes(t)
    ensures top == InsertLeft(t).e.node && Rep(InsertLeft(t)) && top.parent == h
    ensures h.left == if old(h.left) == node then top else old(h.left)
    ensures h.right == if old(h.left) == node then old(h.right) else top
  {
    hide Rep; hide Nodes; hide Distinct;
    OpenTree(t); OpenTree(t.l);
    if node.left.balance == node.balance {
      var tmp := TurnRight(node, t, h);
      RotRightKeeps(t);
      OpenTree(RotR(t));
      SetPair(tmp, tmp.right, 0, 0, RotR(t));
      top := tmp;
    } else {
      top := DoubleRotateRight(node, t, h);
    }
  }

  /** What `FixDeleteLeftImbalance` makes of the tree `t`. */
  ghost function DeleteLeft(t: Tree): Tree
    requires t.Br? && t.l.Br? && (t.l.b == 1 ==> t.l.r.Br?)
  {
    if t.l.b == 1 then DoubleRight(t)
    else if t.l.b == 0 then var u := RotR(t); u.(b := 1, r := u.r.(b := -1))
    else var u := RotR(t); u.(b := 0, r := u.r.(b := 0))
  }

  method FixDeleteLeftImbalance(node: Node, ghost t: Tree, ghost h: Node) returns (top: Node)
    requires t.Br? && t.l.Br? && (t.l.b == 1 ==> t.l.r.Br?) && -1 <= t.l.b <= 1 && Distinct(t) && node == t.e.node
    requires Rep(t) && h !in Nodes(t) && node.parent == h && (h.left == node || h.right == node)
    modifies h`left, h`right, Nodes(t)
    ensures top == DeleteLeft(t).e.node && Rep(DeleteLeft(t)) && top.parent == h
    ensures h.left == if old(h.left) == node then top else old(h.left)
    ensures h.right == if old(h.left) == node then old(h.right) else top
  {
    hide Rep; hide Nodes; hide Distinct;
    OpenTree(t); OpenTree(t.l);
    match node.left.balance {
      case -1 =>
        top := TurnRight(node, t, h);
        RotRightKeeps(t);
        OpenTree(RotR(t));
        SetPair(top, top.right, 0, 0, RotR(t));
      case 0 =>
        top := TurnRight(node, t, h);
        RotRightKeeps(t);
        OpenTree(RotR(t));
        SetPair(top, top.right, 1, -1, RotR(t));
      case _ =>
        top := DoubleRotateRight(node, t, h);
    }
  }

  lemma NotGone(t: Tree)
    ensures Gones(t) == {} && Height(t) > 0 ==> t.Br?
  {
  }

  lemma InsertLeftKeeps(t: Tree)
    requires t.Br? && t.l.Br? && (t.l.b != t.b ==> t.l.r.Br?)
    ensures SameButShape(t, InsertLeft(t))
  {
    if t.l.b == t.b {
      RotRightKeeps(t);
      SameSubtree(RotR(t), InsertLeft(t));
    } else {
      DoubleRightKeeps(t);
    }
  }

  lemma DeleteLeftKeeps(t: Tree)
    requires t.Br? && t.l.Br? && (t.l.b == 1 ==> t.l.r.Br?)
    ensures SameButShape(t, DeleteLeft(t))
  {
    if t.l.b == 1 {
      DoubleRightKeeps(t);
    } else {
      RotRightKeeps(t);
      SameSubtree(RotR(t), DeleteLeft(t));
    }
  }

  /** The step restores balance and the height the subtree had before. */
  lemma InsertLeftRestores(t: Tree)
    requires t.Br? && t.b == -1 && t.l.Br? && t.l.b != 0
    requires Avl(t.l) && Avl(t.r) && Height(t.l) == Height(t.r) + 2 && Gones(t.l) == {}
    ensures t.l.b != t.b ==> t.l.r.Br?
    ensures SameButShape(t, InsertLeft(t)) && Avl(InsertLeft(t)) && Height(InsertLeft(t)) == Height(t) - 1
  {
    hide Entries; hide Nodes; hide Distinct; hide SameButShape;
    assert t.l.b != t.b ==> t.l.r.Br? by { NotGone(t.l.r); }
    InsertLeftKeeps(t);
  }

  /** The step restores balance; the top's factor says whether the height is
      what it was before the removal. */
  lemma DeleteLeftRestores(t: Tree)
    requires t.Br? && t.b == -1
    requires Avl(t.l) && Avl(t.r) && Height(t.l) == Height(t.r) + 2 && Gones(t.l) == {}
    ensures t.l.Br? && -1 <= t.l.b <= 1 && (t.l.b == 1 ==> t.l.r.Br?)
    ensures SameButShape(t, DeleteLeft(t)) && Avl(DeleteLeft(t)) && DeleteLeft(t).Br?
    ensures Height(DeleteLeft(t)) == if DeleteLeft(t).b == 1 then Height(t) else Height(t) - 1
  {
    hide Entries; hide Nodes; hide Distinct; hide SameButShape;
    NotGone(t.l);
    assert t.l.b == 1 ==> t.l.r.Br? by { NotGone(t.l.r); }
    DeleteLeftKeeps(t);
  }

  // ---------- the mirror images ----------

  /** What `FixInsertRightImbalance` makes of the tree `t`. */
  ghost function InsertRight(t: Tree): Tree
    requires t.Br? && t.r.Br? && (t.r.b != t.b ==> t.r.l.Br?)
  {
    if t.r.b == t.b then var u := RotL(t); u.(b := 0, l := u.l.(b := 0)) else DoubleLeft(t)
  }

  method FixInsertRightImbalance(node: Node, ghost t: Tree, ghost h: Node) returns (ghost top: Node)
    requires t.Br? && t.r.Br? && (t.r.b != t.b ==> t.r.l.Br?) && Distinct(t) && node == t.e.node
    requires Rep(t) && h !in Nodes(t) && node.parent == h && (h.left == node || h.right == node)
    modifies h`left, h`right, Nodes(t)
    ensures top == InsertRight(t).e.node && Rep(InsertRight(t)) && top.parent == h
    ensures h.left == if old(h.left) == node then top else old(h.left)
    ensures h.right == if old(h.left) == node then old(h.right) else top
  {
    hide Rep; hide Nodes; hide Distinct;
    OpenTree(t); OpenTree(t.r);
    if node.right.balance == node.balance {
      var tmp := TurnLeft(node, t, h);
      RotLeftKeeps(t);
      OpenTree(RotL(t));
      SetPair(tmp, tmp.left, 0, 0, RotL(t));
      top := tmp;
    } else {
      top := DoubleRotateLeft(node, t, h);
    }
  }

  /** What `FixDeleteRightImbalance` makes of the tree `t`. */
  ghost function DeleteRight(t: Tree): Tree
    requires t.Br? && t.r.Br? && (t.r.b == -1 ==> t.r.l.Br?)
  {
    if t.r.b == -1 then DoubleLeft(t)
    else if t.r.b == 0 then var u := RotL(t); u.(b := -1, l := u.l.(b := 1))
    else var u := RotL(t); u.(b := 0, l := u.l.(b := 0))
  }

  method FixDeleteRightImbalance(node: Node, ghost t: Tree, ghost h: Node) returns (top: Node)
    requires t.Br? && t.r.Br? && (t.r.b == -1 ==> t.r.l.Br?) && -1 <= t.r.b <= 1 && Distinct(t) && node == t.e.node
    requires Rep(t) && h !in Nodes(t) && node.parent == h && (h.left == node || h.right == node)
    modifies h`left, h`right, Nodes(t)
    ensures top == DeleteRight(t).e.node && Rep(DeleteRight(t)) && top.parent == h
    ensures h.left == if old(h.left) == node then top else old(h.left)
    ensures h.right == if old(h.left) == node then old(h.right) else top
  {
    hide Rep; hide Nodes; hide Distinct;
    OpenTree(t); OpenTree(t.r);
    match node.right.balance {
      case 1 =>
        top := TurnLeft(node, t, h);
        RotLeftKeeps(t);
        OpenTree(RotL(t));
        SetPair(top, top.left, 0, 0, RotL(t));
      case 0 =>
        top := TurnLeft(node, t, h);
        RotLeftKeeps(t);
        OpenTree(RotL(t));
        SetPair(top, top.left, -1, 1, RotL(t));
      case _ =>
        top := DoubleRotateLeft(node, t, h);
    }
  }

  lemma InsertRightKeeps(t: Tree)
    requires t.Br? && t.r.Br? && (t.r.b != t.b ==> t.r.l.Br?)
    ensures SameButShape(t, InsertRight(t))
  {
    if t.r.b == t.b {
      RotLeftKeeps(t);
      SameSubtree(RotL(t), InsertRight(t));
    } else {
      DoubleLeftKeeps(t);
    }
  }

  lemma DeleteRightKeeps(t: Tree)
    requires t.Br? && t.r.Br? && (t.r.b == -1 ==> t.r.l.Br?)
    ensures SameButShape(t, DeleteRight(t))
  {
    if t.r.b == -1 {
      DoubleLeftKeeps(t);
    } else {
      RotLeftKeeps(t);
      SameSubtree(RotL(t), DeleteRight(t));
    }
  }

  /** The step restores balance and the height the subtree had before. */
  lemma InsertRightRestores(t: Tree)
    requires t.Br? && t.b == 1 && t.r.Br? && t.r.b != 0
    requires Avl(t.r) && Avl(t.l) && Height(t.r) == Height(t.l) + 2 && Gones(t.r) == {}
    ensures t.r.b != t.b ==> t.r.l.Br?
    ensures SameButShape(t, InsertRight(t)) && Avl(InsertRight(t)) && Height(InsertRight(t)) == Height(t) - 1
  {
    hide Entries; hide Nodes; hide Distinct; hide SameButShape;
    assert t.r.b != t.b ==> t.r.l.Br? by { NotGone(t.r.l); }
    InsertRightKeeps(t);
  }

  /** The step restores balance; the top's factor says whether the height is
      what it was before the removal. */
  lemma DeleteRightRestores(t: Tree)
    requires t.Br? && t.b == 1
    requires Avl(t.r) && Avl(t.l) && Height(t.r) == Height(t.l) + 2 && Gones(t.r) == {}
    ensures t.r.Br? && -1 <= t.r.b <= 1 && (t.r.b == -1 ==> t.r.l.Br?)
    ensures SameButShape(t, DeleteRight(t)) && Avl(DeleteRight(t)) && DeleteRight(t).Br?
    ensures Height(DeleteRight(t)) == if DeleteRight(t).b == -1 then Height(t) else Height(t) - 1
  {
    hide Entries; hide Nodes; hide Distinct; hide SameButShape;
    NotGone(t.r);
    assert t.r.b == -1 ==> t.r.l.Br? by { NotGone(t.r.l); }
    DeleteRightKeeps(t);
  }
}
