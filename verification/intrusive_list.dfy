/** The kernel's doubly linked list (src/sys/include/kernel/utils/list.h): the
    nodes carry their own links. */
module IntrusiveList {

  class Node<T> {
    var Prev: Node?<T>
    var Next: Node?<T>
    var item: T

    constructor (item: T)
      ensures this.item == item && Prev == null && Next == null
    {
      this.item := item;
      Prev := null;
      Next := null;
    }
  }

  /** What the nodes hold, in order. */
  ghost function Items<T>(nodes: seq<Node<T>>): (items: seq<T>)
    reads nodes
    ensures |items| == |nodes| && forall i :: 0 <= i < |nodes| ==> items[i] == nodes[i].item
  {
    if nodes == [] then [] else [nodes[0].item] + Items(nodes[1..])
  }

  ghost predicate Distinct<T>(nodes: seq<Node<T>>) {
    forall i, j :: 0 <= i < j < |nodes| ==> nodes[i] != nodes[j]
  }

  ghost function At<T>(nodes: seq<Node<T>>, i: int): Node?<T> {
    if 0 <= i < |nodes| then nodes[i] else null
  }

  /** Node `i` points to its neighbours. */
  ghost predicate Linked<T>(nodes: seq<Node<T>>, i: nat)
    requires i < |nodes|
    reads nodes[i]
  {
    nodes[i].Prev == At(nodes, i - 1) && nodes[i].Next == At(nodes, i + 1)
  }

  ghost predicate Chained<T>(nodes: seq<Node<T>>)
    reads nodes
  {
    forall i: nat | i < |nodes| :: Linked(nodes, i)
  }

  twostate predicate SameLinks<T>(nodes: seq<Node<T>>)
    reads nodes
  {
    forall n | n in nodes :: n.Prev == old(n.Prev) && n.Next == old(n.Next)
  }

  /** A list whose nodes keep their links stays a list. */
  twostate lemma StillChained<T>(nodes: seq<Node<T>>)
    requires old(Chained(nodes)) && SameLinks(nodes)
    ensures Chained(nodes)
  {
    forall i: nat | i < |nodes| ensures Linked(nodes, i) {
      assert old(Linked(nodes, i));
      assert nodes[i] in nodes;
    }
  }

  twostate predicate SameItem<T>(nodes: seq<Node<T>>)
    reads nodes
  {
    forall n | n in nodes :: n.item == old(n.item)
  }

  twostate lemma StillItems<T>(nodes: seq<Node<T>>)
    requires SameItem(nodes)
    ensures Items(nodes) == old(Items(nodes))
  {
    forall i | 0 <= i < |nodes| ensures Items(nodes)[i] == old(Items(nodes)[i]) {
      assert nodes[i] in nodes;
    }
  }

  class List<T> {
    var first: Node?<T>
    var last: Node?<T>
    var count: nat
    ghost var nodes: seq<Node<T>>

    ghost predicate Valid()
      reads this, nodes
    {
      && count == |nodes| && Distinct(nodes) && Chained(nodes)
      && first == At(nodes, 0) && last == At(nodes, |nodes| - 1)
    }

    constructor ()
      ensures Valid() && nodes == []
    {
      first := null;
      last := null;
      count := 0;
      nodes := [];
    }

    method Contains(node: Node<T>) returns (found: bool)
      requires Valid()
      ensures found <==> node in nodes
    {
      var p := first;
      ghost var i := 0;
      while p != null
        invariant 0 <= i <= |nodes| && p == At(nodes, i)
        invariant node !in nodes[..i]
        decreases |nodes| - i
      {
        if p == node {
          return true;
        }
        assert Linked(nodes, i);
        p := p.Next;
        i := i + 1;
      }
      return false;
    }

    method PushFront(node: Node<T>)
      requires Valid() && node !in nodes
      modifies this, node`Prev, node`Next, nodes`Prev
      ensures Valid() && nodes == [node] + old(nodes)
    {
      node.Prev := null;
      node.Next := first;
      if first != null {
        first.Prev := node;
      } else {
        last := node;
      }
      first := node;
      count := count + 1;
      ghost var was, all := nodes, [node] + nodes;
      nodes := all;
      forall k: nat | k < |all| ensures Linked(all, k) {
        if k > 0 { assert old(Linked(was, k - 1)); }
      }
    }

    method PushBack(node: Node<T>)
      requires Valid() && node !in nodes
      modifies this, node`Prev, node`Next, nodes`Next
      ensures Valid() && nodes == old(nodes) + [node]
    {
      node.Prev := last;
      node.Next := null;
      if last != null {
        last.Next := node;
      } else {
        first := node;
      }
      last := node;
      count := count + 1;
      ghost var was, all := nodes, nodes + [node];
      nodes := all;
      forall k: nat | k < |all| ensures Linked(all, k) {
        if k < |was| { assert old(Linked(was, k)); }
      }
    }

    method PopFront() returns (rval: Node?<T>)
      requires Valid()
      modifies this, nodes`Prev, nodes`Next
      ensures Valid()
      ensures old(nodes) == [] ==> rval == null && nodes == []
      ensures old(nodes) != [] ==> rval == old(nodes)[0] && nodes == old(nodes)[1..]
    {
      if first == null {
        return null;
      }
      rval := first;
      assert Linked(nodes, 0);
      first := rval.Next;
      if first == null {
        last := null;
      } else {
        first.Prev := null;
      }
      count := count - 1;
      rval.Next := null;
      ghost var was, rest := nodes, nodes[1..];
      nodes := rest;
      forall k: nat | k < |rest| ensures Linked(rest, k) {
        assert old(Linked(was, k + 1));
      }
    }

    method PopBack() returns (rval: Node?<T>)
      requires Valid()
      modifies this, nodes`Prev, nodes`Next
      ensures Valid()
      ensures old(nodes) == [] ==> rval == null && nodes == []
      ensures old(nodes) != [] ==> rval == old(nodes)[|old(nodes)| - 1] && nodes == old(nodes)[..|old(nodes)| - 1]
    {
      if last == null {
        return null;
      }
      rval := last;
      assert Linked(nodes, |nodes| - 1);
      last := rval.Prev;
      if last == null {
        first := null;
      } else {
        last.Next := null;
      }
      count := count - 1;
      rval.Prev := null;
      ghost var was, rest := nodes, nodes[..|nodes| - 1];
      nodes := rest;
      forall k: nat | k < |rest| ensures Linked(rest, k) {
        assert old(Linked(was, k));
      }
    }

    method Remove(node: Node<T>, ghost i: nat)
      requires Valid() && i < |nodes| && nodes[i] == node
      modifies this, nodes`Prev, nodes`Next
      ensures Valid() && nodes == old(nodes)[..i] + old(nodes)[i + 1..]
    {
      assert Linked(nodes, i);
      if node.Prev != null {
        node.Prev.Next := node.Next;
      } else {
        first := node.Next;
      }
      if node.Next != null {
        node.Next.Prev := node.Prev;
      } else {
        last := node.Prev;
      }
      node.Next := null;
      node.Prev := null;
      count := count - 1;
      ghost var was, rest := nodes, nodes[..i] + nodes[i + 1..];
      nodes := rest;
      forall k: nat | k < |rest| ensures Linked(rest, k) {
        assert rest[k] == was[if k < i then k else k + 1];
        assert old(Linked(was, if k < i then k else k + 1));
      }
    }
  }
}
