/** What a tree holds, seen as a map from keys to data, and how high it can be
    (work/AVLTree.h). */
module AvlContents {
  import opened AvlShape
  import opened Powers

  /** Search order: the keys increase from left to right. */
  ghost predicate Sorted(s: seq<Entry>) {
    forall i, j :: 0 <= i < j < |s| ==> s[i].key < s[j].key
  }

  ghost predicate AllBelow(s: seq<Entry>, k: int) { forall i :: 0 <= i < |s| ==> s[i].key < k }

  ghost predicate AllAbove(s: seq<Entry>, k: int) { forall i :: 0 <= i < |s| ==> k < s[i].key }

  ghost function ToMap(s: seq<Entry>): map<int, Data> {
    if s == [] then map[] else ToMap(s[..|s| - 1])[s[|s| - 1].key := s[|s| - 1].data]
  }

  lemma SortedParts(a: seq<Entry>, e: Entry, c: seq<Entry>)
    ensures Sorted(a + [e] + c) <==>
      Sorted(a) && Sorted(c) && AllBelow(a, e.key) && AllAbove(c, e.key)
    ensures Sorted(a + [e] + c) ==> Sorted(a + c)
  {
    var s := a + [e] + c;
    assert s[|a|] == e;
    if Sorted(s) {
      forall i, j | 0 <= i < j < |a| ensures a[i].key < a[j].key { assert s[i] == a[i] && s[j] == a[j]; }
      forall i, j | 0 <= i < j < |c| ensures c[i].key < c[j].key {
        assert s[|a| + 1 + i] == c[i] && s[|a| + 1 + j] == c[j];
      }
      forall i | 0 <= i < |a| ensures a[i].key < e.key { assert s[i] == a[i]; }
      forall i | 0 <= i < |c| ensures e.key < c[i].key { assert s[|a| + 1 + i] == c[i]; }
    }
  }

  /** One comparison of a search settles everything on one side. */
  lemma OneSide(a: seq<Entry>, l: seq<Entry>, e: Entry, r: seq<Entry>, c: seq<Entry>, key: int)
    requires Sorted(a + (l + [e] + r) + c)
    ensures key < e.key ==> AllAbove([e] + r + c, key)
    ensures key > e.key ==> AllBelow(a + l + [e], key)
  {
    assert a + (l + [e] + r) + c == (a + l) + [e] + (r + c);
    SortedParts(a + l, e, r + c);
    assert [e] + r + c == [e] + (r + c);
  }

  /** A sorted sequence lists the map that it stands for. */
  lemma {:induction false} MapOf(s: seq<Entry>)
    requires Sorted(s)
    ensures forall i :: 0 <= i < |s| ==> s[i].key in ToMap(s) && ToMap(s)[s[i].key] == s[i].data
    ensures forall k :: k in ToMap(s) ==> exists i :: 0 <= i < |s| && s[i].key == k
    ensures |ToMap(s)| == |s|
  {
    if s != [] {
      var t, e := s[..|s| - 1], s[|s| - 1];
      MapOf(t);
      assert e.key !in ToMap(t);
      forall k | k in ToMap(s) ensures exists i :: 0 <= i < |s| && s[i].key == k {
        if k == e.key {
          assert s[|s| - 1].key == k;
        } else {
          var i :| 0 <= i < |t| && t[i].key == k;
          assert s[i].key == k;
        }
      }
    }
  }

  /** Putting an entry in its place, and taking it out again. */
  lemma {:induction false} MapInsert(a: seq<Entry>, e: Entry, c: seq<Entry>)
    requires Sorted(a + [e] + c)
    ensures e.key !in ToMap(a + c)
    ensures ToMap(a + [e] + c) == ToMap(a + c)[e.key := e.data]
    ensures ToMap(a + c) == ToMap(a + [e] + c) - {e.key}
    decreases |c|
  {
    hide Sorted;
    SortedParts(a, e, c);
    if c == [] {
      assert a + [e] + c == a + [e] && a + c == a;
      MapSnoc(a, e);
      FreshKey(a, e.key);
    } else {
      var c', z := c[..|c| - 1], c[|c| - 1];
      assert a + [e] + c == (a + [e] + c') + [z] && a + c == (a + c') + [z];
      MapSnoc(a + [e] + c', z);
      MapSnoc(a + c', z);
      SortedParts(a + [e] + c', z, []);
      assert (a + [e] + c') + [z] + [] == a + [e] + c;
      hide ToMap;
      MapInsert(a, e, c');
      assert z.key != e.key by { assert c[|c| - 1] == z; }
      MapSwap(ToMap(a + c'), e.key, e.data, z.key, z.data);
    }
  }

  lemma MapSnoc(s: seq<Entry>, z: Entry)
    ensures ToMap(s + [z]) == ToMap(s)[z.key := z.data]
  {
    assert (s + [z])[..|s + [z]| - 1] == s;
  }

  lemma FreshKey(s: seq<Entry>, k: int)
    requires Sorted(s) && AllBelow(s, k)
    ensures k !in ToMap(s)
  {
    MapOf(s);
  }

  lemma MapSwap(m: map<int, Data>, k: int, d: Data, j: int, c: Data)
    requires k != j && k !in m
    ensures m[k := d][j := c] == m[j := c][k := d] && k !in m[j := c]
    ensures m[j := c] == m[j := c][k := d] - {k}
  {
  }

  lemma MapUpdate(a: seq<Entry>, e: Entry, f: Entry, c: seq<Entry>)
    requires Sorted(a + [e] + c) && f.key == e.key
    ensures Sorted(a + [f] + c)
    ensures ToMap(a + [f] + c) == ToMap(a + [e] + c)[e.key := f.data]
  {
    SortedParts(a, e, c);
    SortedParts(a, f, c);
    MapInsert(a, e, c);
    MapInsert(a, f, c);
  }

  /** A search that has left `a` below and `c` above its key has not lost it. */
  lemma MapMissing(a: seq<Entry>, c: seq<Entry>, k: int)
    requires Sorted(a + c) && AllBelow(a, k) && AllAbove(c, k)
    ensures k !in ToMap(a + c)
    ensures forall e: Entry :: e.key == k ==> Sorted(a + [e] + c)
  {
    MapOf(a + c);
    assert forall i :: 0 <= i < |a + c| ==> (a + c)[i].key != k;
    forall e: Entry | e.key == k ensures Sorted(a + [e] + c) {
      forall i, j | 0 <= i < j < |a| ensures a[i].key < a[j].key { assert (a + c)[i] == a[i] && (a + c)[j] == a[j]; }
      forall i, j | 0 <= i < j < |c| ensures c[i].key < c[j].key {
        assert (a + c)[|a| + i] == c[i] && (a + c)[|a| + j] == c[j];
      }
      SortedParts(a, e, c);
    }
  }

  /** The first entry's node, which is what the tree caches. */
  ghost function Least(s: seq<Entry>): Node? {
    if s == [] then null else s[0].node
  }

  lemma LeastInsert(a: seq<Entry>, e: Entry, c: seq<Entry>)
    requires AllBelow(a, e.key) && AllAbove(c, e.key)
    ensures Least(a + [e] + c) == if a + c == [] || e.key < (a + c)[0].key then e.node else Least(a + c)
  {
    if a == [] {
      assert a + [e] + c == [e] + c && a + c == c;
    } else {
      assert (a + [e] + c)[0] == a[0] && (a + c)[0] == a[0];
    }
  }

  lemma LeastUpdate(a: seq<Entry>, e: Entry, f: Entry, c: seq<Entry>)
    requires f.node == e.node
    ensures Least(a + [f] + c) == Least(a + [e] + c)
  {
    if a != [] {
      assert (a + [f] + c)[0] == a[0] && (a + [e] + c)[0] == a[0];
    }
  }

  /** An entry is dropped and the next one moves into its node. */
  lemma MapReplace(a: seq<Entry>, e: Entry, f: Entry, f': Entry, c: seq<Entry>)
    requires Sorted(a + [e] + ([f] + c)) && f'.key == f.key && f'.data == f.data
    ensures Sorted(a + [f'] + c) && e.key in ToMap(a + [e] + ([f] + c))
    ensures ToMap(a + [f'] + c) == ToMap(a + [e] + ([f] + c)) - {e.key}
  {
    hide Sorted; hide ToMap;
    SortedParts(a, e, [f] + c);
    MapInsert(a, e, [f] + c);
    assert a + ([f] + c) == a + [f] + c;
    MapInsert(a, f, c);
    MapUpdate(a, f, f', c);
  }

  // ---------- height ----------

  function Fib(n: nat): nat {
    if n < 2 then n else Fib(n - 1) + Fib(n - 2)
  }

  /** A balanced tree of height `h` has at least Fib(h + 2) - 1 entries. */
  lemma {:induction false} FibBound(t: Tree)
    requires Avl(t)
    ensures |Entries(t)| + 1 >= Fib(Height(t) + 2)
  {
    match t
    case Nil =>
    case Gone(_, c) => FibBound(c);
    case Br(l, e, b, r) =>
      FibBound(l);
      FibBound(r);
      FibMonotone(Height(t), Height(l) + 2);
      FibMonotone(Height(t), Height(r) + 2);
  }

  lemma {:induction false} FibMonotone(m: nat, n: nat)
    requires m <= n
    ensures Fib(m) <= Fib(n)
    decreases n
  {
    if m < n { FibMonotone(m, n - 1); }
  }

  lemma {:induction false} FibSquare(h: nat)
    ensures Pow2(h) <= Fib(h + 2) * Fib(h + 2)
  {
    if h >= 2 {
      FibSquare(h - 2);
      FibMonotone(h, h + 1);
      TwiceSquare(Fib(h), Fib(h + 2), Pow2(h - 2));
    }
  }

  lemma TwiceSquare(x: nat, y: nat, p: nat)
    requires 2 * x <= y && p <= x * x
    ensures 2 * (2 * p) <= y * y
  {
    Square(2 * x, y);
    assert (2 * x) * (2 * x) == 2 * (2 * (x * x));
  }

  lemma Square(x: nat, y: nat)
    requires x <= y
    ensures x * x <= y * y
  {
    assert x * x <= x * y <= y * y;
  }

  /** The height is logarithmic in the number of entries. */
  lemma HeightBound(t: Tree)
    requires Avl(t)
    ensures Pow2(Height(t)) <= (|Entries(t)| + 1) * (|Entries(t)| + 1)
  {
    FibBound(t);
    FibSquare(Height(t));
    Square(Fib(Height(t) + 2), |Entries(t)| + 1);
  }
}
