/**
 What the local invariant of the tree means: it is connected here with the in-order
 sequence, the black heights and the depth of the tree as recursion over the links gives
 them, and with what the promised meaning of rank and select is.
 */
module RankTheory {
  import opened RankNodes
  import opened RankSets
  import opened Arithmetic

  // ---------- The in-order sequence ----------

  /** The in-order traversal of the subtree of n. Only links matter for the result; places show that it ends. */
  ghost function InOrder<T(!new)>(s: RankSet<T>, n: Node?<T>): seq<Node<T>>
    requires Shape(s.header, s.nodes, s.order) && (n == null || n in s.nodes)
    reads s, s.header, s.nodes
    decreases if n == null then 0 else n.hi - n.lo
  {
    if n == null then [] else
      assert NodeOk(n, s.header, s.nodes, s.order);
      assert n.left != null ==> NodeOk(n.left, s.header, s.nodes, s.order);
      assert n.right != null ==> NodeOk(n.right, s.header, s.nodes, s.order);
      InOrder(s, n.left) + [n] + InOrder(s, n.right)
  }

  lemma {:induction false} InOrderIsInterval<T(!new)>(s: RankSet<T>, n: Node<T>)
    requires Shape(s.header, s.nodes, s.order) && n in s.nodes
    ensures 0 <= n.lo <= n.hi <= |s.order| && InOrder(s, n) == s.order[n.lo..n.hi]
    decreases n.hi - n.lo
  {
    assert NodeOk(n, s.header, s.nodes, s.order);
    if n.left != null {
      assert NodeOk(n.left, s.header, s.nodes, s.order);
      InOrderIsInterval(s, n.left);
    }
    if n.right != null {
      assert NodeOk(n.right, s.header, s.nodes, s.order);
      InOrderIsInterval(s, n.right);
    }
    IntervalInParts(s.order, n.lo, n.at, n.hi);
  }

  lemma IntervalInParts<X>(order: seq<X>, lo: int, at: int, hi: int)
    requires 0 <= lo <= at < hi <= |order|
    ensures order[lo..hi] == order[lo..at] + [order[at]] + order[at + 1..hi]
  {
  }

  /** The sequence that every operation keeps track of is the in-order traversal of the whole tree. */
  lemma InOrderOfRoot<T(!new)>(s: RankSet<T>)
    requires Shape(s.header, s.nodes, s.order)
    ensures InOrder(s, s.header.parent) == s.order
  {
    if s.header.parent != null {
      InOrderIsInterval(s, s.header.parent);
    }
  }

  // ---------- Black heights and depth ----------

  ghost function Child<T(!new)>(n: Node<T>, goLeft: bool): Node?<T>
    reads n
  {
    if goLeft then n.left else n.right
  }

  /** The path (true is left) leads from n to a missing child. */
  ghost predicate LeafPath<T(!new)>(s: RankSet<T>, n: Node?<T>, path: seq<bool>)
    requires Shape(s.header, s.nodes, s.order) && (n == null || n in s.nodes)
    reads s, s.header, s.nodes
    decreases |path|
  {
    if n == null then path == []
    else if path == [] then false
    else
      assert NodeOk(n, s.header, s.nodes, s.order);
      LeafPath(s, Child(n, path[0]), path[1..])
  }

  /** The number of black nodes on a path. */
  ghost function BlacksOn<T(!new)>(s: RankSet<T>, n: Node?<T>, path: seq<bool>): nat
    requires Shape(s.header, s.nodes, s.order) && (n == null || n in s.nodes) && LeafPath(s, n, path)
    reads s, s.header, s.nodes
    decreases |path|
  {
    if n == null then 0
    else
      assert NodeOk(n, s.header, s.nodes, s.order);
      (if n.isRed then 0 else 1) + BlacksOn(s, Child(n, path[0]), path[1..])
  }

  /** Every path down from n has as many black nodes as n.bh says, and at most one red node between any two. */
  lemma {:induction false} PathFromNode<T(!new)>(s: RankSet<T>, n: Node?<T>, path: seq<bool>)
    requires s.Balanced() && (n == null || n in s.nodes) && LeafPath(s, n, path)
    ensures BlacksOn(s, n, path) == Bh(n, s.nodes)
    ensures |path| <= 2 * Bh(n, s.nodes) + (if n != null && n.isRed then 1 else 0)
    decreases |path|
  {
    if n != null {
      assert NodeOk(n, s.header, s.nodes, s.order) && BhOk(n, s.nodes);
      var c := Child(n, path[0]);
      assert c != null ==> RedOk(c, s.header, s.nodes);
      PathFromNode(s, c, path[1..]);
    }
  }

  /** A subtree of black height b has at least 2^b - 1 nodes. */
  lemma {:induction false} BlackHeightBoundsSize<T(!new)>(s: RankSet<T>, n: Node?<T>)
    requires s.Balanced() && (n == null || n in s.nodes)
    ensures Pow2(Bh(n, s.nodes)) <= (if n == null then 0 else n.hi - n.lo) + 1
    decreases if n == null then 0 else n.hi - n.lo
  {
    if n != null {
      assert NodeOk(n, s.header, s.nodes, s.order) && BhOk(n, s.nodes);
      assert n.left != null ==> NodeOk(n.left, s.header, s.nodes, s.order);
      assert n.right != null ==> NodeOk(n.right, s.header, s.nodes, s.order);
      BlackHeightBoundsSize(s, n.left);
      BlackHeightBoundsSize(s, n.right);
    }
  }

  /**
   All paths from the root to a missing child have the same number of black nodes, and no
   path is long: a path of h nodes needs a tree of n nodes with n + 1 >= 2^(h/2), rounded up.
   */
  lemma TreeIsBalanced<T(!new)>(s: RankSet<T>, path: seq<bool>, other: seq<bool>)
    requires s.Balanced()
    requires LeafPath(s, s.header.parent, path) && LeafPath(s, s.header.parent, other)
    ensures BlacksOn(s, s.header.parent, path) == BlacksOn(s, s.header.parent, other)
    ensures Pow2((|path| + 1) / 2) <= |s.order| + 1
  {
    var root := s.header.parent;
    PathFromNode(s, root, path);
    PathFromNode(s, root, other);
    BlackHeightBoundsSize(s, root);
    if root != null {
      assert NodeOk(root, s.header, s.nodes, s.order) && RedOk(root, s.header, s.nodes);
    }
    Pow2Monotonic((|path| + 1) / 2, Bh(root, s.nodes));
  }

  // ---------- Rank and select ----------

  /** The number of elements less than v, counted one by one. */
  ghost function Smaller<T(!new)>(less: (T, T) -> bool, order: seq<Node<T>>, v: T): nat
  {
    if order == [] then 0
    else
      var last := |order| - 1;
      Smaller(less, order[..last], v) + (if less(order[last].value, v) then 1 else 0)
  }

  /** The lower bound of v, which is what RankNode returns, is the number of elements less than v. */
  lemma {:induction false} RankCountsSmaller<T(!new)>(less: (T, T) -> bool, order: seq<Node<T>>, v: T, k: int)
    requires LowerBoundAt(less, order, v, k)
    ensures k == Smaller(less, order, v)
  {
    if order != [] {
      var last := |order| - 1;
      assert less(order[last].value, v) <==> last < k;
      RankCountsSmaller(less, order[..last], v, if k > last then last else k);
    }
  }

  /** rank undoes select: the k-th element has exactly k smaller ones. */
  lemma RankOfSelected<T(!new)>(less: (T, T) -> bool, order: seq<Node<T>>, k: int)
    requires StrictWeakOrder(less) && Sorted(less, order) && 0 <= k < |order|
    ensures LowerBoundAt(less, order, order[k].value, k)
  {
    forall i {:trigger order[i]} | 0 <= i < |order| ensures less(order[i].value, order[k].value) <==> i < k {
      if k < i {
        assert less(order[k].value, order[i].value);
      }
    }
  }

  /** select undoes rank on members: the element at v's rank is the one equivalent to v. */
  lemma SelectOfRank<T(!new)>(less: (T, T) -> bool, order: seq<Node<T>>, v: T, k: int, i: int)
    requires StrictWeakOrder(less) && Sorted(less, order) && LowerBoundAt(less, order, v, k)
    requires 0 <= i < |order| && !less(order[i].value, v) && !less(v, order[i].value)
    ensures k == i
  {
    forall j {:trigger order[j]} | 0 <= j < |order| ensures less(order[j].value, v) <==> j < i {
      assert j < i ==> less(order[j].value, order[i].value);
      assert i < j ==> less(order[i].value, order[j].value);
    }
    RankCountsSmaller(less, order, v, i);
    RankCountsSmaller(less, order, v, k);
  }

  /** Upper and lower bound of v enclose the elements equivalent to v, of which there is at most one. */
  lemma BoundsEncloseEquals<T(!new)>(less: (T, T) -> bool, order: seq<Node<T>>, v: T, lower: int, upper: int)
    requires StrictWeakOrder(less) && Sorted(less, order)
    requires LowerBoundAt(less, order, v, lower) && UpperBoundAt(less, order, v, upper)
    ensures lower <= upper <= lower + 1
    ensures forall i {:trigger order[i]} | 0 <= i < |order| ::
      (!less(order[i].value, v) && !less(v, order[i].value)) <==> lower <= i < upper
  {
    if lower > 0 {
      assert less(order[lower - 1].value, v);
    }
    if lower + 1 < |order| {
      assert less(order[lower].value, order[lower + 1].value) && !less(order[lower].value, v);
    }
  }

  // ---------- Iterators ----------

  lemma AtOwnIndex<T(!new)>(s: RankSet<T>, n: Node<T>)
    requires s.Valid() && n in s.nodes
    ensures 0 <= n.at < |s.order| && s.order[n.at] == n
  {
    assert NodeOk(n, s.header, s.nodes, s.order);
  }

  /** From begin to end, step by step: every node once, in order. */
  method Walk<T(!new)>(s: RankSet<T>) returns (visited: seq<Node<T>>)
    requires s.Valid()
    ensures visited == s.order
  {
    visited := [];
    var n := s.header.left;
    while n != s.header
      invariant |visited| <= |s.order| && visited == s.order[..|visited|] && n == s.NodeAt(|visited|)
      decreases |s.order| - |visited|
    {
      visited := visited + [n];
      n := s.Increment(n);
    }
  }

  /** From end to begin, step by step: every node once, in reverse. */
  method WalkBack<T(!new)>(s: RankSet<T>) returns (visited: seq<Node<T>>)
    requires s.Valid()
    ensures visited == s.order
  {
    visited := [];
    var n := s.header;
    while n != s.header.left
      invariant |visited| <= |s.order| && visited == s.order[|s.order| - |visited|..]
      invariant n == s.NodeAt(|s.order| - |visited|)
      decreases |s.order| - |visited|
    {
      n := s.Decrement(n);
      visited := [n] + visited;
    }
  }

  /** A step back undoes a step forward, also from the end. */
  method StepAndBack<T(!new)>(s: RankSet<T>, n: Node<T>) returns (back: Node<T>)
    requires s.Valid() && n in s.nodes
    ensures back == n
  {
    AtOwnIndex(s, n);
    back := s.Increment(n);
    back := s.Decrement(back);
  }

  /** A step forward undoes a step back, from everywhere but the first node. */
  method BackAndStep<T(!new)>(s: RankSet<T>, n: Node<T>) returns (again: Node<T>)
    requires s.Valid() && s.order != [] && n in s.nodes + {s.header} && n != s.header.left
    ensures again == n
  {
    if n != s.header {
      AtOwnIndex(s, n);
    }
    again := s.Decrement(n);
    again := s.Increment(again);
  }
}
