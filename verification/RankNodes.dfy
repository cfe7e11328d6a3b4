/**
 The nodes of the order-statistic red-black tree, and the invariant of the tree as a
 conjunction of statements about one node and its neighbours.

 Every node carries its place in the in-order sequence of the whole tree as ghost state:
 its index `at`, and the interval [lo, hi) of the indices that its subtree covers. `bh` is
 the number of black nodes on a path from the node down to a missing child. With these
 four numbers in place no predicate below is recursive, and a rotation changes the ghost
 state of two nodes only. RankTheory.dfy connects them with their recursive definitions.
 */
module RankNodes {

  class Node<T> {
    var isRed: bool
    var parent: Node?<T>
    var left: Node?<T>
    var right: Node?<T>
    var nodeCount: nat
    const value: T
    ghost var at: int
    ghost var lo: int
    ghost var hi: int
    ghost var bh: nat

    constructor (v: T, p: Node?<T>)
      ensures value == v && parent == p
      ensures isRed && left == null && right == null && nodeCount == 0 && bh == 0
    {
      value, parent := v, p;
      isRed, left, right, nodeCount, bh := true, null, null, 0, 0;
    }
  }

  /** t is s with x inserted at index k. */
  ghost predicate Inserted<X>(s: seq<X>, k: int, x: X, t: seq<X>)
  {
    && 0 <= k <= |s| && |t| == |s| + 1
    && (forall i {:trigger t[i]} | 0 <= i < |t| :: t[i] == if i < k then s[i] else if i == k then x else s[i - 1])
  }

  /** t is s without the element at index k. */
  ghost predicate Removed<X>(s: seq<X>, k: int, t: seq<X>)
  {
    && 0 <= k < |s| && |t| == |s| - 1
    && (forall i {:trigger t[i]} | 0 <= i < |t| :: t[i] == if i < k then s[i] else s[i + 1])
  }

  ghost function Just<T>(n: Node?<T>): set<Node<T>> {
    if n == null then {} else {n}
  }

  /** The node is the element of the in-order sequence at its own index. */
  ghost predicate AtOk<T>(n: Node<T>, order: seq<Node<T>>)
    reads n`at, n`lo, n`hi
  {
    0 <= n.lo <= n.at < n.hi <= |order| && order[n.at] == n
  }

  /** `order` lists the nodes, each at its own index. */
  ghost predicate Indexed<T>(nodes: set<Node<T>>, order: seq<Node<T>>)
    reads nodes`at, nodes`lo, nodes`hi
  {
    && (forall n {:trigger AtOk(n, order)} | n in nodes :: AtOk(n, order))
    && (forall i {:trigger order[i]} | 0 <= i < |order| :: order[i] in nodes && order[i].at == i)
  }

  /** The index intervals of n and of its children fit together. */
  ghost predicate PlaceOk<T>(n: Node<T>, nodes: set<Node<T>>, order: seq<Node<T>>)
    requires n in nodes
    reads nodes`left, nodes`right, nodes`at, nodes`lo, nodes`hi
  {
    && AtOk(n, order)
    && (if n.left in nodes then n.left.lo == n.lo && n.left.hi == n.at else n.lo == n.at)
    && (if n.right in nodes then n.right.lo == n.at + 1 && n.right.hi == n.hi else n.hi == n.at + 1)
  }

  /** Parents and children of n name each other; `h` is the header, the parent of the root. */
  ghost predicate LinkOk<T>(n: Node<T>, h: Node<T>, nodes: set<Node<T>>)
    requires n in nodes
    reads h`parent, nodes`left, nodes`right, nodes`parent
  {
    && (n.left != null ==> n.left in nodes && n.left.parent == n)
    && (n.right != null ==> n.right in nodes && n.right.parent == n)
    && (n.parent == h <==> h.parent == n)
    && (n.parent != h ==> n.parent in nodes && (n.parent.left == n || n.parent.right == n))
  }

  ghost predicate NodeOk<T>(n: Node<T>, h: Node<T>, nodes: set<Node<T>>, order: seq<Node<T>>)
    requires n in nodes
    reads h`parent, nodes`left, nodes`right, nodes`parent, nodes`at, nodes`lo, nodes`hi
  {
    LinkOk(n, h, nodes) && PlaceOk(n, nodes, order)
  }

  /** The nodes form one binary tree below the header, and `order` is its in-order sequence. */
  ghost predicate Shape<T>(h: Node<T>, nodes: set<Node<T>>, order: seq<Node<T>>)
    reads h`parent, nodes`left, nodes`right, nodes`parent, nodes`at, nodes`lo, nodes`hi
  {
    && h !in nodes
    && (if h.parent == null then order == []
        else h.parent in nodes && h.parent.lo == 0 && h.parent.hi == |order|)
    && (forall n {:trigger NodeOk(n, h, nodes, order)} | n in nodes :: NodeOk(n, h, nodes, order))
    && Indexed(nodes, order)
  }

  ghost function Count<T>(n: Node?<T>, nodes: set<Node<T>>): nat
    reads nodes`nodeCount
  {
    if n in nodes then n.nodeCount else 0
  }

  ghost predicate CountOk<T>(n: Node<T>, nodes: set<Node<T>>)
    requires n in nodes
    reads nodes`left, nodes`right, nodes`nodeCount
  {
    n.nodeCount == Count(n.left, nodes) + Count(n.right, nodes) + 1
  }

  /** Every subtree count is right. */
  ghost predicate Counts<T>(nodes: set<Node<T>>)
    reads nodes`left, nodes`right, nodes`nodeCount
  {
    forall n {:trigger CountOk(n, nodes)} | n in nodes :: CountOk(n, nodes)
  }

  /** The subtree of n covers index i. */
  ghost predicate Covers<T>(n: Node<T>, i: int)
    reads n`lo, n`hi
  {
    n.lo <= i < n.hi
  }

  /** Every subtree count is right, except possibly those of c and of its ancestors. */
  ghost predicate CountsAside<T>(nodes: set<Node<T>>, c: Node<T>)
    reads nodes`left, nodes`right, nodes`nodeCount, nodes`lo, nodes`hi, c`at
  {
    forall n {:trigger CountOk(n, nodes)} | n in nodes && (c in nodes ==> !Covers(n, c.at)) :: CountOk(n, nodes)
  }

  ghost function Bh<T>(n: Node?<T>, nodes: set<Node<T>>): nat
    reads nodes`bh
  {
    if n in nodes then n.bh else 0
  }

  /** Both subtrees have the same black height. */
  ghost predicate BhOk<T>(n: Node<T>, nodes: set<Node<T>>)
    requires n in nodes
    reads nodes`left, nodes`right, nodes`isRed, nodes`bh
  {
    Bh(n.left, nodes) == Bh(n.right, nodes) && n.bh == Bh(n.left, nodes) + (if n.isRed then 0 else 1)
  }

  /** No node is short of black nodes on one side, except possibly `short`. */
  ghost predicate Blacks<T>(nodes: set<Node<T>>, short: Node?<T>)
    reads nodes`left, nodes`right, nodes`isRed, nodes`bh
  {
    forall n {:trigger BhOk(n, nodes)} | n in nodes && n != short :: BhOk(n, nodes)
  }

  /** No red node below a red one. The header is red, so this makes the root black too. */
  ghost predicate RedOk<T>(n: Node<T>, h: Node<T>, nodes: set<Node<T>>)
    requires n in nodes
    reads nodes`parent, nodes`isRed
  {
    n.isRed ==> n.parent != h && (n.parent in nodes ==> !n.parent.isRed)
  }

  ghost predicate Reds<T>(h: Node<T>, nodes: set<Node<T>>, suspect: Node?<T>)
    reads nodes`parent, nodes`isRed
  {
    forall n {:trigger RedOk(n, h, nodes)} | n in nodes && n != suspect :: RedOk(n, h, nodes)
  }

  /** What std::less<T> and its replacements promise. */
  ghost predicate StrictWeakOrder<T(!new)>(less: (T, T) -> bool)
  {
    && (forall a, b :: less(a, b) ==> !less(b, a))
    && (forall a, b, c {:trigger less(a, b), less(a, c)} {:trigger less(a, b), less(c, b)} ::
          less(a, b) ==> less(a, c) || less(c, b))
  }

  ghost predicate Sorted<T>(less: (T, T) -> bool, order: seq<Node<T>>)
  {
    forall i, j {:trigger order[i], order[j]} | 0 <= i < j < |order| :: less(order[i].value, order[j].value)
  }

  /** k is the number of elements less than v, and they come first. */
  ghost predicate LowerBoundAt<T>(less: (T, T) -> bool, order: seq<Node<T>>, v: T, k: int)
  {
    && 0 <= k <= |order|
    && (forall i {:trigger order[i]} | 0 <= i < |order| :: less(order[i].value, v) <==> i < k)
  }

  /** k is the number of elements that v is not less than, and they come first. */
  ghost predicate UpperBoundAt<T>(less: (T, T) -> bool, order: seq<Node<T>>, v: T, k: int)
  {
    && 0 <= k <= |order|
    && (forall i {:trigger order[i]} | 0 <= i < |order| :: less(v, order[i].value) <==> i >= k)
  }
}
