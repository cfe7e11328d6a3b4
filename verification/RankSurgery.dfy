/**
 What each change of the links does to the tree, as relations between two states: every
 clause gives one field of every node in terms of the old fields.
 */
module RankSurgery {
  import opened RankNodes

  /**
   A left rotation: x goes below its right child y, the inner subtree of y becomes the
   right subtree of x, and y takes the place of x below x's parent.
   */
  twostate predicate TurnedLeft<T>(h: Node<T>, nodes: set<Node<T>>, x: Node<T>, y: Node<T>)
    reads h`parent, nodes`left, nodes`right, nodes`parent, {x, y}`left, {x, y}`right, {x, y}`parent
  {
    && old(x in nodes && y in nodes && x.right == y) && x != y && x != old(x.parent) && y != old(x.parent)
    && x.left == old(x.left) && x.right == old(y.left) && y.left == x && y.right == old(y.right)
    && h.parent == (if old(h.parent) == x then y else old(h.parent))
    && (forall n {:trigger n.left} | n in nodes && n != x && n != y ::
          n.left == if n == old(x.parent) && old(n.left) == x then y else old(n.left))
    && (forall n {:trigger n.right} | n in nodes && n != x && n != y ::
          n.right == if n == old(x.parent) && old(n.right) == x then y else old(n.right))
    && (forall n {:trigger n.parent} | n in nodes ::
          n.parent == if n == x then y else if n == y then old(x.parent) else if n == old(y.left) then x else old(n.parent))
  }

  /** The same, and y takes over the interval of x, which keeps what is left of it. */
  twostate predicate RotatedLeft<T>(h: Node<T>, nodes: set<Node<T>>, x: Node<T>, y: Node<T>)
    reads h, nodes, x, y
  {
    && TurnedLeft(h, nodes, x, y)
    && (forall n {:trigger n.lo} | n in nodes :: n.lo == if n == y then old(x.lo) else old(n.lo))
    && (forall n {:trigger n.hi} | n in nodes ::
          n.hi == if n == y then old(x.hi) else if n == x then old(y.at) else old(n.hi))
  }

  /** The mirror image of TurnedLeft. */
  twostate predicate TurnedRight<T>(h: Node<T>, nodes: set<Node<T>>, x: Node<T>, y: Node<T>)
    reads h`parent, nodes`left, nodes`right, nodes`parent, {x, y}`left, {x, y}`right, {x, y}`parent
  {
    && old(x in nodes && y in nodes && x.left == y) && x != y && x != old(x.parent) && y != old(x.parent)
    && x.right == old(x.right) && x.left == old(y.right) && y.right == x && y.left == old(y.left)
    && h.parent == (if old(h.parent) == x then y else old(h.parent))
    && (forall n {:trigger n.left} | n in nodes && n != x && n != y ::
          n.left == if n == old(x.parent) && old(n.left) == x then y else old(n.left))
    && (forall n {:trigger n.right} | n in nodes && n != x && n != y ::
          n.right == if n == old(x.parent) && old(n.right) == x then y else old(n.right))
    && (forall n {:trigger n.parent} | n in nodes ::
          n.parent == if n == x then y else if n == y then old(x.parent) else if n == old(y.right) then x else old(n.parent))
  }

  /** The same, and y takes over the interval of x, which keeps what is left of it. */
  twostate predicate RotatedRight<T>(h: Node<T>, nodes: set<Node<T>>, x: Node<T>, y: Node<T>)
    reads h, nodes, x, y
  {
    && TurnedRight(h, nodes, x, y)
    && (forall n {:trigger n.hi} | n in nodes :: n.hi == if n == y then old(x.hi) else old(n.hi))
    && (forall n {:trigger n.lo} | n in nodes ::
          n.lo == if n == y then old(x.lo) else if n == x then old(y.at) + 1 else old(n.lo))
  }

  /** z is gone; x, its only child if it had one, took its place. `nodes` are the nodes that are left. */
  twostate predicate Unlinked<T>(h: Node<T>, nodes: set<Node<T>>, z: Node<T>, x: Node?<T>)
    reads h, nodes
  {
    && h.parent == (if old(h.parent) == z then x else old(h.parent))
    && (forall n {:trigger n.left} | n in nodes ::
          n.left == if n == old(z.parent) && old(n.left) == z then x else old(n.left))
    && (forall n {:trigger n.right} | n in nodes ::
          n.right == if n == old(z.parent) && old(n.right) == z then x else old(n.right))
    && (forall n {:trigger n.parent} | n in nodes :: n.parent == if n == x then old(z.parent) else old(n.parent))
  }

  /**
   z is gone; y, its in-order successor, took its place, and the right child of y took the
   place of y. y had no left child.
   */
  twostate predicate Relinked<T>(h: Node<T>, nodes: set<Node<T>>, z: Node<T>, y: Node<T>)
    reads h, nodes
  {
    && h.parent == (if old(h.parent) == z then y else old(h.parent))
    && (forall n {:trigger n.left} | n in nodes && n != z ::
          n.left == if n == y then old(z.left) else if n == old(y.parent) then old(y.right)
                    else if n == old(z.parent) && old(n.left) == z then y else old(n.left))
    && (forall n {:trigger n.right} | n in nodes && n != z ::
          n.right == if n == y then (if old(z.right) == y then old(y.right) else old(z.right))
                     else if n == old(z.parent) && old(n.right) == z then y else old(n.right))
    && (forall n {:trigger n.parent} | n in nodes && n != z ::
          n.parent == if n == y then old(z.parent) else if n == old(z.left) || n == old(z.right) then y
                      else if n == old(y.right) then (if old(z.right) == y then y else old(y.parent)) else old(n.parent))
  }

  /** The places after index k was taken out of the in-order sequence; y moved to index k - 1 if it is a node. */
  twostate predicate ClosedGap<T>(nodes: set<Node<T>>, k: int)
    reads nodes
  {
    && (forall n {:trigger n.at} | n in nodes :: n.at == old(n.at) - (if old(n.at) > k then 1 else 0))
    && (forall n {:trigger n.lo} | n in nodes :: n.lo == old(n.lo) - (if old(n.lo) > k then 1 else 0))
    && (forall n {:trigger n.hi} | n in nodes :: n.hi == old(n.hi) - (if old(n.hi) > k then 1 else 0))
  }

  /** The places after y took over the place of z, whose successor it was. */
  twostate predicate ClosedSuccessorGap<T>(nodes: set<Node<T>>, z: Node<T>, y: Node<T>)
    reads nodes
  {
    && (forall n {:trigger n.at} | n in nodes ::
          n.at == if n == y then old(z.at) else old(n.at) - (if old(n.at) > old(z.at) + 1 then 1 else 0))
    && (forall n {:trigger n.lo} | n in nodes ::
          n.lo == if n == y then old(z.lo) else old(n.lo) - (if old(n.lo) > old(z.at) + 1 then 1 else 0))
    && (forall n {:trigger n.hi} | n in nodes ::
          n.hi == if n == y then old(z.hi) - 1 else old(n.hi) - (if old(n.hi) > old(z.at) + 1 then 1 else 0))
  }

  /**
   The places after a gap was opened at index k. Interval ends from j on move: j is k when
   the new leaf becomes a right child, and k + 1 when it becomes a left child.
   */
  twostate predicate OpenedGap<T>(nodes: set<Node<T>>, k: int, j: int)
    reads nodes
  {
    && (forall n {:trigger n.at} | n in nodes :: n.at == old(n.at) + (if old(n.at) >= k then 1 else 0))
    && (forall n {:trigger n.lo} | n in nodes :: n.lo == old(n.lo) + (if old(n.lo) >= j then 1 else 0))
    && (forall n {:trigger n.hi} | n in nodes :: n.hi == old(n.hi) + (if old(n.hi) >= j then 1 else 0))
  }
}
