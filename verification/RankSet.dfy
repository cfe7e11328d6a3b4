/**
 The order-statistic red-black tree of src/brickred/rank_set.h: a sentinel header whose
 parent, left and right are the root, the first and the last node, parent links, and a
 subtree count in every node.

 Each change of the tree is told in steps, each a method: the pointer assignments of the
 source with what they do to the nodes at hand, then the same with its effect on every
 node and on the ghost places, then that the invariant of the tree survives it.
 */
module RankSets {
  import opened RankNodes
  import opened RankSurgery

  class RankSet<T(!new)> {
    const header: Node<T>
    const less: (T, T) -> bool
    /** The nodes of the tree, without the header. */
    ghost var nodes: set<Node<T>>
    /** The nodes in order. */
    ghost var order: seq<Node<T>>

    /** Everything but the root's ancestors: shape, counts and the two red-black rules. */
    ghost predicate Balanced()
      reads this, header`parent, nodes
    {
      && Shape(header, nodes, order) && Counts(nodes)
      && Blacks(nodes, null) && Reds(header, nodes, null)
    }

    /** The node at an in-order index, or the header when there is none. */
    ghost function NodeAt(i: int): Node<T>
      reads this
    {
      if 0 <= i < |order| then order[i] else header
    }

    ghost predicate HeaderOk()
      reads this, header
    {
      header.isRed && header.nodeCount == |order| && header.left == NodeAt(0) && header.right == NodeAt(|order| - 1)
    }

    ghost predicate Valid()
      reads this, header, nodes
    {
      Balanced() && HeaderOk() && StrictWeakOrder(less) && Sorted(less, order)
    }

    constructor (lessThan: (T, T) -> bool, filler: T)
      requires StrictWeakOrder(lessThan)
      ensures Valid() && order == [] && nodes == {} && less == lessThan && fresh(header)
    {
      less := lessThan;
      var h := new Node(filler, null);
      header := h;
      nodes, order := {}, [];
      new;
      ResetHeaderNode();
    }

    method ResetHeaderNode()
      modifies header, `nodes, `order
      ensures nodes == {} && order == [] && header.parent == null && HeaderOk()
    {
      header.isRed := true;
      header.parent := null;
      header.left := header;
      header.right := header;
      header.nodeCount := 0;
      nodes, order := {}, [];
    }

    // ---------- Counts ----------

    /** Recomputes the subtree count of n from its children. */
    method UpdateNodeCount(n: Node<T>)
      requires n.left != n && n.right != n
      modifies n`nodeCount
      ensures n.nodeCount == (if n.left == null then 0 else n.left.nodeCount) + (if n.right == null then 0 else n.right.nodeCount) + 1
    {
      var leftCount := if n.left == null then 0 else n.left.nodeCount;
      var rightCount := if n.right == null then 0 else n.right.nodeCount;
      n.nodeCount := leftCount + rightCount + 1;
    }

    /** A subtree that covers c but is not c's own covers the parent of c as well. */
    lemma {:induction false} CoversParent(m: Node<T>, c: Node<T>)
      requires Shape(header, nodes, order) && m in nodes && c in nodes && m != c && Covers(m, c.at)
      ensures c.parent in nodes && Covers(m, c.parent.at)
      decreases m.hi - m.lo
    {
      assert NodeOk(m, header, nodes, order);
      assert NodeOk(c, header, nodes, order);
      var child := if c.at < m.at then m.left else m.right;
      if child != c {
        assert NodeOk(child, header, nodes, order);
        CoversParent(child, c);
      }
    }

    /** Recomputing the lowest count that may be wrong leaves only those above it. */
    method UpdateNodeCountUp(n: Node<T>) returns (p: Node<T>)
      requires Shape(header, nodes, order) && n in nodes && CountsAside(nodes, n)
      modifies n`nodeCount
      ensures p == n.parent && CountsAside(nodes, p)
      ensures p == header || (p in nodes && p.hi - p.lo > n.hi - n.lo)
    {
      assert NodeOk(n, header, nodes, order);
      assert n.parent != header ==> NodeOk(n.parent, header, nodes, order);
      p := n.parent;
      UpdateNodeCount(n);
      forall q | q in nodes && (p in nodes ==> !Covers(q, p.at)) ensures CountOk(q, nodes) {
        assert old(NodeOk(q, header, nodes, order));
        if q != n {
          if Covers(q, n.at) { CoversParent(q, n); }
          assert old(CountOk(q, nodes));
        }
      }
    }

    /** Recomputes the subtree counts from start up to the root; only those may be wrong. */
    method UpdateNodeCountToTop(start: Node<T>)
      requires Shape(header, nodes, order) && CountsAside(nodes, start) && (start == header || start in nodes)
      modifies nodes`nodeCount
      ensures Counts(nodes)
    {
      var n := start;
      while n != header
        invariant n == header || n in nodes
        invariant CountsAside(nodes, n)
        decreases if n == header then 0 else |order| + 1 - (n.hi - n.lo)
      {
        assert NodeOk(n, header, nodes, order);
        n := UpdateNodeCountUp(n);
      }
    }

    // ---------- Rotations ----------

    /** Makes d take the place of c below p. */
    method ReplaceChild(p: Node<T>, c: Node<T>, d: Node?<T>)
      requires header.parent == c || p != header
      modifies (if header.parent == c then {header} else {})`parent
      modifies (if header.parent == c then {} else {p})`left, (if header.parent == c then {} else {p})`right
      ensures old(header.parent) == c ==> header.parent == d
      ensures old(header.parent) != c ==>
        if old(p.left) == c then p.left == d && p.right == old(p.right) else p.left == old(p.left) && p.right == d
    {
      if header.parent == c {
        header.parent := d;
      } else if p.left == c {
        p.left := d;
      } else {
        p.right := d;
      }
    }

    /** The pointer changes of a left rotation on x, and what they do to the nodes next to x. */
    method RotateLeftLinks(x: Node<T>)
      requires header !in nodes && x in nodes && NodeOk(x, header, nodes, order)
      requires x.right != null && NodeOk(x.right, header, nodes, order)
      requires x.parent != header ==> NodeOk(x.parent, header, nodes, order)
      modifies x`right, x.right`left, {x, x.right}`parent, Just(x.right.left)`parent
      modifies header`parent, ({x.parent} - {header})`left, ({x.parent} - {header})`right
      modifies {x, x.right}`nodeCount
      ensures var y, c, p := old(x.right), old(x.right.left), old(x.parent);
        && x.right == c && y.left == x && x.parent == y && y.parent == p && (c != null ==> c.parent == x)
        && header.parent == (if old(header.parent) == x then y else old(header.parent))
        && p.left == (if old(header.parent) != x && old(p.left) == x then y else old(p.left))
        && p.right == (if old(header.parent) != x && old(p.right) == x then y else old(p.right))
        && CountOk(x, nodes) && CountOk(y, nodes)
    {
      var y := x.right;
      x.right := y.left;
      if y.left != null {
        y.left.parent := x;
      }
      y.parent := x.parent;
      ReplaceChild(x.parent, x, y);
      y.left := x;
      x.parent := y;
      UpdateNodeCount(x);
      UpdateNodeCount(x.parent);
    }

    /** The same rotation, with its effect on the links told for every node. */
    method RotateLeftRelated(x: Node<T>)
      requires Shape(header, nodes, order) && x in nodes && x.right != null
      modifies nodes`left, nodes`right, nodes`parent, header`parent, {x, x.right}`nodeCount
      ensures TurnedLeft(header, nodes, x, old(x.right)) && CountOk(x, nodes) && CountOk(old(x.right), nodes)
    {
      assert NodeOk(x, header, nodes, order);
      assert NodeOk(x.right, header, nodes, order);
      assert x.parent != header ==> NodeOk(x.parent, header, nodes, order);
      RotateLeftLinks(x);
    }

    /** The same, and its effect on the places. */
    method RotateLeftPlaced(x: Node<T>)
      requires Shape(header, nodes, order) && x in nodes && x.right != null
      modifies nodes`left, nodes`right, nodes`parent, header`parent, {x, x.right}`lo, {x, x.right}`hi, {x, x.right}`nodeCount
      ensures RotatedLeft(header, nodes, x, old(x.right)) && CountOk(x, nodes) && CountOk(old(x.right), nodes)
    {
      ghost var y := x.right;
      assert NodeOk(x, header, nodes, order);
      RotateLeftRelated(x);
      y.lo, y.hi, x.hi := x.lo, x.hi, y.at;
    }

    /** A left rotation keeps the tree in shape; no node changes its index. */
    method RotateLeftShaped(x: Node<T>)
      requires Shape(header, nodes, order) && x in nodes && x.right != null
      modifies nodes`left, nodes`right, nodes`parent, header`parent, {x, x.right}`lo, {x, x.right}`hi, {x, x.right}`nodeCount
      ensures RotatedLeft(header, nodes, x, old(x.right)) && CountOk(x, nodes) && CountOk(old(x.right), nodes)
      ensures Shape(header, nodes, order)
    {
      ghost var y := x.right;
      assert NodeOk(x, header, nodes, order);
      assert NodeOk(y, header, nodes, order);
      RotateLeftPlaced(x);
      forall n | n in nodes ensures NodeOk(n, header, nodes, order) {
        assert old(NodeOk(n, header, nodes, order));
      }
    }

    /** A left rotation also keeps every subtree count exact. */
    method RotateLeft(x: Node<T>)
      requires Shape(header, nodes, order) && Counts(nodes) && x in nodes && x.right != null
      modifies nodes`left, nodes`right, nodes`parent, header`parent, {x, x.right}`lo, {x, x.right}`hi, {x, x.right}`nodeCount
      ensures RotatedLeft(header, nodes, x, old(x.right))
      ensures Shape(header, nodes, order) && Counts(nodes)
    {
      ghost var y := x.right;
      assert NodeOk(x, header, nodes, order) && CountOk(x, nodes);
      assert NodeOk(y, header, nodes, order) && CountOk(y, nodes);
      RotateLeftShaped(x);
      forall n | n in nodes ensures CountOk(n, nodes) {
        assert old(NodeOk(n, header, nodes, order) && CountOk(n, nodes));
      }
    }

    /** The pointer changes of a right rotation on x, and what they do to the nodes next to x. */
    method RotateRightLinks(x: Node<T>)
      requires header !in nodes && x in nodes && NodeOk(x, header, nodes, order)
      requires x.left != null && NodeOk(x.left, header, nodes, order)
      requires x.parent != header ==> NodeOk(x.parent, header, nodes, order)
      modifies x`left, x.left`right, {x, x.left}`parent, Just(x.left.right)`parent
      modifies header`parent, ({x.parent} - {header})`right, ({x.parent} - {header})`left
      modifies {x, x.left}`nodeCount
      ensures var y, c, p := old(x.left), old(x.left.right), old(x.parent);
        && x.left == c && y.right == x && x.parent == y && y.parent == p && (c != null ==> c.parent == x)
        && header.parent == (if old(header.parent) == x then y else old(header.parent))
        && p.right == (if old(header.parent) != x && old(p.right) == x then y else old(p.right))
        && p.left == (if old(header.parent) != x && old(p.left) == x then y else old(p.left))
        && CountOk(x, nodes) && CountOk(y, nodes)
    {
      var y := x.left;
      x.left := y.right;
      if y.right != null {
        y.right.parent := x;
      }
      y.parent := x.parent;
      ReplaceChild(x.parent, x, y);
      y.right := x;
      x.parent := y;
      UpdateNodeCount(x);
      UpdateNodeCount(x.parent);
    }

    /** The same rotation, with its effect on the links told for every node. */
    method RotateRightRelated(x: Node<T>)
      requires Shape(header, nodes, order) && x in nodes && x.left != null
      modifies nodes`right, nodes`left, nodes`parent, header`parent, {x, x.left}`nodeCount
      ensures TurnedRight(header, nodes, x, old(x.left)) && CountOk(x, nodes) && CountOk(old(x.left), nodes)
    {
      assert NodeOk(x, header, nodes, order);
      assert NodeOk(x.left, header, nodes, order);
      assert x.parent != header ==> NodeOk(x.parent, header, nodes, order);
      RotateRightLinks(x);
    }

    /** The same, and its effect on the places. */
    method RotateRightPlaced(x: Node<T>)
      requires Shape(header, nodes, order) && x in nodes && x.left != null
      modifies nodes`right, nodes`left, nodes`parent, header`parent, {x, x.left}`lo, {x, x.left}`hi, {x, x.left}`nodeCount
      ensures RotatedRight(header, nodes, x, old(x.left)) && CountOk(x, nodes) && CountOk(old(x.left), nodes)
    {
      ghost var y := x.left;
      assert NodeOk(x, header, nodes, order);
      RotateRightRelated(x);
      y.lo, y.hi, x.lo := x.lo, x.hi, y.at + 1;
    }

    /** A right rotation keeps the tree in shape; no node changes its index. */
    method RotateRightShaped(x: Node<T>)
      requires Shape(header, nodes, order) && x in nodes && x.left != null
      modifies nodes`right, nodes`left, nodes`parent, header`parent, {x, x.left}`lo, {x, x.left}`hi, {x, x.left}`nodeCount
      ensures RotatedRight(header, nodes, x, old(x.left)) && CountOk(x, nodes) && CountOk(old(x.left), nodes)
      ensures Shape(header, nodes, order)
    {
      ghost var y := x.left;
      assert NodeOk(x, header, nodes, order);
      assert NodeOk(y, header, nodes, order);
      RotateRightPlaced(x);
      forall n | n in nodes ensures NodeOk(n, header, nodes, order) {
        assert old(NodeOk(n, header, nodes, order));
      }
    }

    /** A right rotation also keeps every subtree count exact. */
    method RotateRight(x: Node<T>)
      requires Shape(header, nodes, order) && Counts(nodes) && x in nodes && x.left != null
      modifies nodes`right, nodes`left, nodes`parent, header`parent, {x, x.left}`lo, {x, x.left}`hi, {x, x.left}`nodeCount
      ensures RotatedRight(header, nodes, x, old(x.left))
      ensures Shape(header, nodes, order) && Counts(nodes)
    {
      ghost var y := x.left;
      assert NodeOk(x, header, nodes, order) && CountOk(x, nodes);
      assert NodeOk(y, header, nodes, order) && CountOk(y, nodes);
      RotateRightShaped(x);
      forall n | n in nodes ensures CountOk(n, nodes) {
        assert old(NodeOk(n, header, nodes, order) && CountOk(n, nodes));
      }
    }

    // ---------- Insertion ----------

    /** All is well, except that the red node x and its parent may both be red, or x may be a red root. */
    ghost predicate InsertInv(x: Node<T>)
      reads this, header`parent, nodes
    {
      && Shape(header, nodes, order) && Counts(nodes)
      && Blacks(nodes, null) && Reds(header, nodes, x) && x in nodes && x.isRed
    }

    method PaintFamily(p: Node<T>, u: Node<T>, g: Node<T>)
      requires p != u && p != g && u != g
      modifies p`isRed, u`isRed, g`isRed, p`bh, u`bh
      ensures !p.isRed && !u.isRed && g.isRed && p.bh == old(p.bh) + 1 && u.bh == old(u.bh) + 1
    {
      p.isRed := false;
      u.isRed := false;
      g.isRed := true;
      p.bh, u.bh := p.bh + 1, u.bh + 1;
    }

    /** Paints b black and r red, just before a rotation that puts b above r. */
    method PaintPair(b: Node<T>, r: Node<T>)
      requires b != r && 0 < r.bh
      modifies b`isRed, r`isRed, b`bh, r`bh
      ensures !b.isRed && r.isRed && b.bh == old(b.bh) + 1 && r.bh == old(r.bh) - 1
    {
      b.isRed := false;
      r.isRed := true;
      b.bh, r.bh := b.bh + 1, r.bh - 1;
    }

    /** Paints n black. */
    method PaintBlack(n: Node<T>)
      modifies n`isRed, n`bh
      ensures !n.isRed && n.bh == old(n.bh) + (if old(n.isRed) then 1 else 0)
    {
      n.bh := n.bh + (if n.isRed then 1 else 0);
      n.isRed := false;
    }

    /** Case 1 of the insertion fixup: the uncle u is red too. The trouble moves up to g. */
    method InsertRecolor(x: Node<T>, p: Node<T>, u: Node<T>, g: Node<T>)
      requires InsertInv(x) && x.parent == p && p in nodes && p.isRed && p.parent == g && g in nodes
      requires (g.left == p && g.right == u) || (g.right == p && g.left == u)
      requires u.isRed
      modifies p`isRed, u`isRed, g`isRed, p`bh, u`bh
      ensures InsertInv(g)
    {
      assert NodeOk(g, header, nodes, order) && NodeOk(p, header, nodes, order) && NodeOk(u, header, nodes, order);
      assert BhOk(g, nodes) && BhOk(p, nodes) && BhOk(u, nodes) && RedOk(p, header, nodes);
      PaintFamily(p, u, g);
      forall n | n in nodes ensures BhOk(n, nodes) && (n != g ==> RedOk(n, header, nodes)) {
        assert old(NodeOk(n, header, nodes, order) && BhOk(n, nodes) && (n != x ==> RedOk(n, header, nodes)));
      }
    }

    method PaintPairRotateRight(b: Node<T>, r: Node<T>)
      requires Shape(header, nodes, order) && Counts(nodes) && r in nodes && r.left == b && b != r && 0 < r.bh
      modifies nodes`left, nodes`right, nodes`parent, header`parent
      modifies {b, r}`lo, {b, r}`hi, {b, r}`nodeCount, {b, r}`isRed, {b, r}`bh
      ensures !b.isRed && r.isRed && b.bh == old(b.bh) + 1 && r.bh == old(r.bh) - 1
      ensures RotatedRight(header, nodes, r, b) && Shape(header, nodes, order) && Counts(nodes)
    {
      PaintPair(b, r);
      RotateRight(r);
    }

    method PaintPairRotateLeft(b: Node<T>, r: Node<T>)
      requires Shape(header, nodes, order) && Counts(nodes) && r in nodes && r.right == b && b != r && 0 < r.bh
      modifies nodes`right, nodes`left, nodes`parent, header`parent
      modifies {b, r}`lo, {b, r}`hi, {b, r}`nodeCount, {b, r}`isRed, {b, r}`bh
      ensures !b.isRed && r.isRed && b.bh == old(b.bh) + 1 && r.bh == old(r.bh) - 1
      ensures RotatedLeft(header, nodes, r, b) && Shape(header, nodes, order) && Counts(nodes)
    {
      PaintPair(b, r);
      RotateLeft(r);
    }

    /** Case 2 of the insertion fixup: x is a right child on the left side. Its parent p is turned below it. */
    method InsertInnerLeft(x: Node<T>, p: Node<T>, g: Node<T>)
      requires InsertInv(x) && x.parent == p && p in nodes && p.isRed && p.parent == g && g in nodes
      requires g.left == p && p.right == x
      modifies nodes`left, nodes`right, nodes`parent, header`parent, {p, x}`lo, {p, x}`hi, {p, x}`nodeCount
      ensures InsertInv(p) && p.parent == x && x.left == p && x.parent == g && g.left == x && g.right == old(g.right)
    {
      assert NodeOk(x, header, nodes, order) && BhOk(x, nodes);
      assert NodeOk(p, header, nodes, order) && BhOk(p, nodes) && RedOk(p, header, nodes);
      assert NodeOk(g, header, nodes, order);
      RotateLeft(p);
      forall n | n in nodes ensures BhOk(n, nodes) && (n != p ==> RedOk(n, header, nodes)) {
        assert old(NodeOk(n, header, nodes, order) && BhOk(n, nodes) && (n != x ==> RedOk(n, header, nodes)));
      }
    }

    /** Case 2 of the insertion fixup: x is a left child on the right side. Its parent p is turned below it. */
    method InsertInnerRight(x: Node<T>, p: Node<T>, g: Node<T>)
      requires InsertInv(x) && x.parent == p && p in nodes && p.isRed && p.parent == g && g in nodes
      requires g.right == p && p.left == x
      modifies nodes`right, nodes`left, nodes`parent, header`parent, {p, x}`lo, {p, x}`hi, {p, x}`nodeCount
      ensures InsertInv(p) && p.parent == x && x.right == p && x.parent == g && g.right == x && g.left == old(g.left)
    {
      assert NodeOk(x, header, nodes, order) && BhOk(x, nodes);
      assert NodeOk(p, header, nodes, order) && BhOk(p, nodes) && RedOk(p, header, nodes);
      assert NodeOk(g, header, nodes, order);
      RotateRight(p);
      forall n | n in nodes ensures BhOk(n, nodes) && (n != p ==> RedOk(n, header, nodes)) {
        assert old(NodeOk(n, header, nodes, order) && BhOk(n, nodes) && (n != x ==> RedOk(n, header, nodes)));
      }
    }

    /** Case 3 of the insertion fixup: x is a left child on the left side. It ends the fixup. */
    method InsertOuterLeft(x: Node<T>, p: Node<T>, g: Node<T>)
      requires InsertInv(x) && x.parent == p && p in nodes && p.isRed && p.parent == g && g in nodes
      requires g.left == p && p.left == x && (g.right != null ==> !g.right.isRed)
      modifies nodes`left, nodes`right, nodes`parent, header`parent
      modifies {p, g}`lo, {p, g}`hi, {p, g}`nodeCount, {p, g}`isRed, {p, g}`bh
      ensures InsertInv(x) && x.parent == p && !p.isRed
    {
      assert NodeOk(x, header, nodes, order);
      assert NodeOk(p, header, nodes, order) && BhOk(p, nodes) && RedOk(p, header, nodes);
      assert NodeOk(g, header, nodes, order) && BhOk(g, nodes);
      PaintPairRotateRight(p, g);
      forall n | n in nodes ensures BhOk(n, nodes) && (n != x ==> RedOk(n, header, nodes)) {
        assert old(NodeOk(n, header, nodes, order) && BhOk(n, nodes) && (n != x ==> RedOk(n, header, nodes)));
      }
    }

    /** Case 3 of the insertion fixup: x is a right child on the right side. It ends the fixup. */
    method InsertOuterRight(x: Node<T>, p: Node<T>, g: Node<T>)
      requires InsertInv(x) && x.parent == p && p in nodes && p.isRed && p.parent == g && g in nodes
      requires g.right == p && p.right == x && (g.left != null ==> !g.left.isRed)
      modifies nodes`right, nodes`left, nodes`parent, header`parent
      modifies {p, g}`lo, {p, g}`hi, {p, g}`nodeCount, {p, g}`isRed, {p, g}`bh
      ensures InsertInv(x) && x.parent == p && !p.isRed
    {
      assert NodeOk(x, header, nodes, order);
      assert NodeOk(p, header, nodes, order) && BhOk(p, nodes) && RedOk(p, header, nodes);
      assert NodeOk(g, header, nodes, order) && BhOk(g, nodes);
      PaintPairRotateLeft(p, g);
      forall n | n in nodes ensures BhOk(n, nodes) && (n != x ==> RedOk(n, header, nodes)) {
        assert old(NodeOk(n, header, nodes, order) && BhOk(n, nodes) && (n != x ==> RedOk(n, header, nodes)));
      }
    }

    /** One round of the insertion fixup: either it ends, or the trouble moves up to a bigger subtree. */
    method InsertFixupStep(start: Node<T>) returns (x: Node<T>)
      requires InsertInv(start) && start != header.parent && start.parent in nodes && start.parent.isRed
      modifies nodes`left, nodes`right, nodes`parent, nodes`nodeCount, nodes`isRed, header`parent
      modifies nodes`lo, nodes`hi, nodes`bh
      ensures InsertInv(x)
      ensures x.hi - x.lo > old(start.hi - start.lo) || (x.parent in nodes && !x.parent.isRed)
    {
      x := start;
      var p := x.parent;
      assert NodeOk(x, header, nodes, order);
      assert NodeOk(p, header, nodes, order) && RedOk(p, header, nodes);
      var g := p.parent;
      assert NodeOk(g, header, nodes, order);
      if p == g.left {
        var u := g.right;
        if u != null && u.isRed {
          InsertRecolor(x, p, u, g);
          x := g;
        } else {
          if x == p.right {
            InsertInnerLeft(x, p, g);
            x, p := p, x;
          }
          InsertOuterLeft(x, p, g);
        }
      } else {
        var u := g.left;
        if u != null && u.isRed {
          InsertRecolor(x, p, u, g);
          x := g;
        } else {
          if x == p.left {
            InsertInnerRight(x, p, g);
            x, p := p, x;
          }
          InsertOuterRight(x, p, g);
        }
      }
    }

    /** Blackening the root takes the last red edge away and makes every path longer by the same amount. */
    method BlackenRoot(r: Node<T>)
      requires Shape(header, nodes, order) && Blacks(nodes, null) && r in nodes && header.parent == r
      requires Reds(header, nodes, r)
      modifies r`isRed, r`bh
      ensures Blacks(nodes, null) && Reds(header, nodes, null)
    {
      assert NodeOk(r, header, nodes, order) && BhOk(r, nodes);
      PaintBlack(r);
      forall n | n in nodes ensures BhOk(n, nodes) && RedOk(n, header, nodes) {
        assert old(NodeOk(n, header, nodes, order) && BhOk(n, nodes) && (n != r ==> RedOk(n, header, nodes)));
      }
    }

    /** Rebalances the tree after the red node start was added to it. The in-order sequence stays. */
    method InsertNodeFixup(start: Node<T>)
      requires InsertInv(start)
      modifies nodes`left, nodes`right, nodes`parent, nodes`nodeCount, nodes`isRed, header`parent
      modifies nodes`lo, nodes`hi, nodes`bh
      ensures Balanced()
    {
      var x := start;
      assert NodeOk(x, header, nodes, order);
      while x != header.parent && x.parent.isRed
        invariant InsertInv(x) && x.parent != null
        decreases if x != header.parent && x.parent.isRed then |order| + 1 - (x.hi - x.lo) else 0
      {
        assert NodeOk(x, header, nodes, order);
        x := InsertFixupStep(x);
        assert NodeOk(x, header, nodes, order);
      }
      UpdateNodeCountToTop(x);
      assert NodeOk(x, header, nodes, order);
      BlackenRoot(header.parent);
    }

    /** Every place from index k on moves up by one, and every interval end from j on. */
    ghost method OpenGap(k: int, j: int)
      modifies nodes`at, nodes`lo, nodes`hi
      ensures OpenedGap(nodes, k, j)
    {
      forall n | n in nodes { n.at := n.at + (if n.at >= k then 1 else 0); }
      forall n | n in nodes { n.lo := n.lo + (if n.lo >= j then 1 else 0); }
      forall n | n in nodes { n.hi := n.hi + (if n.hi >= j then 1 else 0); }
    }

    /** Hangs a new red leaf below m, to its right. */
    method LinkRight(m: Node<T>, v: T) returns (n: Node<T>)
      requires m in nodes && m.right == null && 0 <= m.at < |order|
      modifies m`right, nodes`at, nodes`lo, nodes`hi, `nodes, `order
      ensures fresh(n) && nodes == old(nodes) + {n} && m.right == n
      ensures n.value == v && n.isRed && n.parent == m && n.left == null && n.right == null && n.bh == 0 && n.nodeCount == 0
      ensures var k := old(m.at) + 1;
        Inserted(old(order), k, n, order) && n.at == k && n.lo == k && n.hi == k + 1 && OpenedGap(old(nodes), k, k)
    {
      ghost var k := m.at + 1;
      n := new Node(v, m);
      m.right := n;
      OpenGap(k, k);
      n.at, n.lo, n.hi := k, k, k + 1;
      nodes, order := nodes + {n}, order[..k] + [n] + order[k..];
    }

    method LinkRightIndexed(m: Node<T>, v: T) returns (n: Node<T>)
      requires Indexed(nodes, order) && m in nodes && m.right == null
      modifies m`right, nodes`at, nodes`lo, nodes`hi, `nodes, `order
      ensures fresh(n) && nodes == old(nodes) + {n} && m.right == n
      ensures n.value == v && n.isRed && n.parent == m && n.left == null && n.right == null && n.bh == 0 && n.nodeCount == 0
      ensures var k := old(m.at) + 1;
        Inserted(old(order), k, n, order) && n.at == k && n.lo == k && n.hi == k + 1 && OpenedGap(old(nodes), k, k)
      ensures Indexed(nodes, order)
    {
      assert AtOk(m, order);
      n := LinkRight(m, v);
      forall q | q in nodes ensures AtOk(q, order) {
        if q != n {
          assert old(AtOk(q, order));
        }
      }
    }

    method AttachRightCounted(m: Node<T>, v: T) returns (n: Node<T>)
      requires Shape(header, nodes, order) && Counts(nodes) && m in nodes && m.right == null && 0 <= m.at < |order|
      modifies m`right, nodes`at, nodes`lo, nodes`hi, `nodes, `order
      ensures fresh(n) && nodes == old(nodes) + {n} && m.right == n
      ensures n.value == v && n.isRed && n.parent == m && n.left == null && n.right == null && n.bh == 0
      ensures Inserted(old(order), old(m.at) + 1, n, order)
      ensures Shape(header, nodes, order) && CountsAside(nodes, n)
    {
      n := AttachRightShaped(m, v);
      assert NodeOk(n, header, nodes, order);
      forall q | q in nodes && q != n ensures CountOk(q, nodes) {
        assert old(NodeOk(q, header, nodes, order) && CountOk(q, nodes));
      }
    }

    method AttachRightShaped(m: Node<T>, v: T) returns (n: Node<T>)
      requires Shape(header, nodes, order) && m in nodes && m.right == null && 0 <= m.at < |order|
      modifies m`right, nodes`at, nodes`lo, nodes`hi, `nodes, `order
      ensures fresh(n) && nodes == old(nodes) + {n} && m.right == n
      ensures n.value == v && n.isRed && n.parent == m && n.left == null && n.right == null && n.bh == 0 && n.nodeCount == 0
      ensures Inserted(old(order), old(m.at) + 1, n, order)
      ensures Shape(header, nodes, order)
    {
      assert NodeOk(m, header, nodes, order);
      n := LinkRightIndexed(m, v);
      forall q | q in nodes ensures NodeOk(q, header, nodes, order) {
        if q != n {
          assert old(NodeOk(q, header, nodes, order));
        }
        assert AtOk(q, order);
      }
    }

    /** A new leaf on the right of m: only its own count and its redness are still to be dealt with. */
    method AttachRight(m: Node<T>, v: T) returns (n: Node<T>)
      requires Balanced() && m in nodes && m.right == null
      modifies m`right, nodes`at, nodes`lo, nodes`hi, `nodes, `order
      ensures fresh(n) && nodes == old(nodes) + {n} && n.value == v && n.isRed
      ensures Inserted(old(order), old(m.at) + 1, n, order)
      ensures Shape(header, nodes, order) && CountsAside(nodes, n) && Blacks(nodes, null) && Reds(header, nodes, n)
    {
      assert NodeOk(m, header, nodes, order);
      n := AttachRightCounted(m, v);
      forall q | q in nodes ensures BhOk(q, nodes) && (q != n ==> RedOk(q, header, nodes)) {
        if q != n {
          assert old(NodeOk(q, header, nodes, order) && BhOk(q, nodes) && RedOk(q, header, nodes));
        }
      }
    }

    /** Hangs a new red leaf below m, to its left. */
    method LinkLeft(m: Node<T>, v: T) returns (n: Node<T>)
      requires m in nodes && m.left == null && 0 <= m.at < |order|
      modifies m`left, nodes`at, nodes`lo, nodes`hi, `nodes, `order
      ensures fresh(n) && nodes == old(nodes) + {n} && m.left == n
      ensures n.value == v && n.isRed && n.parent == m && n.right == null && n.left == null && n.bh == 0 && n.nodeCount == 0
      ensures var k := old(m.at);
        Inserted(old(order), k, n, order) && n.at == k && n.lo == k && n.hi == k + 1 && OpenedGap(old(nodes), k, k + 1)
    {
      ghost var k := m.at;
      n := new Node(v, m);
      m.left := n;
      OpenGap(k, k + 1);
      n.at, n.lo, n.hi := k, k, k + 1;
      nodes, order := nodes + {n}, order[..k] + [n] + order[k..];
    }

    method LinkLeftIndexed(m: Node<T>, v: T) returns (n: Node<T>)
      requires Indexed(nodes, order) && m in nodes && m.left == null
      modifies m`left, nodes`at, nodes`lo, nodes`hi, `nodes, `order
      ensures fresh(n) && nodes == old(nodes) + {n} && m.left == n
      ensures n.value == v && n.isRed && n.parent == m && n.right == null && n.left == null && n.bh == 0 && n.nodeCount == 0
      ensures var k := old(m.at);
        Inserted(old(order), k, n, order) && n.at == k && n.lo == k && n.hi == k + 1 && OpenedGap(old(nodes), k, k + 1)
      ensures Indexed(nodes, order)
    {
      assert AtOk(m, order);
      n := LinkLeft(m, v);
      forall q | q in nodes ensures AtOk(q, order) {
        if q != n {
          assert old(AtOk(q, order));
        }
      }
    }

    method AttachLeftCounted(m: Node<T>, v: T) returns (n: Node<T>)
      requires Shape(header, nodes, order) && Counts(nodes) && m in nodes && m.left == null && 0 <= m.at < |order|
      modifies m`left, nodes`at, nodes`lo, nodes`hi, `nodes, `order
      ensures fresh(n) && nodes == old(nodes) + {n} && m.left == n
      ensures n.value == v && n.isRed && n.parent == m && n.right == null && n.left == null && n.bh == 0
      ensures Inserted(old(order), old(m.at), n, order)
      ensures Shape(header, nodes, order) && CountsAside(nodes, n)
    {
      n := AttachLeftShaped(m, v);
      assert NodeOk(n, header, nodes, order);
      forall q | q in nodes && q != n ensures CountOk(q, nodes) {
        assert old(NodeOk(q, header, nodes, order) && CountOk(q, nodes));
      }
    }

    method AttachLeftShaped(m: Node<T>, v: T) returns (n: Node<T>)
      requires Shape(header, nodes, order) && m in nodes && m.left == null && 0 <= m.at < |order|
      modifies m`left, nodes`at, nodes`lo, nodes`hi, `nodes, `order
      ensures fresh(n) && nodes == old(nodes) + {n} && m.left == n
      ensures n.value == v && n.isRed && n.parent == m && n.right == null && n.left == null && n.bh == 0 && n.nodeCount == 0
      ensures Inserted(old(order), old(m.at), n, order)
      ensures Shape(header, nodes, order)
    {
      assert NodeOk(m, header, nodes, order);
      n := LinkLeftIndexed(m, v);
      forall q | q in nodes ensures NodeOk(q, header, nodes, order) {
        if q != n {
          assert old(NodeOk(q, header, nodes, order));
        }
        assert AtOk(q, order);
      }
    }

    /** A new leaf on the left of m: only its own count and its redness are still to be dealt with. */
    method AttachLeft(m: Node<T>, v: T) returns (n: Node<T>)
      requires Balanced() && m in nodes && m.left == null
      modifies m`left, nodes`at, nodes`lo, nodes`hi, `nodes, `order
      ensures fresh(n) && nodes == old(nodes) + {n} && n.value == v && n.isRed
      ensures Inserted(old(order), old(m.at), n, order)
      ensures Shape(header, nodes, order) && CountsAside(nodes, n) && Blacks(nodes, null) && Reds(header, nodes, n)
    {
      assert NodeOk(m, header, nodes, order);
      n := AttachLeftCounted(m, v);
      forall q | q in nodes ensures BhOk(q, nodes) && (q != n ==> RedOk(q, header, nodes)) {
        if q != n {
          assert old(NodeOk(q, header, nodes, order) && BhOk(q, nodes) && RedOk(q, header, nodes));
        }
      }
    }

    // ---------- Taking a node out ----------

    /** Links x, the only child of z if it has one, to the parent of z. */
    method UnlinkLinks(z: Node<T>, x: Node?<T>)
      requires z.parent != null && (header.parent == z || z.parent != header)
      requires x != header && x != z.parent
      modifies Just(x)`parent, header`parent, ({z.parent} - {header})`left, ({z.parent} - {header})`right
      ensures x != null ==> x.parent == old(z.parent)
      ensures var p := old(z.parent);
        && header.parent == (if old(header.parent) == z then x else old(header.parent))
        && p.left == (if old(header.parent) != z && old(p.left) == z then x else old(p.left))
        && p.right == (if old(header.parent) != z && old(p.left) != z then x else old(p.right))
    {
      var p := z.parent;
      if x != null {
        x.parent := p;
      }
      ReplaceChild(p, z, x);
    }

    /** The places after index k move down by one. */
    ghost method CloseGap(k: int)
      modifies nodes`at, nodes`lo, nodes`hi
      ensures ClosedGap(nodes, k)
    {
      forall n | n in nodes { n.at := n.at - (if n.at > k then 1 else 0); }
      forall n | n in nodes { n.lo := n.lo - (if n.lo > k then 1 else 0); }
      forall n | n in nodes { n.hi := n.hi - (if n.hi > k then 1 else 0); }
    }

    ghost method ForgetPlace(z: Node<T>)
      requires z in nodes && 0 <= z.at < |order|
      modifies nodes`at, nodes`lo, nodes`hi, `nodes, `order
      ensures nodes == old(nodes) - {z} && Removed(old(order), old(z.at), order) && ClosedGap(nodes, old(z.at))
    {
      ghost var k := z.at;
      nodes, order := nodes - {z}, order[..k] + order[k + 1..];
      CloseGap(k);
    }

    method UnlinkRelated(z: Node<T>, x: Node?<T>)
      requires Shape(header, nodes, order) && z in nodes
      requires (z.left == null && x == z.right) || (z.right == null && x == z.left)
      modifies nodes`left, nodes`right, nodes`parent, header`parent
      ensures Unlinked(header, nodes - {z}, z, x)
    {
      assert NodeOk(z, header, nodes, order);
      assert z.parent != header ==> NodeOk(z.parent, header, nodes, order);
      assert x != null ==> NodeOk(x, header, nodes, order);
      UnlinkLinks(z, x);
    }

    method UnlinkLinked(z: Node<T>, x: Node?<T>)
      requires Shape(header, nodes, order) && z in nodes
      requires (z.left == null && x == z.right) || (z.right == null && x == z.left)
      modifies nodes`left, nodes`right, nodes`parent, header`parent
      ensures Unlinked(header, nodes - {z}, z, x)
      ensures forall n {:trigger LinkOk(n, header, nodes - {z})} | n in nodes - {z} :: LinkOk(n, header, nodes - {z})
    {
      assert NodeOk(z, header, nodes, order);
      UnlinkRelated(z, x);
      forall n | n in nodes - {z} ensures LinkOk(n, header, nodes - {z}) {
        assert old(NodeOk(n, header, nodes, order));
      }
    }

    method UnlinkPlaced(z: Node<T>, x: Node?<T>)
      requires Shape(header, nodes, order) && z in nodes
      requires (z.left == null && x == z.right) || (z.right == null && x == z.left)
      modifies nodes`left, nodes`right, nodes`parent, header`parent, nodes`at, nodes`lo, nodes`hi, `nodes, `order
      ensures nodes == old(nodes) - {z} && Removed(old(order), old(z.at), order)
      ensures Unlinked(header, nodes, z, x) && ClosedGap(nodes, old(z.at))
      ensures forall n {:trigger LinkOk(n, header, nodes)} | n in nodes :: LinkOk(n, header, nodes)
    {
      assert AtOk(z, order);
      UnlinkLinked(z, x);
      ForgetPlace(z);
    }

    method UnlinkNested(z: Node<T>, x: Node?<T>)
      requires Shape(header, nodes, order) && z in nodes
      requires (z.left == null && x == z.right) || (z.right == null && x == z.left)
      modifies nodes`left, nodes`right, nodes`parent, header`parent, nodes`at, nodes`lo, nodes`hi, `nodes, `order
      ensures nodes == old(nodes) - {z} && Removed(old(order), old(z.at), order)
      ensures Unlinked(header, nodes, z, x) && Indexed(nodes, order)
      ensures header.parent in nodes ==> header.parent.lo == 0 && header.parent.hi == |order|
      ensures forall n {:trigger LinkOk(n, header, nodes)} | n in nodes :: LinkOk(n, header, nodes)
      ensures forall n {:trigger PlaceOk(n, nodes, order)} | n in nodes :: PlaceOk(n, nodes, order)
    {
      assert NodeOk(z, header, nodes, order);
      UnlinkPlaced(z, x);
      forall n | n in nodes ensures PlaceOk(n, nodes, order) {
        assert old(NodeOk(n, header, nodes, order));
      }
    }

    method UnlinkShaped(z: Node<T>, x: Node?<T>)
      requires Shape(header, nodes, order) && z in nodes
      requires (z.left == null && x == z.right) || (z.right == null && x == z.left)
      modifies nodes`left, nodes`right, nodes`parent, header`parent, nodes`at, nodes`lo, nodes`hi, `nodes, `order
      ensures nodes == old(nodes) - {z} && Removed(old(order), old(z.at), order)
      ensures Unlinked(header, nodes, z, x)
      ensures Shape(header, nodes, order)
    {
      assert NodeOk(z, header, nodes, order);
      UnlinkNested(z, x);
      forall n | n in nodes ensures NodeOk(n, header, nodes, order) {
        assert LinkOk(n, header, nodes) && PlaceOk(n, nodes, order);
      }
    }

    /** x hangs below p, or is the root below the header; it is null when nothing is left there. */
    ghost predicate HangsBelow(x: Node?<T>, p: Node<T>)
      reads this, header`parent, nodes
    {
      && (if p == header then x == header.parent else p in nodes && (x == p.left || x == p.right))
      && (x != null ==> x in nodes && x.parent == p)
    }

    /** Below p, the side of x has one black node less than the other side, which has what p.bh says. */
    ghost predicate ShortSide(x: Node?<T>, p: Node<T>)
      requires p in nodes
      reads this, nodes
    {
      && (x == p.left || x == p.right)
      && (x == p.left ==> Bh(p.left, nodes) + 1 == Bh(p.right, nodes) && p.bh == Bh(p.right, nodes) + (if p.isRed then 0 else 1))
      && (x == p.right ==> Bh(p.right, nodes) + 1 == Bh(p.left, nodes) && p.bh == Bh(p.left, nodes) + (if p.isRed then 0 else 1))
    }

    /** No red edge, except possibly just above and just below x. */
    ghost predicate RedsAwayFrom(x: Node?<T>)
      reads this, nodes
    {
      forall n {:trigger RedOk(n, header, nodes)} | n in nodes && n != x && n.parent != x :: RedOk(n, header, nodes)
    }

    /** All is well if x counts as one black node more than it is. */
    ghost predicate EraseInv(x: Node?<T>, p: Node<T>)
      reads this, header`parent, nodes
    {
      && Shape(header, nodes, order) && Counts(nodes)
      && HangsBelow(x, p) && RedsAwayFrom(x)
      && Blacks(nodes, p) && (p in nodes ==> ShortSide(x, p))
    }

    method UnlinkCounted(z: Node<T>, x: Node?<T>) returns (p: Node<T>)
      requires Shape(header, nodes, order) && Counts(nodes) && z in nodes
      requires (z.left == null && x == z.right) || (z.right == null && x == z.left)
      modifies nodes`left, nodes`right, nodes`parent, header`parent, nodes`at, nodes`lo, nodes`hi, `nodes, `order
      ensures nodes == old(nodes) - {z} && Removed(old(order), old(z.at), order)
      ensures p == old(z.parent) && Unlinked(header, nodes, z, x)
      ensures Shape(header, nodes, order) && CountsAside(nodes, p) && HangsBelow(x, p)
    {
      assert NodeOk(z, header, nodes, order) && CountOk(z, nodes);
      p := z.parent;
      assert p != header ==> NodeOk(p, header, nodes, order);
      UnlinkShaped(z, x);
      assert p in nodes ==> NodeOk(p, header, nodes, order);
      forall n | n in nodes && n != p ensures CountOk(n, nodes) {
        assert old(NodeOk(n, header, nodes, order) && CountOk(n, nodes));
      }
    }

    /** z is taken out; its parent's count is still to be recomputed, and the loss of a black node to be made up for. */
    method Unlink(z: Node<T>, x: Node?<T>) returns (p: Node<T>)
      requires Balanced() && z in nodes
      requires (z.left == null && x == z.right) || (z.right == null && x == z.left)
      modifies nodes`left, nodes`right, nodes`parent, header`parent, nodes`at, nodes`lo, nodes`hi, `nodes, `order
      ensures nodes == old(nodes) - {z} && Removed(old(order), old(z.at), order)
      ensures Shape(header, nodes, order) && CountsAside(nodes, p) && HangsBelow(x, p)
      ensures if z.isRed then Blacks(nodes, null) && Reds(header, nodes, null)
              else RedsAwayFrom(x) && Blacks(nodes, p) && (p in nodes ==> ShortSide(x, p))
    {
      assert NodeOk(z, header, nodes, order) && BhOk(z, nodes) && RedOk(z, header, nodes);
      assert z.parent != header ==> NodeOk(z.parent, header, nodes, order) && BhOk(z.parent, nodes);
      p := UnlinkCounted(z, x);
      forall n | n in nodes ensures (n != p ==> BhOk(n, nodes)) && (n != x ==> RedOk(n, header, nodes)) {
        assert old(NodeOk(n, header, nodes, order) && BhOk(n, nodes) && RedOk(n, header, nodes));
      }
    }

    /** No two of the nodes that RelinkLinks reads or writes are the same by accident. */
    ghost predicate Apart(z: Node<T>, y: Node<T>, x: Node?<T>)
      reads header, z, y, Just(x)
    {
      && z.left != null && z.right != null && z.parent != null && y.parent != null && x == y.right
      && header != z && header != y && header.parent != y && x != header && z.left != header && z.right != header
      && (header.parent == z || z.parent != header)
      && y != z && z.left != z && z.right != z && z.left != z.right && z.left != y && z.parent != z
      && z.parent != y && z.parent != z.left && z.parent != z.right && z.parent != x && z.parent != y.parent
      && x != y && x != z && x != z.left && x != z.right && (x != null ==> x.parent == y)
      && (y != z.right ==> y.parent != z && y.parent != header && y.parent != y && y.parent != x && y.parent != z.left)
    }

    lemma SuccessorIsApart(z: Node<T>, y: Node<T>)
      requires Shape(header, nodes, order) && z in nodes && y in nodes
      requires z.left != null && z.right != null && y.left == null && y.lo == z.at + 1
      ensures Apart(z, y, y.right) && z.left in nodes && z.right in nodes
      ensures y.right in nodes + {null} && y.parent in nodes && z.parent in nodes + {header}
      ensures y.parent == z <==> y == z.right
      ensures z.parent == header <==> header.parent == z
      ensures z.parent != header ==> (z.parent.left == z) != (z.parent.right == z)
    {
      assert NodeOk(z, header, nodes, order);
      assert NodeOk(y, header, nodes, order);
      assert NodeOk(z.left, header, nodes, order);
      assert NodeOk(z.right, header, nodes, order);
      assert z.parent != header ==> NodeOk(z.parent, header, nodes, order);
      assert y.right != null ==> NodeOk(y.right, header, nodes, order);
      assert y.parent != header ==> NodeOk(y.parent, header, nodes, order);
    }

    /** What the invariant says about the places around a node with two children and its successor. */
    lemma SuccessorPlaces(z: Node<T>, y: Node<T>)
      requires Shape(header, nodes, order) && z in nodes && y in nodes
      requires z.left != null && z.right != null && y.left == null && y.lo == z.at + 1
      ensures z.left in nodes && z.left.lo == z.lo && z.left.hi == z.at && z.left.parent == z && z.left != z.right && z.left != y
      ensures z.right in nodes && z.right.lo == z.at + 1 && z.right.hi == z.hi && z.right.parent == z
      ensures 0 <= z.lo < z.at < |order| - 1 && y.at == z.at + 1 && order[z.at] == z && order[y.at] == y
      ensures z.at + 1 < z.hi <= |order| && z != y
      ensures y.parent in nodes && (y.parent == z <==> y == z.right) && (y.parent == z || y.parent.left == y)
      ensures Covers(z.right, y.at) && (y.parent != z ==> y.at < y.parent.at)
      ensures y.right == null ==> y.hi == y.at + 1
      ensures y.right != null ==> y.right in nodes && y.right.parent == y && y.right.lo == y.at + 1 && y.right.hi == y.hi
    {
      assert NodeOk(z, header, nodes, order);
      assert NodeOk(y, header, nodes, order);
      assert NodeOk(z.left, header, nodes, order);
      assert NodeOk(z.right, header, nodes, order);
      assert y.parent != header ==> NodeOk(y.parent, header, nodes, order);
    }

    /** Links y, the in-order successor of z, in the place of z; x is the right child of y. */
    method RelinkLinks(z: Node<T>, y: Node<T>, x: Node?<T>) returns (q: Node<T>)
      requires Apart(z, y, x)
      modifies y`left, y`right, y`parent, {z, y}`isRed, y`bh, {z.left, z.right}`parent, Just(x)`parent
      modifies ({y.parent} - {header, z})`left
      modifies header`parent, ({z.parent} - {header})`left, ({z.parent} - {header})`right
      ensures q == (if y == old(z.right) then y else old(y.parent))
      ensures y.left == old(z.left) && y.parent == old(z.parent) && z.left.parent == y
      ensures x != null ==> x.parent == q
      ensures y == z.right ==> y.right == x
      ensures y != z.right ==> y.right == old(z.right) && z.right.parent == y && q.left == x
      ensures y.isRed == old(z.isRed) && z.isRed == old(y.isRed) && y.bh == old(z.bh)
      ensures var p := old(z.parent);
        && header.parent == (if old(header.parent) == z then y else old(header.parent))
        && p.left == (if old(header.parent) != z && old(p.left) == z then y else old(p.left))
        && p.right == (if old(header.parent) != z && old(p.left) != z then y else old(p.right))
    {
      z.left.parent := y;
      y.left := z.left;
      if y != z.right {
        q := y.parent;
        if x != null {
          x.parent := q;
        }
        q.left := x;
        y.right := z.right;
        z.right.parent := y;
      } else {
        q := y;
      }
      ReplaceChild(z.parent, z, y);
      y.parent := z.parent;
      y.isRed, z.isRed := z.isRed, y.isRed;
      y.bh := z.bh;
    }

    /** q is the node whose child x became; y has the colour and black height of z, and z the colour of y. */
    twostate predicate TookOver(z: Node<T>, y: Node<T>, new q: Node<T>)
      reads z, y
    {
      && q == (if y == old(z.right) then y else old(y.parent))
      && y.isRed == old(z.isRed) && z.isRed == old(y.isRed) && y.bh == old(z.bh)
    }

    method RelinkRelated(z: Node<T>, y: Node<T>) returns (q: Node<T>)
      requires Shape(header, nodes, order) && z in nodes && y in nodes
      requires z.left != null && z.right != null && y.left == null && y.lo == z.at + 1
      modifies nodes`left, nodes`right, nodes`parent, header`parent, {z, y}`isRed, y`bh
      ensures TookOver(z, y, q) && Relinked(header, nodes, z, y)
    {
      SuccessorIsApart(z, y);
      q := RelinkLinks(z, y, y.right);
    }

    method RelinkLinked(z: Node<T>, y: Node<T>) returns (q: Node<T>)
      requires Shape(header, nodes, order) && z in nodes && y in nodes
      requires z.left != null && z.right != null && y.left == null && y.lo == z.at + 1
      modifies nodes`left, nodes`right, nodes`parent, header`parent, {z, y}`isRed, y`bh
      ensures TookOver(z, y, q) && Relinked(header, nodes, z, y)
      ensures forall n {:trigger LinkOk(n, header, nodes - {z})} | n in nodes - {z} :: LinkOk(n, header, nodes - {z})
    {
      SuccessorPlaces(z, y);
      assert NodeOk(z, header, nodes, order);
      assert NodeOk(y, header, nodes, order);
      q := RelinkRelated(z, y);
      forall n | n in nodes - {z} ensures LinkOk(n, header, nodes - {z}) {
        assert old(NodeOk(n, header, nodes, order));
      }
    }

    ghost method ForgetSuccessorPlace(z: Node<T>, y: Node<T>)
      requires z in nodes && y in nodes && z != y && 0 <= z.at < |order|
      modifies nodes`at, nodes`lo, nodes`hi, `nodes, `order
      ensures nodes == old(nodes) - {z} && Removed(old(order), old(z.at), order)
      ensures ClosedSuccessorGap(nodes, z, y)
    {
      ghost var k, lo, hi := z.at, z.lo, z.hi;
      nodes, order := nodes - {z}, order[..k] + order[k + 1..];
      CloseGap(k + 1);
      y.at, y.lo, y.hi := k, lo, hi - 1;
    }

    /** z leaves the in-order sequence, and y takes over its interval, one shorter. */
    ghost method CloseSuccessorGap(z: Node<T>, y: Node<T>)
      requires z in nodes && y in nodes && Indexed(nodes, order)
      requires y.at == z.at + 1 < z.hi
      modifies nodes`at, nodes`lo, nodes`hi, `nodes, `order
      ensures nodes == old(nodes) - {z} && Removed(old(order), old(z.at), order)
      ensures ClosedSuccessorGap(nodes, z, y) && Indexed(nodes, order)
    {
      assert AtOk(z, order) && AtOk(y, order);
      ForgetSuccessorPlace(z, y);
      forall n | n in nodes ensures AtOk(n, order) {
        assert old(AtOk(n, order));
      }
    }

    method RelinkPlaced(z: Node<T>, y: Node<T>) returns (q: Node<T>)
      requires Shape(header, nodes, order) && z in nodes && y in nodes
      requires z.left != null && z.right != null && y.left == null && y.lo == z.at + 1
      modifies nodes`left, nodes`right, nodes`parent, header`parent, nodes`at, nodes`lo, nodes`hi, `nodes, `order
      modifies {z, y}`isRed, y`bh
      ensures nodes == old(nodes) - {z} && Removed(old(order), old(z.at), order)
      ensures TookOver(z, y, q) && Relinked(header, nodes, z, y)
      ensures ClosedSuccessorGap(nodes, z, y) && Indexed(nodes, order) && Covers(y, q.at)
      ensures forall n {:trigger LinkOk(n, header, nodes)} | n in nodes :: LinkOk(n, header, nodes)
    {
      SuccessorPlaces(z, y);
      if y != z.right {
        CoversParent(z.right, y);
      }
      q := RelinkLinked(z, y);
      CloseSuccessorGap(z, y);
    }

    method RelinkNested(z: Node<T>, y: Node<T>) returns (q: Node<T>)
      requires Shape(header, nodes, order) && z in nodes && y in nodes
      requires z.left != null && z.right != null && y.left == null && y.lo == z.at + 1
      modifies nodes`left, nodes`right, nodes`parent, header`parent, nodes`at, nodes`lo, nodes`hi, `nodes, `order
      modifies {z, y}`isRed, y`bh
      ensures nodes == old(nodes) - {z} && Removed(old(order), old(z.at), order)
      ensures TookOver(z, y, q) && Relinked(header, nodes, z, y)
      ensures ClosedSuccessorGap(nodes, z, y) && Indexed(nodes, order) && Covers(y, q.at)
      ensures forall n {:trigger LinkOk(n, header, nodes)} | n in nodes :: LinkOk(n, header, nodes)
      ensures forall n {:trigger PlaceOk(n, nodes, order)} | n in nodes :: PlaceOk(n, nodes, order)
    {
      SuccessorPlaces(z, y);
      assert NodeOk(z, header, nodes, order);
      q := RelinkPlaced(z, y);
      forall n | n in nodes ensures PlaceOk(n, nodes, order) {
        assert old(NodeOk(n, header, nodes, order));
        assert AtOk(n, order);
      }
    }

    method RelinkShaped(z: Node<T>, y: Node<T>) returns (q: Node<T>)
      requires Shape(header, nodes, order) && z in nodes && y in nodes
      requires z.left != null && z.right != null && y.left == null && y.lo == z.at + 1
      modifies nodes`left, nodes`right, nodes`parent, header`parent, nodes`at, nodes`lo, nodes`hi, `nodes, `order
      modifies {z, y}`isRed, y`bh
      ensures nodes == old(nodes) - {z} && Removed(old(order), old(z.at), order)
      ensures TookOver(z, y, q) && Relinked(header, nodes, z, y) && Covers(y, q.at)
      ensures Shape(header, nodes, order)
    {
      SuccessorPlaces(z, y);
      q := RelinkNested(z, y);
      forall n | n in nodes ensures NodeOk(n, header, nodes, order) {
        assert LinkOk(n, header, nodes) && PlaceOk(n, nodes, order);
      }
    }

    method RelinkCounted(z: Node<T>, y: Node<T>, x: Node?<T>) returns (q: Node<T>)
      requires Shape(header, nodes, order) && Counts(nodes) && z in nodes && y in nodes
      requires z.left != null && z.right != null && y.left == null && y.lo == z.at + 1 && x == y.right
      modifies nodes`left, nodes`right, nodes`parent, header`parent, nodes`at, nodes`lo, nodes`hi, `nodes, `order
      modifies {z, y}`isRed, y`bh
      ensures nodes == old(nodes) - {z} && Removed(old(order), old(z.at), order)
      ensures TookOver(z, y, q) && Relinked(header, nodes, z, y)
      ensures Shape(header, nodes, order) && HangsBelow(x, q) && CountsAside(nodes, q)
    {
      SuccessorPlaces(z, y);
      q := RelinkShaped(z, y);
      assert NodeOk(q, header, nodes, order) && NodeOk(y, header, nodes, order);
      forall n | n in nodes && !Covers(n, q.at) ensures CountOk(n, nodes) {
        assert old(NodeOk(n, header, nodes, order) && CountOk(n, nodes));
        assert NodeOk(n, header, nodes, order);
      }
    }

    method RelinkColoured(z: Node<T>, y: Node<T>, x: Node?<T>) returns (q: Node<T>)
      requires Shape(header, nodes, order) && Counts(nodes) && Reds(header, nodes, null) && z in nodes && y in nodes
      requires z.left != null && z.right != null && y.left == null && y.lo == z.at + 1 && x == y.right
      modifies nodes`left, nodes`right, nodes`parent, header`parent, nodes`at, nodes`lo, nodes`hi, `nodes, `order
      modifies {z, y}`isRed, y`bh
      ensures nodes == old(nodes) - {z} && Removed(old(order), old(z.at), order)
      ensures TookOver(z, y, q) && Relinked(header, nodes, z, y)
      ensures Shape(header, nodes, order) && HangsBelow(x, q) && CountsAside(nodes, q)
      ensures Reds(header, nodes, x) && (z.isRed && x != null ==> !x.isRed)
    {
      SuccessorPlaces(z, y);
      assert NodeOk(z, header, nodes, order) && NodeOk(y, header, nodes, order);
      assert RedOk(z, header, nodes) && (x != null ==> RedOk(x, header, nodes));
      q := RelinkCounted(z, y, x);
      forall n | n in nodes && n != x ensures RedOk(n, header, nodes) {
        assert old(NodeOk(n, header, nodes, order) && RedOk(n, header, nodes));
      }
    }

    /** Away from q the black heights agree; q saw on one side what its old child had there. */
    method RelinkBlack(z: Node<T>, y: Node<T>, x: Node?<T>) returns (q: Node<T>)
      requires Balanced() && z in nodes && y in nodes
      requires z.left != null && z.right != null && y.left == null && y.lo == z.at + 1 && x == y.right
      modifies nodes`left, nodes`right, nodes`parent, header`parent, nodes`at, nodes`lo, nodes`hi, `nodes, `order
      modifies {z, y}`isRed, y`bh
      ensures nodes == old(nodes) - {z} && Removed(old(order), old(z.at), order)
      ensures Shape(header, nodes, order) && HangsBelow(x, q) && CountsAside(nodes, q)
      ensures Reds(header, nodes, x) && (z.isRed && x != null ==> !x.isRed)
      ensures Blacks(nodes, q) && q in nodes && x in nodes + {null}
      ensures var b := Bh(x, nodes) + (if z.isRed then 0 else 1);
        && (x == q.left || x == q.right)
        && (x == q.left ==> b == Bh(q.right, nodes))
        && (x == q.right ==> b == Bh(q.left, nodes))
        && q.bh == b + (if q.isRed then 0 else 1)
    {
      SuccessorPlaces(z, y);
      assert BhOk(z, nodes) && BhOk(y, nodes) && BhOk(y.parent, nodes);
      assert y.parent != z ==> NodeOk(y.parent, header, nodes, order);
      q := RelinkColoured(z, y, x);
      forall n | n in nodes && n != q ensures BhOk(n, nodes) {
        assert old(NodeOk(n, header, nodes, order) && BhOk(n, nodes));
      }
    }

    /** z is taken out and y takes its place and colour; what is lost is the colour of y, at the old place of y. */
    method Relink(z: Node<T>, y: Node<T>, x: Node?<T>) returns (q: Node<T>)
      requires Balanced() && z in nodes && y in nodes
      requires z.left != null && z.right != null && y.left == null && y.lo == z.at + 1 && x == y.right
      modifies nodes`left, nodes`right, nodes`parent, header`parent, nodes`at, nodes`lo, nodes`hi, `nodes, `order
      modifies {z, y}`isRed, y`bh
      ensures nodes == old(nodes) - {z} && Removed(old(order), old(z.at), order)
      ensures Shape(header, nodes, order) && CountsAside(nodes, q) && HangsBelow(x, q)
      ensures if z.isRed then Blacks(nodes, null) && Reds(header, nodes, null)
              else RedsAwayFrom(x) && Blacks(nodes, q) && (q in nodes ==> ShortSide(x, q))
    {
      q := RelinkBlack(z, y, x);
      assert z.isRed ==> BhOk(q, nodes);
    }

    // ---------- The erase fixup ----------

    /** w becomes red and both subtrees of p are now one black node short. */
    method PaintSibling(w: Node<T>, p: Node<T>)
      requires w != p && 0 < w.bh && 0 < p.bh
      modifies w`isRed, w`bh, p`bh
      ensures w.isRed && w.bh == old(w.bh) - 1 && p.bh == old(p.bh) - 1
    {
      w.isRed := true;
      w.bh, p.bh := w.bh - 1, p.bh - 1;
    }

    /** w takes the colour of p, p and the nephew r become black, just before w is turned above p. */
    method PaintLast(w: Node<T>, p: Node<T>, r: Node<T>)
      requires w != p && w != r && p != r
      modifies w`isRed, p`isRed, r`isRed, w`bh, p`bh, r`bh
      ensures w.isRed == old(p.isRed) && !p.isRed && !r.isRed
      ensures w.bh == old(p.bh) && p.bh == old(w.bh) && r.bh == old(r.bh) + 1
    {
      w.isRed := p.isRed;
      p.isRed := false;
      r.isRed := false;
      w.bh, p.bh, r.bh := p.bh, w.bh, r.bh + 1;
    }

    ghost predicate IsBlack(n: Node?<T>)
      reads nodes`isRed, this
    {
      n in nodes ==> !n.isRed
    }

    /** The sibling of x, on the right of p, exists and is a node of the tree. */
    lemma SiblingRight(x: Node?<T>, p: Node<T>)
      requires EraseInv(x, p) && p in nodes && x == p.left && IsBlack(x)
      ensures p.right in nodes && p.right != x && p.right.parent == p && p.right != p && p.right != header
      ensures BhOk(p.right, nodes) && NodeOk(p, header, nodes, order) && NodeOk(p.right, header, nodes, order)
      ensures p.bh == p.right.bh + (if p.isRed then 0 else 1) && p.right.bh == Bh(x, nodes) + 1
      ensures RedOk(p.right, header, nodes) && RedOk(p, header, nodes)
    {
      assert NodeOk(p, header, nodes, order);
      assert NodeOk(p.right, header, nodes, order);
      assert BhOk(p.right, nodes);
    }

    /** What case 1 does to the black nodes: nothing. */
    method TurnRedSiblingLeft(x: Node?<T>, p: Node<T>, w: Node<T>)
      requires EraseInv(x, p) && p in nodes && x == p.left && w == p.right && IsBlack(x) && w.isRed
      modifies nodes`left, nodes`right, nodes`parent, header`parent
      modifies {p, w}`lo, {p, w}`hi, {p, w}`nodeCount, {p, w}`isRed, {p, w}`bh
      ensures p.isRed && !w.isRed && RotatedLeft(header, nodes, p, w)
      ensures Shape(header, nodes, order) && Counts(nodes) && Blacks(nodes, p) && ShortSide(x, p)
    {
      SiblingRight(x, p);
      PaintPairRotateLeft(w, p);
      forall n | n in nodes && n != p ensures BhOk(n, nodes) {
        assert old(NodeOk(n, header, nodes, order) && BhOk(n, nodes));
      }
    }

    /** Case 1 of the erase fixup: the sibling w is red. It is turned above p, and p becomes red. */
    method EraseRedSiblingLeft(x: Node?<T>, p: Node<T>, w: Node<T>)
      requires EraseInv(x, p) && p in nodes && x == p.left && w == p.right && IsBlack(x) && w.isRed
      modifies nodes`left, nodes`right, nodes`parent, header`parent
      modifies {p, w}`lo, {p, w}`hi, {p, w}`nodeCount, {p, w}`isRed, {p, w}`bh
      ensures EraseInv(x, p) && p in nodes && x == p.left && p.isRed && p.right in nodes && !p.right.isRed
    {
      SiblingRight(x, p);
      assert w.left != null ==> RedOk(w.left, header, nodes);
      TurnRedSiblingLeft(x, p, w);
      forall n | n in nodes && n != x && n.parent != x ensures RedOk(n, header, nodes) {
        assert old(NodeOk(n, header, nodes, order) && (n != x && n.parent != x ==> RedOk(n, header, nodes)));
      }
    }

    /** What case 2 does to the black nodes: both sides of p agree again, and p itself is short. */
    method PaintSiblingRight(x: Node?<T>, p: Node<T>, w: Node<T>)
      requires EraseInv(x, p) && p in nodes && x == p.left && w == p.right && IsBlack(x) && !w.isRed
      modifies w`isRed, w`bh, p`bh
      ensures w.isRed && Blacks(nodes, p.parent) && p.parent != null && (p.parent in nodes ==> ShortSide(p, p.parent))
    {
      SiblingRight(x, p);
      assert p.parent != header ==> NodeOk(p.parent, header, nodes, order) && BhOk(p.parent, nodes);
      PaintSibling(w, p);
      forall n | n in nodes && n != p.parent ensures BhOk(n, nodes) {
        assert old(NodeOk(n, header, nodes, order) && (n != p ==> BhOk(n, nodes)));
      }
    }

    /** Case 2 of the erase fixup: the sibling w and its children are black. The trouble moves up to p. */
    method EraseBlackFamilyLeft(x: Node?<T>, p: Node<T>, w: Node<T>)
      requires EraseInv(x, p) && p in nodes && x == p.left && w == p.right && IsBlack(x) && !w.isRed
      requires IsBlack(w.left) && IsBlack(w.right)
      modifies w`isRed, w`bh, p`bh
      ensures p.parent != null && EraseInv(p, p.parent)
    {
      SiblingRight(x, p);
      PaintSiblingRight(x, p, w);
      forall n | n in nodes && n != p && n.parent != p ensures RedOk(n, header, nodes) {
        assert old(NodeOk(n, header, nodes, order) && (n != x && n.parent != x ==> RedOk(n, header, nodes)));
      }
    }

    method PaintLastRotateLeft(w: Node<T>, p: Node<T>, r: Node<T>)
      requires Shape(header, nodes, order) && Counts(nodes) && p in nodes && p.right == w
      requires w != p && w != r && p != r && r in nodes
      modifies nodes`left, nodes`right, nodes`parent, header`parent
      modifies {p, w}`lo, {p, w}`hi, {p, w}`nodeCount, {p, w, r}`isRed, {p, w, r}`bh
      ensures w.isRed == old(p.isRed) && !p.isRed && !r.isRed
      ensures w.bh == old(p.bh) && p.bh == old(w.bh) && r.bh == old(r.bh) + 1
      ensures RotatedLeft(header, nodes, p, w) && Shape(header, nodes, order) && Counts(nodes)
    {
      PaintLast(w, p, r);
      RotateLeft(p);
    }

    /** What case 3 does to the black nodes: nothing. */
    method TurnInnerNephewLeft(x: Node?<T>, p: Node<T>, w: Node<T>, r: Node<T>)
      requires EraseInv(x, p) && p in nodes && x == p.left && w == p.right && IsBlack(x) && !w.isRed
      requires r == w.left && r.isRed
      modifies nodes`left, nodes`right, nodes`parent, header`parent
      modifies {w, r}`lo, {w, r}`hi, {w, r}`nodeCount, {w, r}`isRed, {w, r}`bh
      ensures !r.isRed && w.isRed && RotatedRight(header, nodes, w, r)
      ensures Shape(header, nodes, order) && Counts(nodes) && Blacks(nodes, p) && ShortSide(x, p)
    {
      SiblingRight(x, p);
      assert NodeOk(r, header, nodes, order) && BhOk(r, nodes);
      PaintPairRotateRight(r, w);
      forall n | n in nodes && n != p ensures BhOk(n, nodes) {
        assert old(NodeOk(n, header, nodes, order) && BhOk(n, nodes));
      }
    }

    /** Case 3 of the erase fixup: only the inner nephew is red. It is turned above w. */
    method EraseInnerNephewLeft(x: Node?<T>, p: Node<T>, w: Node<T>, r: Node<T>)
      requires EraseInv(x, p) && p in nodes && x == p.left && w == p.right && IsBlack(x) && !w.isRed
      requires r == w.left && r.isRed && IsBlack(w.right)
      modifies nodes`left, nodes`right, nodes`parent, header`parent
      modifies {w, r}`lo, {w, r}`hi, {w, r}`nodeCount, {w, r}`isRed, {w, r}`bh
      ensures EraseInv(x, p) && x == p.left && p.right == r && !r.isRed && r.right == w && w.isRed && w in nodes && r in nodes
    {
      SiblingRight(x, p);
      assert NodeOk(r, header, nodes, order) && RedOk(r, header, nodes);
      TurnInnerNephewLeft(x, p, w, r);
      forall n | n in nodes && n != x && n.parent != x ensures RedOk(n, header, nodes) {
        assert old(NodeOk(n, header, nodes, order) && (n != x && n.parent != x ==> RedOk(n, header, nodes)));
      }
    }

    /** What case 4 does to the black nodes: the side of x has got the one it was short of. */
    method TurnOuterNephewLeft(x: Node?<T>, p: Node<T>, w: Node<T>, r: Node<T>)
      requires EraseInv(x, p) && p in nodes && x == p.left && w == p.right && IsBlack(x) && !w.isRed
      requires r == w.right && r.isRed
      modifies nodes`left, nodes`right, nodes`parent, header`parent
      modifies {p, w}`lo, {p, w}`hi, {p, w}`nodeCount, {p, w, r}`isRed, {p, w, r}`bh
      ensures w.isRed == old(p.isRed) && !p.isRed && !r.isRed && RotatedLeft(header, nodes, p, w)
      ensures Shape(header, nodes, order) && Counts(nodes) && Blacks(nodes, null)
    {
      SiblingRight(x, p);
      assert NodeOk(r, header, nodes, order) && BhOk(r, nodes);
      PaintLastRotateLeft(w, p, r);
      forall n | n in nodes ensures BhOk(n, nodes) {
        assert old(NodeOk(n, header, nodes, order) && (n != p ==> BhOk(n, nodes)));
      }
    }

    /** Case 4 of the erase fixup: the outer nephew r is red. It ends the fixup. */
    method EraseOuterNephewLeft(x: Node?<T>, p: Node<T>, w: Node<T>, r: Node<T>)
      requires EraseInv(x, p) && p in nodes && x == p.left && w == p.right && IsBlack(x) && !w.isRed
      requires r == w.right && r.isRed
      modifies nodes`left, nodes`right, nodes`parent, header`parent
      modifies {p, w}`lo, {p, w}`hi, {p, w}`nodeCount, {p, w, r}`isRed, {p, w, r}`bh
      ensures Balanced() && p in nodes
    {
      SiblingRight(x, p);
      assert NodeOk(r, header, nodes, order) && RedOk(r, header, nodes);
      TurnOuterNephewLeft(x, p, w, r);
      forall n | n in nodes ensures RedOk(n, header, nodes) {
        assert old(NodeOk(n, header, nodes, order) && (n != x && n.parent != x ==> RedOk(n, header, nodes)));
      }
    }

    /** The sibling of x, on the left of p, exists and is a node of the tree. */
    lemma SiblingLeft(x: Node?<T>, p: Node<T>)
      requires EraseInv(x, p) && p in nodes && x == p.right && IsBlack(x)
      ensures p.left in nodes && p.left != x && p.left.parent == p && p.left != p && p.left != header
      ensures BhOk(p.left, nodes) && NodeOk(p, header, nodes, order) && NodeOk(p.left, header, nodes, order)
      ensures p.bh == p.left.bh + (if p.isRed then 0 else 1) && p.left.bh == Bh(x, nodes) + 1
      ensures RedOk(p.left, header, nodes) && RedOk(p, header, nodes)
    {
      assert NodeOk(p, header, nodes, order);
      assert NodeOk(p.left, header, nodes, order);
      assert BhOk(p.left, nodes);
    }

    /** What case 1 does to the black nodes: nothing. */
    method TurnRedSiblingRight(x: Node?<T>, p: Node<T>, w: Node<T>)
      requires EraseInv(x, p) && p in nodes && x == p.right && w == p.left && IsBlack(x) && w.isRed
      modifies nodes`right, nodes`left, nodes`parent, header`parent
      modifies {p, w}`lo, {p, w}`hi, {p, w}`nodeCount, {p, w}`isRed, {p, w}`bh
      ensures p.isRed && !w.isRed && RotatedRight(header, nodes, p, w)
      ensures Shape(header, nodes, order) && Counts(nodes) && Blacks(nodes, p) && ShortSide(x, p)
    {
      SiblingLeft(x, p);
      PaintPairRotateRight(w, p);
      forall n | n in nodes && n != p ensures BhOk(n, nodes) {
        assert old(NodeOk(n, header, nodes, order) && BhOk(n, nodes));
      }
    }

    /** Case 1 of the erase fixup: the sibling w is red. It is turned above p, and p becomes red. */
    method EraseRedSiblingRight(x: Node?<T>, p: Node<T>, w: Node<T>)
      requires EraseInv(x, p) && p in nodes && x == p.right && w == p.left && IsBlack(x) && w.isRed
      modifies nodes`right, nodes`left, nodes`parent, header`parent
      modifies {p, w}`lo, {p, w}`hi, {p, w}`nodeCount, {p, w}`isRed, {p, w}`bh
      ensures EraseInv(x, p) && p in nodes && x == p.right && p.isRed && p.left in nodes && !p.left.isRed
    {
      SiblingLeft(x, p);
      assert w.right != null ==> RedOk(w.right, header, nodes);
      TurnRedSiblingRight(x, p, w);
      forall n | n in nodes && n != x && n.parent != x ensures RedOk(n, header, nodes) {
        assert old(NodeOk(n, header, nodes, order) && (n != x && n.parent != x ==> RedOk(n, header, nodes)));
      }
    }

    /** What case 2 does to the black nodes: both sides of p agree again, and p itself is short. */
    method PaintSiblingLeft(x: Node?<T>, p: Node<T>, w: Node<T>)
      requires EraseInv(x, p) && p in nodes && x == p.right && w == p.left && IsBlack(x) && !w.isRed
      modifies w`isRed, w`bh, p`bh
      ensures w.isRed && Blacks(nodes, p.parent) && p.parent != null && (p.parent in nodes ==> ShortSide(p, p.parent))
    {
      SiblingLeft(x, p);
      assert p.parent != header ==> NodeOk(p.parent, header, nodes, order) && BhOk(p.parent, nodes);
      PaintSibling(w, p);
      forall n | n in nodes && n != p.parent ensures BhOk(n, nodes) {
        assert old(NodeOk(n, header, nodes, order) && (n != p ==> BhOk(n, nodes)));
      }
    }

    /** Case 2 of the erase fixup: the sibling w and its children are black. The trouble moves up to p. */
    method EraseBlackFamilyRight(x: Node?<T>, p: Node<T>, w: Node<T>)
      requires EraseInv(x, p) && p in nodes && x == p.right && w == p.left && IsBlack(x) && !w.isRed
      requires IsBlack(w.right) && IsBlack(w.left)
      modifies w`isRed, w`bh, p`bh
      ensures p.parent != null && EraseInv(p, p.parent)
    {
      SiblingLeft(x, p);
      PaintSiblingLeft(x, p, w);
      forall n | n in nodes && n != p && n.parent != p ensures RedOk(n, header, nodes) {
        assert old(NodeOk(n, header, nodes, order) && (n != x && n.parent != x ==> RedOk(n, header, nodes)));
      }
    }

    method PaintLastRotateRight(w: Node<T>, p: Node<T>, r: Node<T>)
      requires Shape(header, nodes, order) && Counts(nodes) && p in nodes && p.left == w
      requires w != p && w != r && p != r && r in nodes
      modifies nodes`right, nodes`left, nodes`parent, header`parent
      modifies {p, w}`lo, {p, w}`hi, {p, w}`nodeCount, {p, w, r}`isRed, {p, w, r}`bh
      ensures w.isRed == old(p.isRed) && !p.isRed && !r.isRed
      ensures w.bh == old(p.bh) && p.bh == old(w.bh) && r.bh == old(r.bh) + 1
      ensures RotatedRight(header, nodes, p, w) && Shape(header, nodes, order) && Counts(nodes)
    {
      PaintLast(w, p, r);
      RotateRight(p);
    }

    /** What case 3 does to the black nodes: nothing. */
    method TurnInnerNephewRight(x: Node?<T>, p: Node<T>, w: Node<T>, r: Node<T>)
      requires EraseInv(x, p) && p in nodes && x == p.right && w == p.left && IsBlack(x) && !w.isRed
      requires r == w.right && r.isRed
      modifies nodes`right, nodes`left, nodes`parent, header`parent
      modifies {w, r}`lo, {w, r}`hi, {w, r}`nodeCount, {w, r}`isRed, {w, r}`bh
      ensures !r.isRed && w.isRed && RotatedLeft(header, nodes, w, r)
      ensures Shape(header, nodes, order) && Counts(nodes) && Blacks(nodes, p) && ShortSide(x, p)
    {
      SiblingLeft(x, p);
      assert NodeOk(r, header, nodes, order) && BhOk(r, nodes);
      PaintPairRotateLeft(r, w);
      forall n | n in nodes && n != p ensures BhOk(n, nodes) {
        assert old(NodeOk(n, header, nodes, order) && BhOk(n, nodes));
      }
    }

    /** Case 3 of the erase fixup: only the inner nephew is red. It is turned above w. */
    method EraseInnerNephewRight(x: Node?<T>, p: Node<T>, w: Node<T>, r: Node<T>)
      requires EraseInv(x, p) && p in nodes && x == p.right && w == p.left && IsBlack(x) && !w.isRed
      requires r == w.right && r.isRed && IsBlack(w.left)
      modifies nodes`right, nodes`left, nodes`parent, header`parent
      modifies {w, r}`lo, {w, r}`hi, {w, r}`nodeCount, {w, r}`isRed, {w, r}`bh
      ensures EraseInv(x, p) && x == p.right && p.left == r && !r.isRed && r.left == w && w.isRed && w in nodes && r in nodes
    {
      SiblingLeft(x, p);
      assert NodeOk(r, header, nodes, order) && RedOk(r, header, nodes);
      TurnInnerNephewRight(x, p, w, r);
      forall n | n in nodes && n != x && n.parent != x ensures RedOk(n, header, nodes) {
        assert old(NodeOk(n, header, nodes, order) && (n != x && n.parent != x ==> RedOk(n, header, nodes)));
      }
    }

    /** What case 4 does to the black nodes: the side of x has got the one it was short of. */
    method TurnOuterNephewRight(x: Node?<T>, p: Node<T>, w: Node<T>, r: Node<T>)
      requires EraseInv(x, p) && p in nodes && x == p.right && w == p.left && IsBlack(x) && !w.isRed
      requires r == w.left && r.isRed
      modifies nodes`right, nodes`left, nodes`parent, header`parent
      modifies {p, w}`lo, {p, w}`hi, {p, w}`nodeCount, {p, w, r}`isRed, {p, w, r}`bh
      ensures w.isRed == old(p.isRed) && !p.isRed && !r.isRed && RotatedRight(header, nodes, p, w)
      ensures Shape(header, nodes, order) && Counts(nodes) && Blacks(nodes, null)
    {
      SiblingLeft(x, p);
      assert NodeOk(r, header, nodes, order) && BhOk(r, nodes);
      PaintLastRotateRight(w, p, r);
      forall n | n in nodes ensures BhOk(n, nodes) {
        assert old(NodeOk(n, header, nodes, order) && (n != p ==> BhOk(n, nodes)));
      }
    }

    /** Case 4 of the erase fixup: the outer nephew r is red. It ends the fixup. */
    method EraseOuterNephewRight(x: Node?<T>, p: Node<T>, w: Node<T>, r: Node<T>)
      requires EraseInv(x, p) && p in nodes && x == p.right && w == p.left && IsBlack(x) && !w.isRed
      requires r == w.left && r.isRed
      modifies nodes`right, nodes`left, nodes`parent, header`parent
      modifies {p, w}`lo, {p, w}`hi, {p, w}`nodeCount, {p, w, r}`isRed, {p, w, r}`bh
      ensures Balanced() && p in nodes
    {
      SiblingLeft(x, p);
      assert NodeOk(r, header, nodes, order) && RedOk(r, header, nodes);
      TurnOuterNephewRight(x, p, w, r);
      forall n | n in nodes ensures RedOk(n, header, nodes) {
        assert old(NodeOk(n, header, nodes, order) && (n != x && n.parent != x ==> RedOk(n, header, nodes)));
      }
    }

    ghost function Width(n: Node?<T>): int
      reads nodes`lo, nodes`hi, this
    {
      if n in nodes then n.hi - n.lo else 0
    }

    /** The rest of a round with x on the left of p, once the sibling w of x is black. */
    method EraseFixupBlackLeft(start: Node?<T>, startParent: Node<T>, sibling: Node<T>)
      returns (x: Node?<T>, p: Node<T>, done: bool)
      requires EraseInv(start, startParent) && startParent in nodes && start == startParent.left && IsBlack(start)
      requires sibling == startParent.right && !sibling.isRed && sibling in nodes
      modifies nodes`left, nodes`right, nodes`parent, nodes`nodeCount, nodes`isRed, header`parent, nodes`lo, nodes`hi, nodes`bh
      ensures if done then Balanced() && x == start && IsBlack(x)
              else EraseInv(x, p) && x == startParent && x.isRed == old(startParent.isRed)
      ensures !done ==> Width(x) > old(Width(start))
    {
      x, p, done := start, startParent, false;
      var w := sibling;
      assert NodeOk(p, header, nodes, order) && NodeOk(w, header, nodes, order);
      if (w.left == null || !w.left.isRed) && (w.right == null || !w.right.isRed) {
        EraseBlackFamilyLeft(x, p, w);
        x, p := p, p.parent;
      } else {
        if w.right == null || !w.right.isRed {
          EraseInnerNephewLeft(x, p, w, w.left);
          w := p.right;
        }
        EraseOuterNephewLeft(x, p, w, w.right);
        UpdateNodeCountToTop(p);
        done := true;
      }
    }

    /** One round with x on the left of p: the tree is balanced, or the trouble moves up to a bigger or a red node. */
    method EraseFixupLeft(start: Node?<T>, startParent: Node<T>) returns (x: Node?<T>, p: Node<T>, done: bool)
      requires EraseInv(start, startParent) && startParent in nodes && start == startParent.left && IsBlack(start)
      modifies nodes`left, nodes`right, nodes`parent, nodes`nodeCount, nodes`isRed, header`parent, nodes`lo, nodes`hi, nodes`bh
      ensures if done then Balanced() && x == start && IsBlack(x) else EraseInv(x, p)
      ensures !done ==> x in nodes && (x.isRed || Width(x) > old(Width(start)))
    {
      SiblingRight(start, startParent);
      if startParent.right.isRed {
        EraseRedSiblingLeft(start, startParent, startParent.right);
      }
      x, p, done := EraseFixupBlackLeft(start, startParent, startParent.right);
    }

    /** The rest of a round with x on the right of p, once the sibling w of x is black. */
    method EraseFixupBlackRight(start: Node?<T>, startParent: Node<T>, sibling: Node<T>)
      returns (x: Node?<T>, p: Node<T>, done: bool)
      requires EraseInv(start, startParent) && startParent in nodes && start == startParent.right && IsBlack(start)
      requires sibling == startParent.left && !sibling.isRed && sibling in nodes
      modifies nodes`right, nodes`left, nodes`parent, nodes`nodeCount, nodes`isRed, header`parent, nodes`lo, nodes`hi, nodes`bh
      ensures if done then Balanced() && x == start && IsBlack(x)
              else EraseInv(x, p) && x == startParent && x.isRed == old(startParent.isRed)
      ensures !done ==> Width(x) > old(Width(start))
    {
      x, p, done := start, startParent, false;
      var w := sibling;
      assert NodeOk(p, header, nodes, order) && NodeOk(w, header, nodes, order);
      if (w.right == null || !w.right.isRed) && (w.left == null || !w.left.isRed) {
        EraseBlackFamilyRight(x, p, w);
        x, p := p, p.parent;
      } else {
        if w.left == null || !w.left.isRed {
          EraseInnerNephewRight(x, p, w, w.right);
          w := p.left;
        }
        EraseOuterNephewRight(x, p, w, w.left);
        UpdateNodeCountToTop(p);
        done := true;
      }
    }

    /** One round with x on the right of p: the tree is balanced, or the trouble moves up to a bigger or a red node. */
    method EraseFixupRight(start: Node?<T>, startParent: Node<T>) returns (x: Node?<T>, p: Node<T>, done: bool)
      requires EraseInv(start, startParent) && startParent in nodes && start == startParent.right && IsBlack(start)
      modifies nodes`right, nodes`left, nodes`parent, nodes`nodeCount, nodes`isRed, header`parent, nodes`lo, nodes`hi, nodes`bh
      ensures if done then Balanced() && x == start && IsBlack(x) else EraseInv(x, p)
      ensures !done ==> x in nodes && (x.isRed || Width(x) > old(Width(start)))
    {
      SiblingLeft(start, startParent);
      if startParent.left.isRed {
        EraseRedSiblingRight(start, startParent, startParent.left);
      }
      x, p, done := EraseFixupBlackRight(start, startParent, startParent.left);
    }

    /** Makes up for the black node that is missing above x. */
    method EraseNodeFixup(start: Node?<T>, startParent: Node<T>)
      requires EraseInv(start, startParent)
      modifies nodes`left, nodes`right, nodes`parent, nodes`nodeCount, nodes`isRed, header`parent, nodes`lo, nodes`hi, nodes`bh
      ensures Balanced()
    {
      var x, p, done := start, startParent, false;
      while !done && x != header.parent && (x == null || !x.isRed)
        invariant if done then Balanced() && IsBlack(x) else EraseInv(x, p)
        invariant x != null ==> x in nodes
        decreases if !done && x != header.parent && (x == null || !x.isRed) then |order| + 1 - Width(x) else 0
      {
        if x != null { assert NodeOk(x, header, nodes, order); }
        if x == p.left {
          x, p, done := EraseFixupLeft(x, p);
        } else {
          x, p, done := EraseFixupRight(x, p);
        }
        if x != null { assert NodeOk(x, header, nodes, order); }
      }
      if x != null {
        if done {
          BlackenAgain(x);
        } else {
          BlackenLast(x, p);
        }
      } else {
        assert p in nodes ==> NodeOk(p, header, nodes, order);
      }
    }

    /** Blackening a black node changes nothing. */
    method BlackenAgain(x: Node<T>)
      requires Balanced() && x in nodes && !x.isRed
      modifies x`isRed, x`bh
      ensures Balanced()
    {
      PaintBlack(x);
      forall n | n in nodes ensures BhOk(n, nodes) && RedOk(n, header, nodes) {
        assert old(BhOk(n, nodes) && RedOk(n, header, nodes));
      }
    }

    /** A red or root x turns black, which pays for the black node that was missing above it. */
    method BlackenLast(x: Node<T>, p: Node<T>)
      requires EraseInv(x, p) && x in nodes && (x.isRed || x == header.parent)
      modifies x`isRed, x`bh
      ensures Balanced()
    {
      assert NodeOk(x, header, nodes, order) && BhOk(x, nodes);
      PaintBlack(x);
      forall n | n in nodes ensures BhOk(n, nodes) && RedOk(n, header, nodes) {
        assert old(NodeOk(n, header, nodes, order) && (n != p ==> BhOk(n, nodes)));
        assert old(n != x && n.parent != x ==> RedOk(n, header, nodes));
      }
    }

    // ---------- Iterators ----------

    /** Steps an iterator: the node after start, or the header after the last one. */
    method Increment(start: Node<T>) returns (node: Node<T>)
      requires Valid() && start in nodes
      ensures node == NodeAt(start.at + 1)
    {
      node := start;
      assert NodeOk(node, header, nodes, order);
      if node.right != null {
        node := node.right;
        while node.left != null
          invariant node in nodes && node.lo == start.at + 1
          decreases node.hi - node.lo
        {
          assert NodeOk(node, header, nodes, order);
          node := node.left;
          assert NodeOk(node, header, nodes, order);
        }
        assert NodeOk(node, header, nodes, order);
        return;
      }
      var parentNode := node.parent;
      while node == parentNode.right
        invariant node == header || node in nodes
        invariant parentNode == node.parent && parentNode != null
        invariant node in nodes ==> node.hi == start.at + 1
        invariant node == header ==> start.at + 1 == |order| && header.right == header.parent && parentNode in nodes
        decreases if node == header then 0 else |order| + 1 - (node.hi - node.lo)
      {
        assert NodeOk(node, header, nodes, order);
        assert parentNode != header ==> NodeOk(parentNode, header, nodes, order);
        node := parentNode;
        parentNode := parentNode.parent;
      }
      assert node in nodes ==> NodeOk(node, header, nodes, order);
      assert parentNode != header ==> NodeOk(parentNode, header, nodes, order);
      if node.right != parentNode {
        node := parentNode;
      }
    }

    /** Steps an iterator back: from the header to the last node, from the first node to the header. */
    method Decrement(start: Node<T>) returns (node: Node<T>)
      requires Valid() && order != [] && (start in nodes || start == header)
      ensures node == NodeAt((if start == header then |order| else start.at) - 1)
    {
      node := start;
      assert NodeOk(header.parent, header, nodes, order);
      assert node in nodes ==> NodeOk(node, header, nodes, order) && RedOk(node, header, nodes);
      assert node.parent in nodes ==> NodeOk(node.parent, header, nodes, order);
      if node.isRed && node.parent.parent == node {
        return node.right;
      }
      if node.left != null {
        node := node.left;
        while node.right != null
          invariant node in nodes && node.hi == start.at
          decreases node.hi - node.lo
        {
          assert NodeOk(node, header, nodes, order);
          node := node.right;
          assert NodeOk(node, header, nodes, order);
        }
        assert NodeOk(node, header, nodes, order);
        return;
      }
      var parentNode := node.parent;
      while node == parentNode.left
        invariant node == header || node in nodes
        invariant parentNode == node.parent && parentNode != null
        invariant node in nodes ==> node.lo == start.at
        invariant node == header ==> start.at == 0 && header.left == header.parent && parentNode in nodes
        decreases if node == header then 0 else |order| + 1 - (node.hi - node.lo)
      {
        assert NodeOk(node, header, nodes, order);
        assert parentNode != header ==> NodeOk(parentNode, header, nodes, order);
        node := parentNode;
        parentNode := parentNode.parent;
      }
      assert node in nodes ==> NodeOk(node, header, nodes, order);
      assert parentNode != header ==> NodeOk(parentNode, header, nodes, order);
      if node.left != parentNode {
        node := parentNode;
      }
    }

    // ---------- Searching ----------

    /** A subtree count is the length of the interval of the subtree. */
    lemma {:induction false} CountIsExact(n: Node<T>)
      requires Shape(header, nodes, order) && Counts(nodes) && n in nodes
      ensures n.nodeCount == n.hi - n.lo
      decreases n.hi - n.lo
    {
      assert NodeOk(n, header, nodes, order) && CountOk(n, nodes);
      if n.left != null {
        assert NodeOk(n.left, header, nodes, order);
        CountIsExact(n.left);
      }
      if n.right != null {
        assert NodeOk(n.right, header, nodes, order);
        CountIsExact(n.right);
      }
    }

    /** What a search needs to know about a node it has reached. */
    lemma Around(s: Node<T>)
      requires Shape(header, nodes, order) && Counts(nodes) && s in nodes
      ensures 0 <= s.lo <= s.at < s.hi <= |order| && order[s.at] == s
      ensures if s.left == null then s.lo == s.at else s.left in nodes && s.left.lo == s.lo && s.left.hi == s.at
      ensures if s.right == null then s.hi == s.at + 1 else s.right in nodes && s.right.lo == s.at + 1 && s.right.hi == s.hi
      ensures (if s.left == null then 0 else s.left.nodeCount) == s.at - s.lo
    {
      assert NodeOk(s, header, nodes, order);
      if s.left != null {
        CountIsExact(s.left);
      }
    }

    /** The first node not less than v, and its index, or the header. */
    method LowerBoundNode(v: T) returns (target: Node<T>, ghost k: int)
      requires Valid()
      ensures LowerBoundAt(less, order, v, k) && target == NodeAt(k)
    {
      var s := header.parent;
      target := header;
      k := |order|;
      ghost var a := 0;
      while s != null
        invariant s != null ==> s in nodes && s.lo == a && s.hi == k
        invariant s == null ==> a == k
        invariant 0 <= a <= k <= |order| && target == NodeAt(k)
        invariant forall i {:trigger order[i]} | 0 <= i < a :: less(order[i].value, v)
        invariant forall i {:trigger order[i]} | k <= i < |order| :: !less(order[i].value, v)
        decreases k - a, s != null
      {
        Around(s);
        if less(s.value, v) {
          a := s.at + 1;
          s := s.right;
        } else {
          target := s;
          k := s.at;
          s := s.left;
        }
      }
    }

    /** The first node that v is less than, and its index, or the header. */
    method UpperBoundNode(v: T) returns (target: Node<T>, ghost k: int)
      requires Valid()
      ensures UpperBoundAt(less, order, v, k) && target == NodeAt(k)
    {
      var s := header.parent;
      target := header;
      k := |order|;
      ghost var a := 0;
      while s != null
        invariant s != null ==> s in nodes && s.lo == a && s.hi == k
        invariant s == null ==> a == k
        invariant 0 <= a <= k <= |order| && target == NodeAt(k)
        invariant forall i {:trigger order[i]} | 0 <= i < a :: !less(v, order[i].value)
        invariant forall i {:trigger order[i]} | k <= i < |order| :: less(v, order[i].value)
        decreases k - a, s != null
      {
        Around(s);
        if less(v, s.value) {
          target := s;
          k := s.at;
          s := s.left;
        } else {
          a := s.at + 1;
          s := s.right;
        }
      }
    }

    /** The node equivalent to v, or the header when there is none. */
    method FindNode(v: T) returns (target: Node<T>)
      requires Valid()
      ensures target == header || (target in nodes && !less(target.value, v) && !less(v, target.value))
      ensures target == header ==> forall n | n in nodes :: less(n.value, v) || less(v, n.value)
    {
      ghost var k;
      target, k := LowerBoundNode(v);
      if target != header {
        if less(v, target.value) {
          target := header;
        }
      }
      if target == header {
        forall n | n in nodes ensures less(n.value, v) || less(v, n.value) {
          assert NodeOk(n, header, nodes, order);
          if n.at >= k {
            assert less(v, order[k].value);
            assert n.at > k ==> less(order[k].value, order[n.at].value);
          }
        }
      }
    }

    /** The k-th node in order, or the header when k is not an index. */
    method SelectNode(k: nat) returns (node: Node<T>)
      requires Valid()
      ensures node == NodeAt(k)
    {
      var s := header.parent;
      var r: nat := k;
      while s != null
        invariant s == null ==> k >= |order|
        invariant s != null ==> s in nodes && s.lo + r == k && (k < s.hi || s.hi == |order|)
        decreases if s == null then 0 else s.hi - s.lo
      {
        Around(s);
        var l := s.left;
        var leftCount := if l == null then 0 else l.nodeCount;
        if r == leftCount {
          return s;
        } else if r < leftCount {
          s := l;
        } else {
          r := r - (leftCount + 1);
          s := s.right;
        }
      }
      node := header;
    }

    /** The number of elements less than v. */
    method RankNode(v: T) returns (rank: nat)
      requires Valid()
      ensures LowerBoundAt(less, order, v, rank)
    {
      var s := header.parent;
      rank := 0;
      ghost var b := |order|;
      while s != null
        invariant s != null ==> s in nodes && s.lo == rank && s.hi == b
        invariant s == null ==> rank == b
        invariant 0 <= rank <= b <= |order|
        invariant forall i {:trigger order[i]} | 0 <= i < rank :: less(order[i].value, v)
        invariant forall i {:trigger order[i]} | b <= i < |order| :: !less(order[i].value, v)
        decreases b - rank, s != null
      {
        Around(s);
        var l := s.left;
        if less(v, s.value) {
          b := s.at;
          s := l;
        } else if less(s.value, v) {
          rank := rank + (if l == null then 1 else 1 + l.nodeCount);
          s := s.right;
        } else {
          rank := rank + (if l == null then 0 else l.nodeCount);
          assert rank == s.at;
          break;
        }
      }
    }

    // ---------- The operations that change the set ----------

    /** The in-order sequence lists every node. */
    lemma NodesAreListed()
      requires Shape(header, nodes, order)
      ensures forall n :: n in nodes <==> n in order
    {
      forall n | n in nodes ensures n in order {
        assert NodeOk(n, header, nodes, order);
      }
    }

    method LinkFirst(v: T) returns (n: Node<T>)
      modifies header`parent, header`left, header`right, `nodes, `order
      ensures fresh(n) && n != header && header.parent == n && header.left == n && header.right == n
      ensures n.value == v && n.isRed && n.parent == header && n.left == null && n.right == null && n.bh == 0
      ensures n.at == 0 && n.lo == 0 && n.hi == 1 && nodes == {n} && order == [n]
    {
      n := new Node(v, header);
      header.parent := n;
      header.left := n;
      header.right := n;
      n.at, n.lo, n.hi := 0, 0, 1;
      nodes, order := {n}, [n];
    }

    /** The first node of an empty tree. */
    method InsertFirst(v: T) returns (n: Node<T>)
      requires Valid() && header.nodeCount == 0
      modifies header, `nodes, `order
      ensures fresh(n) && n.value == v && nodes == {n} && order == [n] && Balanced() && HeaderOk()
    {
      n := LinkFirst(v);
      FinishInsert(n);
    }

    /** The steps that every insertion of a leaf ends with. */
    method FinishInsert(n: Node<T>)
      requires Shape(header, nodes, order) && CountsAside(nodes, n) && Blacks(nodes, null) && Reds(header, nodes, n)
      requires n in nodes && n.isRed
      modifies nodes`left, nodes`right, nodes`parent, nodes`nodeCount, nodes`isRed, header`parent, header`nodeCount
      modifies nodes`lo, nodes`hi, nodes`bh
      ensures Balanced() && header.nodeCount == old(header.nodeCount) + 1
    {
      UpdateNodeCountToTop(n);
      CountHeader();
      InsertNodeFixup(n);
    }

    method CountHeader()
      modifies header`nodeCount
      ensures header.nodeCount == old(header.nodeCount) + 1
    {
      header.nodeCount := header.nodeCount + 1;
    }

    lemma RightIsLater(n: Node<T>)
      requires Shape(header, nodes, order) && n in nodes
      ensures n.right != null ==> n.at + 1 < |order|
      ensures 0 <= n.at < |order| && order[n.at] == n
    {
      assert NodeOk(n, header, nodes, order);
      if n.right != null {
        assert NodeOk(n.right, header, nodes, order);
      }
    }

    /** A new last node, to the right of the old one. */
    method InsertAtEnd(v: T) returns (n: Node<T>)
      requires Valid() && order != []
      modifies header, nodes, `nodes, `order
      ensures fresh(n) && n.value == v && nodes == old(nodes) + {n}
      ensures Inserted(old(order), old(|order|), n, order) && Balanced() && HeaderOk()
    {
      var m := header.right;
      RightIsLater(m);
      n := AttachRight(m, v);
      header.right := n;
      FinishInsert(n);
    }

    /** A new left child of target. */
    method InsertLeftOf(target: Node<T>, v: T) returns (n: Node<T>)
      requires Valid() && target in nodes && target.left == null
      modifies header, nodes, `nodes, `order
      ensures fresh(n) && n.value == v && nodes == old(nodes) + {n}
      ensures Inserted(old(order), old(target.at), n, order) && Balanced() && HeaderOk()
    {
      assert NodeOk(target, header, nodes, order);
      n := AttachLeft(target, v);
      if header.left == target {
        header.left := n;
      }
      FinishInsert(n);
    }

    /** The in-order predecessor of a node with a left child. */
    method FindPredecessor(target: Node<T>) returns (s: Node<T>)
      requires Shape(header, nodes, order) && target in nodes && target.left != null
      ensures s in nodes && s.right == null && s.at + 1 == target.at
      ensures 0 <= s.at < |order| - 1 && order[s.at] == s && order[target.at] == target
    {
      assert NodeOk(target, header, nodes, order);
      s := target.left;
      while s.right != null
        invariant s in nodes && s.hi == target.at
        decreases s.hi - s.lo
      {
        assert NodeOk(s, header, nodes, order);
        s := s.right;
        assert NodeOk(s, header, nodes, order);
      }
      assert NodeOk(s, header, nodes, order);
    }

    /** A new right child of the in-order predecessor of target, which is in target's left subtree. */
    method InsertRightOfPredecessor(target: Node<T>, v: T) returns (n: Node<T>)
      requires Valid() && target in nodes && target.left != null
      modifies header, nodes, `nodes, `order
      ensures fresh(n) && n.value == v && nodes == old(nodes) + {n}
      ensures Inserted(old(order), old(target.at), n, order) && Balanced() && HeaderOk()
    {
      n := AttachBefore(target, v);
      FinishInsert(n);
    }

    /** The header ends are those of the in-order sequence. */
    ghost predicate EndsOk()
      reads this, header`isRed, header`left, header`right
    {
      header.isRed && header.left == NodeAt(0) && header.right == NodeAt(|order| - 1)
    }

    method AttachBefore(target: Node<T>, v: T) returns (n: Node<T>)
      requires Balanced() && EndsOk() && target in nodes && target.left != null
      modifies header`right, nodes`right, nodes`at, nodes`lo, nodes`hi, `nodes, `order
      ensures fresh(n) && nodes == old(nodes) + {n} && n.value == v && n.isRed && EndsOk()
      ensures Inserted(old(order), old(target.at), n, order)
      ensures Shape(header, nodes, order) && CountsAside(nodes, n) && Blacks(nodes, null) && Reds(header, nodes, n)
    {
      var s := FindPredecessor(target);
      n := AttachRight(s, v);
      header.right := if header.right == s then n else header.right;
    }

    /** Putting v where its lower bound is keeps the sequence sorted, unless an equivalent value is there. */
    lemma InsertedSorted(s: seq<Node<T>>, k: int, n: Node<T>, t: seq<Node<T>>)
      requires StrictWeakOrder(less) && Sorted(less, s) && Inserted(s, k, n, t) && LowerBoundAt(less, s, n.value, k)
      requires k < |s| ==> less(n.value, s[k].value)
      ensures Sorted(less, t)
    {
      forall i, j | 0 <= i < j < |t| ensures less(t[i].value, t[j].value) {
        if i == k && j - 1 > k {
          assert less(n.value, s[k].value) && less(s[k].value, s[j - 1].value);
        }
      }
    }

    /**
     Inserts v. An equivalent value is found instead, and nothing changes; otherwise exactly
     one node joins the in-order sequence, at the index k where v belongs.
     */
    method InsertNode(v: T) returns (node: Node<T>, inserted: bool, ghost k: int)
      requires Valid()
      modifies header, nodes, `nodes, `order
      ensures Valid() && LowerBoundAt(less, old(order), v, k)
      ensures inserted ==> fresh(node) && node.value == v && nodes == old(nodes) + {node} && Inserted(old(order), k, node, order)
      ensures !inserted ==> k < |order| && node == order[k] && !less(v, node.value) && !less(node.value, v)
      ensures !inserted ==> nodes == old(nodes) && order == old(order) && unchanged(nodes) && unchanged(header)
    {
      if header.nodeCount == 0 {
        NodesAreListed();
        node := InsertFirst(v);
        return node, true, 0;
      }
      var target;
      target, k := LowerBoundNode(v);
      if target != header && !less(v, target.value) {
        return target, false, k;
      }
      if target == header {
        node := InsertAtEnd(v);
      } else if target.left == null {
        node := InsertLeftOf(target, v);
      } else {
        node := InsertRightOfPredecessor(target, v);
      }
      InsertedSorted(old(order), k, node, order);
      inserted := true;
    }

    /** Moves the first and last links of the header away from z, which is about to go. */
    method LeaveEnds(z: Node<T>)
      requires Valid() && z in nodes
      modifies header`left, header`right
      ensures 0 <= z.at < |order| && order[z.at] == z
      ensures header.left == (if |order| == 1 then header else if z.at == 0 then order[1] else order[0])
      ensures header.right == (if |order| == 1 then header else if z.at == |order| - 1 then order[|order| - 2] else order[|order| - 1])
    {
      assert NodeOk(z, header, nodes, order);
      if header.nodeCount == 1 {
        header.left := header;
        header.right := header;
      } else if header.left == z {
        var next := Increment(z);
        header.left := next;
      } else if header.right == z {
        var previous := Decrement(z);
        header.right := previous;
      }
    }

    /** Takes z out of the tree: x is what now hangs below p where a node was lost, and z has the colour of that loss. */
    method TakeOut(z: Node<T>) returns (x: Node?<T>, p: Node<T>)
      requires Balanced() && z in nodes
      modifies nodes`left, nodes`right, nodes`parent, header`parent, nodes`at, nodes`lo, nodes`hi, `nodes, `order
      modifies nodes`isRed, nodes`bh
      ensures nodes == old(nodes) - {z} && Removed(old(order), old(z.at), order)
      ensures Shape(header, nodes, order) && CountsAside(nodes, p) && HangsBelow(x, p)
      ensures if z.isRed then Blacks(nodes, null) && Reds(header, nodes, null)
              else RedsAwayFrom(x) && Blacks(nodes, p) && (p in nodes ==> ShortSide(x, p))
    {
      if z.left == null {
        x := z.right;
        p := Unlink(z, x);
      } else if z.right == null {
        x := z.left;
        p := Unlink(z, x);
      } else {
        assert NodeOk(z, header, nodes, order);
        var y := z.right;
        while y.left != null
          invariant y in nodes && y.lo == z.at + 1
          decreases y.hi - y.lo
        {
          assert NodeOk(y, header, nodes, order);
          y := y.left;
          assert NodeOk(y, header, nodes, order);
        }
        x := y.right;
        p := Relink(z, y, x);
      }
    }

    /** Takes z out of the set. The in-order sequence loses exactly z; every other node stays where it was. */
    method EraseNode(z: Node<T>)
      requires Valid() && z in nodes
      modifies header, nodes, `nodes, `order
      ensures Valid() && nodes == old(nodes) - {z} && Removed(old(order), old(z.at), order)
    {
      EraseUnordered(z);
    }

    /** The same, for the invariant without the order of the values. */
    method EraseUnordered(z: Node<T>)
      requires Valid() && z in nodes
      modifies header, nodes, `nodes, `order
      ensures Balanced() && HeaderOk() && nodes == old(nodes) - {z} && Removed(old(order), old(z.at), order)
    {
      LeaveEnds(z);
      TakeOutAndFixUp(z);
      CountOneLess();
    }

    method CountOneLess()
      requires header.nodeCount == |order| + 1
      modifies header`nodeCount
      ensures header.nodeCount == |order|
    {
      header.nodeCount := header.nodeCount - 1;
    }

    method TakeOutAndFixUp(z: Node<T>)
      requires Balanced() && z in nodes
      modifies nodes, header`parent, `nodes, `order
      ensures Balanced() && nodes == old(nodes) - {z} && Removed(old(order), old(z.at), order)
    {
      var x, p := TakeOut(z);
      UpdateNodeCountToTop(p);
      if !z.isRed {
        EraseNodeFixup(x, p);
      }
    }

    /** Erases at an iterator; the result is the old in-order successor, which is still in the tree. */
    method Erase(iter: Node<T>) returns (next: Node<T>)
      requires Valid() && (iter in nodes || iter == header)
      modifies header, nodes, `nodes, `order
      ensures Valid()
      ensures iter == header ==> next == header && nodes == old(nodes) && order == old(order)
      ensures iter != header ==> nodes == old(nodes) - {iter} && Removed(old(order), old(iter.at), order)
      ensures iter != header ==> next == old(NodeAt(iter.at + 1)) && next == NodeAt(old(iter.at))
    {
      if iter == header {
        return iter;
      }
      assert NodeOk(iter, header, nodes, order);
      next := Increment(iter);
      EraseNode(iter);
    }

    /** Erases the element equivalent to v, if there is one, and says how many that were. */
    method EraseValue(v: T) returns (count: nat)
      requires Valid()
      modifies header, nodes, `nodes, `order
      ensures Valid() && count <= 1
      ensures count == 0 ==> nodes == old(nodes) && order == old(order)
      ensures count == 0 ==> forall n | n in old(nodes) :: less(n.value, v) || less(v, n.value)
      ensures count == 1 ==> exists z :: z in old(nodes) && !less(z.value, v) && !less(v, z.value) && nodes == old(nodes) - {z}
    {
      var z := FindNode(v);
      if z == header {
        return 0;
      }
      var _ := Erase(z);
      count := 1;
    }

    /** Empties the set. */
    method Clear()
      requires Valid()
      modifies header, `nodes, `order
      ensures Valid() && order == [] && nodes == {}
    {
      ResetHeaderNode();
    }
  }
}
