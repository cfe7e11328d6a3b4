/** Copying a set: new nodes with the shape, the colours and the counts of the old ones. */
module RankCopies {
  import opened RankNodes
  import opened RankSets

  /** The nodes of the subtree of n. */
  ghost function Below<T(!new)>(s: RankSet<T>, n: Node?<T>): set<Node<T>>
    reads s, s.nodes, Just(n)
  {
    if n == null then {} else set k | k in s.nodes && n.lo <= k.at < n.hi
  }

  /** c is what k becomes under twin. */
  ghost predicate Mapped<T>(k: Node?<T>, c: Node?<T>, twin: map<Node<T>, Node<T>>)
  {
    if k == null then c == null else k in twin && c == twin[k]
  }

  /** c is as k is, with twins for children. */
  ghost predicate TwinOk<T>(k: Node<T>, c: Node<T>, twin: map<Node<T>, Node<T>>)
    reads k`isRed, k`nodeCount, k`left, k`right, k`at, k`lo, k`hi, k`bh
    reads c`isRed, c`nodeCount, c`left, c`right, c`at, c`lo, c`hi, c`bh
  {
    && c.isRed == k.isRed && c.nodeCount == k.nodeCount && c.value == k.value
    && c.at == k.at && c.lo == k.lo && c.hi == k.hi && c.bh == k.bh
    && Mapped(k.left, c.left, twin) && Mapped(k.right, c.right, twin)
  }

  /** The parent of c is the twin of k's; the twin of root has none. */
  ghost predicate ParentTwinOk<T>(k: Node<T>, c: Node<T>, twin: map<Node<T>, Node<T>>, root: Node?<T>)
    reads k`parent, c`parent
  {
    if k == root then c.parent == null else Mapped(k.parent, c.parent, twin) && k.parent != null
  }

  ghost predicate AreTwins<T>(twin: map<Node<T>, Node<T>>)
    reads twin.Keys`isRed, twin.Keys`nodeCount, twin.Keys`left, twin.Keys`right, twin.Keys`at, twin.Keys`lo, twin.Keys`hi, twin.Keys`bh
    reads twin.Values`isRed, twin.Values`nodeCount, twin.Values`left, twin.Values`right, twin.Values`at, twin.Values`lo, twin.Values`hi, twin.Values`bh
  {
    forall k {:trigger TwinOk(k, twin[k], twin)} :: k in twin ==> TwinOk(k, twin[k], twin)
  }

  ghost predicate HaveTwinParents<T>(twin: map<Node<T>, Node<T>>, root: Node?<T>)
    reads twin.Keys`parent, twin.Values`parent
  {
    forall k {:trigger ParentTwinOk(k, twin[k], twin, root)} :: k in twin ==> ParentTwinOk(k, twin[k], twin, root)
  }

  /** twin is what part is, as far as part goes. */
  ghost predicate Extends<T>(twin: map<Node<T>, Node<T>>, part: map<Node<T>, Node<T>>)
  {
    forall k {:trigger part[k]} :: k in part ==> k in twin && twin[k] == part[k]
  }

  /** The subtree of n is n and the subtrees of its children, which have nothing in common. */
  lemma BelowInParts<T(!new)>(s: RankSet<T>, n: Node<T>)
    requires Shape(s.header, s.nodes, s.order) && n in s.nodes
    ensures Below(s, n) == Below(s, n.left) + Below(s, n.right) + {n}
    ensures Below(s, n.left) !! Below(s, n.right) && n !in Below(s, n.left) + Below(s, n.right)
    ensures (n.left != null ==> n.left in Below(s, n.left)) && (n.right != null ==> n.right in Below(s, n.right))
  {
    assert NodeOk(n, s.header, s.nodes, s.order);
    assert n.left != null ==> NodeOk(n.left, s.header, s.nodes, s.order);
    assert n.right != null ==> NodeOk(n.right, s.header, s.nodes, s.order);
    forall k | k in Below(s, n)
      ensures k in Below(s, n.left) + Below(s, n.right) + {n}
    {
      assert AtOk(k, s.order) && AtOk(n, s.order);
    }
  }

  /** Twins of some nodes stay twins among more. */
  lemma TwinAmongMore<T>(k: Node<T>, c: Node<T>, twin: map<Node<T>, Node<T>>, more: map<Node<T>, Node<T>>)
    requires TwinOk(k, c, twin) && Extends(more, twin)
    ensures TwinOk(k, c, more)
  {
  }

  lemma ParentTwinAmongMore<T>(k: Node<T>, c: Node<T>, twin: map<Node<T>, Node<T>>, more: map<Node<T>, Node<T>>, root: Node?<T>, up: Node<T>)
    requires ParentTwinOk(k, c, twin, root) && Extends(more, twin) && k != root && k != up
    ensures ParentTwinOk(k, c, more, up)
  {
  }

  /** The copies of the children come below the copy of n. */
  method SetChildren<T>(n: Node<T>, copy: Node<T>, left: Node?<T>, right: Node?<T>,
                              ghost lefts: map<Node<T>, Node<T>>, ghost rights: map<Node<T>, Node<T>>,
                              ghost twin: map<Node<T>, Node<T>>)
    requires n !in lefts && n !in rights && copy != n && copy !in lefts.Keys + rights.Keys
    requires twin.Keys == lefts.Keys + rights.Keys + {n} && twin[n] == copy
    requires Extends(twin, lefts) && Extends(twin, rights)
    requires Mapped(n.left, left, lefts) && Mapped(n.right, right, rights)
    requires AreTwins(lefts) && AreTwins(rights)
    requires copy.isRed == n.isRed && copy.nodeCount == n.nodeCount && copy.value == n.value
    requires copy.at == n.at && copy.lo == n.lo && copy.hi == n.hi && copy.bh == n.bh
    requires copy !in lefts.Values && copy !in rights.Values
    modifies copy`left, copy`right
    ensures AreTwins(twin)
  {
    copy.left := left;
    copy.right := right;
    forall k | k in twin
      ensures TwinOk(k, twin[k], twin)
    {
      if k in lefts {
        assert old(TwinOk(k, lefts[k], lefts));
        TwinAmongMore(k, lefts[k], lefts, twin);
      } else if k in rights {
        assert old(TwinOk(k, rights[k], rights));
        TwinAmongMore(k, rights[k], rights, twin);
      }
    }
  }

  /** And know it as their parent. */
  method SetParents<T>(n: Node<T>, copy: Node<T>, left: Node?<T>, right: Node?<T>,
                             ghost lefts: map<Node<T>, Node<T>>, ghost rights: map<Node<T>, Node<T>>,
                             ghost twin: map<Node<T>, Node<T>>)
    requires n !in lefts && n !in rights && copy.parent == null
    requires twin.Keys == lefts.Keys + rights.Keys + {n} && twin[n] == copy
    requires Extends(twin, lefts) && Extends(twin, rights)
    requires Mapped(n.left, left, lefts) && Mapped(n.right, right, rights)
    requires n.left != null ==> n.left.parent == n
    requires n.right != null ==> n.right.parent == n
    requires HaveTwinParents(lefts, n.left) && HaveTwinParents(rights, n.right)
    requires forall a, b {:trigger twin[a], twin[b]} :: a in twin && b in twin && twin[a] == twin[b] ==> a == b
    requires twin.Keys !! twin.Values
    modifies Just(left)`parent, Just(right)`parent
    ensures HaveTwinParents(twin, n)
  {
    if left != null {
      left.parent := copy;
    }
    if right != null {
      right.parent := copy;
    }
    forall k | k in twin
      ensures ParentTwinOk(k, twin[k], twin, n)
    {
      if k == n.left || k == n.right {
      } else if k in lefts {
        assert old(ParentTwinOk(k, lefts[k], lefts, n.left));
        ParentTwinAmongMore(k, lefts[k], lefts, twin, n.left, n);
      } else if k in rights {
        assert old(ParentTwinOk(k, rights[k], rights, n.right));
        ParentTwinAmongMore(k, rights[k], rights, twin, n.right, n);
      }
    }
  }

  /** copy has the contents of n, and no parent yet. */
  ghost predicate AlikeAlone<T>(n: Node<T>, copy: Node<T>)
    reads n`isRed, n`nodeCount, n`at, n`lo, n`hi, n`bh
    reads copy`isRed, copy`nodeCount, copy`at, copy`lo, copy`hi, copy`bh, copy`parent
  {
    && copy.isRed == n.isRed && copy.nodeCount == n.nodeCount && copy.value == n.value && copy.parent == null
    && copy.at == n.at && copy.lo == n.lo && copy.hi == n.hi && copy.bh == n.bh
  }

  /** The copy of one node, still without links. */
  method CopyNode<T>(n: Node<T>) returns (copy: Node<T>)
    ensures fresh(copy) && AlikeAlone(n, copy)
  {
    copy := new Node(n.value, null);
    copy.isRed := n.isRed;
    copy.nodeCount := n.nodeCount;
    copy.at, copy.lo, copy.hi, copy.bh := n.at, n.lo, n.hi, n.bh;
  }

  /** The twins of two subtrees and of the node above them are twins together. */
  method JoinTwins<T(!new)>(s: RankSet<T>, n: Node<T>, copy: Node<T>, left: Node?<T>, right: Node?<T>,
                            ghost lefts: map<Node<T>, Node<T>>, ghost rights: map<Node<T>, Node<T>>)
    returns (ghost twin: map<Node<T>, Node<T>>)
    requires Shape(s.header, s.nodes, s.order) && n in s.nodes
    requires lefts.Keys == Below(s, n.left) && rights.Keys == Below(s, n.right)
    requires Mapped(n.left, left, lefts) && Mapped(n.right, right, rights)
    requires AreTwins(lefts) && AreTwins(rights)
    requires HaveTwinParents(lefts, n.left) && HaveTwinParents(rights, n.right)
    requires AlikeAlone(n, copy)
    requires s.nodes !! lefts.Values && s.nodes !! rights.Values && copy !in s.nodes
    requires copy !in lefts.Values && copy !in rights.Values
    modifies copy`left, copy`right, Just(left)`parent, Just(right)`parent
    ensures twin.Keys == Below(s, n) && twin.Values == lefts.Values + rights.Values + {copy}
    ensures Mapped(n, copy, twin) && AreTwins(twin) && HaveTwinParents(twin, n)
  {
    LinksOf(s, n);
    twin := Assemble(s, n, copy, lefts, rights);
    LinkTwins(n, copy, left, right, lefts, rights, twin);
  }

  method LinkTwins<T>(n: Node<T>, copy: Node<T>, left: Node?<T>, right: Node?<T>,
                      ghost lefts: map<Node<T>, Node<T>>, ghost rights: map<Node<T>, Node<T>>,
                      ghost twin: map<Node<T>, Node<T>>)
    requires n !in lefts && n !in rights && copy != n && copy !in lefts.Keys + rights.Keys
    requires twin.Keys == lefts.Keys + rights.Keys + {n} && twin[n] == copy
    requires Extends(twin, lefts) && Extends(twin, rights)
    requires Mapped(n.left, left, lefts) && Mapped(n.right, right, rights)
    requires n.left != null ==> n.left.parent == n
    requires n.right != null ==> n.right.parent == n
    requires AreTwins(lefts) && AreTwins(rights)
    requires HaveTwinParents(lefts, n.left) && HaveTwinParents(rights, n.right)
    requires AlikeAlone(n, copy)
    requires copy !in lefts.Values && copy !in rights.Values
    requires forall a, b {:trigger twin[a], twin[b]} :: a in twin && b in twin && twin[a] == twin[b] ==> a == b
    requires twin.Keys !! twin.Values
    modifies copy`left, copy`right, Just(left)`parent, Just(right)`parent
    ensures AreTwins(twin) && HaveTwinParents(twin, n)
  {
    SetChildren(n, copy, left, right, lefts, rights, twin);
    SetParents(n, copy, left, right, lefts, rights, twin);
  }

  lemma Assemble<T(!new)>(s: RankSet<T>, n: Node<T>, copy: Node<T>,
                          lefts: map<Node<T>, Node<T>>, rights: map<Node<T>, Node<T>>)
    returns (twin: map<Node<T>, Node<T>>)
    requires Shape(s.header, s.nodes, s.order) && n in s.nodes
    requires lefts.Keys == Below(s, n.left) && rights.Keys == Below(s, n.right)
    requires AreTwins(lefts) && AreTwins(rights) && copy.at == n.at
    requires s.nodes !! lefts.Values && s.nodes !! rights.Values && copy !in s.nodes
    ensures n !in lefts && n !in rights && copy !in lefts.Keys + rights.Keys
    ensures twin.Keys == Below(s, n) == lefts.Keys + rights.Keys + {n} && twin[n] == copy
    ensures Extends(twin, lefts) && Extends(twin, rights)
    ensures twin.Values == lefts.Values + rights.Values + {copy} && twin.Keys !! twin.Values
    ensures forall a, b {:trigger twin[a], twin[b]} :: a in twin && b in twin && twin[a] == twin[b] ==> a == b
  {
    BelowInParts(s, n);
    twin := PutTogether(lefts, rights, n, copy);
    TwinsAreApart(s, n, copy, lefts, rights, twin);
  }

  lemma PutTogether<T>(lefts: map<Node<T>, Node<T>>, rights: map<Node<T>, Node<T>>, n: Node<T>, copy: Node<T>)
    returns (twin: map<Node<T>, Node<T>>)
    requires lefts.Keys !! rights.Keys && n !in lefts.Keys + rights.Keys
    ensures twin.Keys == lefts.Keys + rights.Keys + {n} && twin[n] == copy
    ensures Extends(twin, lefts) && Extends(twin, rights)
    ensures twin.Values == lefts.Values + rights.Values + {copy}
  {
    twin := lefts + rights + map[n := copy];
    assert twin.Values <= lefts.Values + rights.Values + {copy};
    forall c | c in lefts.Values + rights.Values + {copy}
      ensures c in twin.Values
    {
      if c in lefts.Values {
        var k :| k in lefts && lefts[k] == c;
        assert twin[k] == c;
      } else if c in rights.Values {
        var k :| k in rights && rights[k] == c;
        assert twin[k] == c;
      } else {
        assert twin[n] == c;
      }
    }
  }

  /** Different nodes have different twins, since twins have the same places. */
  lemma TwinsAreApart<T(!new)>(s: RankSet<T>, n: Node<T>, copy: Node<T>, lefts: map<Node<T>, Node<T>>,
                               rights: map<Node<T>, Node<T>>, twin: map<Node<T>, Node<T>>)
    requires Shape(s.header, s.nodes, s.order) && twin.Keys <= s.nodes
    requires twin.Keys == lefts.Keys + rights.Keys + {n} && twin[n] == copy && copy.at == n.at
    requires Extends(twin, lefts) && Extends(twin, rights) && AreTwins(lefts) && AreTwins(rights)
    ensures forall a, b {:trigger twin[a], twin[b]} :: a in twin && b in twin && twin[a] == twin[b] ==> a == b
  {
    forall a | a in twin
      ensures twin[a].at == a.at
    {
      if a in lefts {
        assert TwinOk(a, lefts[a], lefts);
      } else if a in rights {
        assert TwinOk(a, rights[a], rights);
      }
    }
    forall a, b | a in twin && b in twin && twin[a] == twin[b]
      ensures a == b
    {
      assert AtOk(a, s.order) && AtOk(b, s.order);
    }
  }

  lemma LinksOf<T(!new)>(s: RankSet<T>, n: Node<T>)
    requires Shape(s.header, s.nodes, s.order) && n in s.nodes
    ensures n.left != null ==> n.left.parent == n
    ensures n.right != null ==> n.right.parent == n
  {
    assert NodeOk(n, s.header, s.nodes, s.order);
  }

  /** A copy of the subtree of n. */
  method CopyNodes<T(!new)>(s: RankSet<T>, n: Node?<T>) returns (c: Node?<T>, ghost twin: map<Node<T>, Node<T>>)
    requires Shape(s.header, s.nodes, s.order) && (n == null || n in s.nodes)
    ensures fresh(twin.Values) && twin.Keys == Below(s, n)
    ensures Mapped(n, c, twin) && AreTwins(twin) && HaveTwinParents(twin, n)
    decreases if n == null then 0 else n.hi - n.lo, 2
  {
    if n == null {
      return null, map[];
    }
    c, twin := CopySubtree(s, n);
  }

  method CopySubtree<T(!new)>(s: RankSet<T>, n: Node<T>) returns (c: Node<T>, ghost twin: map<Node<T>, Node<T>>)
    requires Shape(s.header, s.nodes, s.order) && n in s.nodes
    ensures fresh(twin.Values) && twin.Keys == Below(s, n)
    ensures Mapped(n, c, twin) && AreTwins(twin) && HaveTwinParents(twin, n)
    decreases n.hi - n.lo, 1
  {
    SmallerBelow(s, n);
    c := CopyNode(n);
    var left, right;
    ghost var lefts, rights;
    left, lefts, right, rights := CopyChildren(s, n, c);
    ghost var made := lefts.Values + rights.Values + {c};
    assert fresh(made);
    twin := JoinTwins(s, n, c, left, right, lefts, rights);
  }

  method CopyChildren<T(!new)>(s: RankSet<T>, n: Node<T>, ghost copy: Node<T>)
    returns (left: Node?<T>, ghost lefts: map<Node<T>, Node<T>>, right: Node?<T>, ghost rights: map<Node<T>, Node<T>>)
    requires Shape(s.header, s.nodes, s.order) && n in s.nodes && AlikeAlone(n, copy)
    ensures fresh(lefts.Values) && lefts.Keys == Below(s, n.left)
    ensures Mapped(n.left, left, lefts) && AreTwins(lefts) && HaveTwinParents(lefts, n.left)
    ensures fresh(rights.Values) && rights.Keys == Below(s, n.right)
    ensures Mapped(n.right, right, rights) && AreTwins(rights) && HaveTwinParents(rights, n.right)
    ensures (left != null ==> fresh(left)) && (right != null ==> fresh(right))
    ensures s.nodes !! lefts.Values && s.nodes !! rights.Values
    ensures copy !in lefts.Values && copy !in rights.Values
    ensures Shape(s.header, s.nodes, s.order) && AlikeAlone(n, copy)
    decreases n.hi - n.lo, 0
  {
    SmallerBelow(s, n);
    left, lefts := CopyNodes(s, n.left);
    right, rights := CopyNodes(s, n.right);
    assert left != null ==> left in lefts.Values;
    assert right != null ==> right in rights.Values;
  }

  lemma SmallerBelow<T(!new)>(s: RankSet<T>, n: Node<T>)
    requires Shape(s.header, s.nodes, s.order) && n in s.nodes
    ensures n.left != null ==> n.left in s.nodes && 0 <= n.left.hi - n.left.lo < n.hi - n.lo
    ensures n.right != null ==> n.right in s.nodes && 0 <= n.right.hi - n.right.lo < n.hi - n.lo
    ensures n.lo < n.hi
  {
    assert NodeOk(n, s.header, s.nodes, s.order);
    assert n.left != null ==> NodeOk(n.left, s.header, s.nodes, s.order);
    assert n.right != null ==> NodeOk(n.right, s.header, s.nodes, s.order);
  }

  // ---------- The copied set ----------

  /** The twins of all nodes of o hang below the header of s as the nodes hang below that of o. */
  ghost predicate IsCopy<T(!new)>(o: RankSet<T>, s: RankSet<T>, twin: map<Node<T>, Node<T>>)
    reads o, s, o.nodes, s.nodes, o.header, s.header, twin.Keys, twin.Values
  {
    && twin.Keys == o.nodes && twin.Values == s.nodes && s.header !in s.nodes
    && |s.order| == |o.order|
    && (forall i {:trigger s.order[i]} | 0 <= i < |s.order| :: o.order[i] in twin && s.order[i] == twin[o.order[i]])
    && AreTwins(twin)
    && Mapped(o.header.parent, s.header.parent, twin)
    && (forall k {:trigger ParentIsTwin(o, s, twin, k, twin[k])} | k in twin :: ParentIsTwin(o, s, twin, k, twin[k]))
  }

  ghost predicate ParentIsTwin<T(!new)>(o: RankSet<T>, s: RankSet<T>, twin: map<Node<T>, Node<T>>, k: Node<T>, c: Node<T>)
    reads o.header`parent, k`parent, c`parent
  {
    if k == o.header.parent then c.parent == s.header
    else k.parent in twin && c.parent == twin[k.parent]
  }

  lemma CopiedNode<T(!new)>(o: RankSet<T>, s: RankSet<T>, twin: map<Node<T>, Node<T>>, k: Node<T>)
    requires o.Balanced() && IsCopy(o, s, twin) && k in twin
    ensures twin[k] in s.nodes
    ensures AtOk(twin[k], s.order) && CountOk(twin[k], s.nodes) && BhOk(twin[k], s.nodes)
    ensures PlaceOk(twin[k], s.nodes, s.order)
  {
    assert TwinOk(k, twin[k], twin);
    assert NodeOk(k, o.header, o.nodes, o.order);
    assert CountOk(k, o.nodes) && BhOk(k, o.nodes);
    assert k.left != null ==> TwinOk(k.left, twin[k.left], twin);
    assert k.right != null ==> TwinOk(k.right, twin[k.right], twin);
    assert s.order[k.at] == twin[o.order[k.at]];
  }

  lemma CopiedLinks<T(!new)>(o: RankSet<T>, s: RankSet<T>, twin: map<Node<T>, Node<T>>, k: Node<T>)
    requires o.Balanced() && IsCopy(o, s, twin) && k in twin
    ensures twin[k] in s.nodes
    ensures LinkOk(twin[k], s.header, s.nodes) && RedOk(twin[k], s.header, s.nodes)
  {
    assert TwinOk(k, twin[k], twin) && ParentIsTwin(o, s, twin, k, twin[k]);
    assert NodeOk(k, o.header, o.nodes, o.order) && RedOk(k, o.header, o.nodes);
    assert k.left != null ==> ParentIsTwin(o, s, twin, k.left, twin[k.left]);
    assert k.right != null ==> ParentIsTwin(o, s, twin, k.right, twin[k.right]);
    if k == o.header.parent {
      assert s.header.parent == twin[k];
    } else {
      assert TwinOk(k.parent, twin[k.parent], twin);
      if o.header.parent != null {
        assert TwinOk(o.header.parent, twin[o.header.parent], twin);
        assert AtOk(k, o.order) && AtOk(o.header.parent, o.order);
        assert twin[k] != s.header.parent;
      }
    }
  }

  lemma CopyIsIndexed<T(!new)>(o: RankSet<T>, s: RankSet<T>, twin: map<Node<T>, Node<T>>)
    requires o.Balanced() && IsCopy(o, s, twin)
    ensures forall i {:trigger s.order[i]} | 0 <= i < |s.order| :: s.order[i] in s.nodes && s.order[i].at == i
  {
    forall i | 0 <= i < |s.order|
      ensures s.order[i] in s.nodes && s.order[i].at == i
    {
      var c := s.order[i];
      var k := o.order[i];
      assert k in twin && c == twin[k];
      CopiedNode(o, s, twin, k);
      PlaceCopied(twin, k);
    }
  }

  lemma PlaceCopied<T>(twin: map<Node<T>, Node<T>>, k: Node<T>)
    requires AreTwins(twin) && k in twin
    ensures twin[k].at == k.at
  {
    assert TwinOk(k, twin[k], twin);
  }

  /** So the copy has everything the original has. */
  lemma CopyIsBalanced<T(!new)>(o: RankSet<T>, s: RankSet<T>, twin: map<Node<T>, Node<T>>)
    requires o.Balanced() && IsCopy(o, s, twin)
    ensures s.Balanced()
  {
    forall t | t in s.nodes
      ensures NodeOk(t, s.header, s.nodes, s.order) && AtOk(t, s.order)
      ensures CountOk(t, s.nodes) && BhOk(t, s.nodes) && RedOk(t, s.header, s.nodes)
    {
      var k :| k in twin && twin[k] == t;
      CopiedNode(o, s, twin, k);
      CopiedLinks(o, s, twin, k);
    }
    CopyIsIndexed(o, s, twin);
    if o.header.parent != null {
      assert TwinOk(o.header.parent, twin[o.header.parent], twin);
    }
  }

  ghost function Images<T>(order: seq<Node<T>>, twin: map<Node<T>, Node<T>>): (images: seq<Node<T>>)
    requires forall i {:trigger order[i]} | 0 <= i < |order| :: order[i] in twin
    ensures |images| == |order|
    ensures forall i {:trigger images[i]} | 0 <= i < |order| :: images[i] == twin[order[i]]
  {
    seq(|order|, i requires 0 <= i < |order| => twin[order[i]])
  }

  /** Copied nodes become the tree of an empty set. */
  method HangBelow<T(!new)>(other: RankSet<T>, s: RankSet<T>, root: Node?<T>, ghost twin: map<Node<T>, Node<T>>)
    requires twin.Keys == other.nodes
    requires forall i {:trigger other.order[i]} | 0 <= i < |other.order| :: other.order[i] in twin
    requires Mapped(other.header.parent, root, twin) && AreTwins(twin) && HaveTwinParents(twin, other.header.parent)
    requires forall a, b {:trigger twin[a], twin[b]} :: a in twin && b in twin && twin[a] == twin[b] ==> a == b
    requires s != other && s.header !in twin.Values && s.header != other.header && s.header !in other.nodes
    requires twin.Values !! other.nodes && other.header !in twin.Values
    modifies s`nodes, s`order, s.header`parent, s.header`nodeCount, Just(root)`parent
    ensures IsCopy(other, s, twin)
    ensures s.header.nodeCount == other.header.nodeCount
  {
    s.header.parent := root;
    if s.header.parent != null {
      s.header.parent.parent := s.header;
    }
    s.header.nodeCount := other.header.nodeCount;
    s.nodes := twin.Values;
    s.order := Images(other.order, twin);
    assert AreTwins(twin);
    forall k | k in twin
      ensures ParentIsTwin(other, s, twin, k, twin[k])
    {
      if k != other.header.parent {
        assert old(ParentTwinOk(k, twin[k], twin, other.header.parent));
      }
    }
  }

  lemma ValueCopied<T>(twin: map<Node<T>, Node<T>>, k: Node<T>)
    requires AreTwins(twin) && k in twin
    ensures twin[k].value == k.value
  {
    assert TwinOk(k, twin[k], twin);
  }

  lemma ValuesCopied<T(!new)>(o: RankSet<T>, s: RankSet<T>, twin: map<Node<T>, Node<T>>)
    requires IsCopy(o, s, twin)
    ensures forall i {:trigger s.order[i]} | 0 <= i < |s.order| :: s.order[i].value == o.order[i].value
  {
    forall i | 0 <= i < |s.order|
      ensures s.order[i].value == o.order[i].value
    {
      var c := s.order[i];
      var k := o.order[i];
      assert k in twin && c == twin[k];
      ValueCopied(twin, k);
    }
  }

  lemma TwinsDiffer<T(!new)>(s: RankSet<T>, twin: map<Node<T>, Node<T>>)
    requires Shape(s.header, s.nodes, s.order) && twin.Keys == s.nodes && AreTwins(twin)
    ensures forall a, b {:trigger twin[a], twin[b]} :: a in twin && b in twin && twin[a] == twin[b] ==> a == b
  {
    forall a, b | a in twin && b in twin && twin[a] == twin[b]
      ensures a == b
    {
      assert TwinOk(a, twin[a], twin) && TwinOk(b, twin[b], twin);
      assert AtOk(a, s.order) && AtOk(b, s.order);
    }
  }

  /** That tree is balanced, and has the values of the other in the same order. */
  method HangCopies<T(!new)>(other: RankSet<T>, s: RankSet<T>, root: Node?<T>, ghost twin: map<Node<T>, Node<T>>)
    requires other.Balanced() && twin.Keys == other.nodes
    requires forall i {:trigger other.order[i]} | 0 <= i < |other.order| :: other.order[i] in twin
    requires Mapped(other.header.parent, root, twin) && AreTwins(twin) && HaveTwinParents(twin, other.header.parent)
    requires forall a, b {:trigger twin[a], twin[b]} :: a in twin && b in twin && twin[a] == twin[b] ==> a == b
    requires s != other && s.header !in twin.Values && s.header != other.header && s.header !in other.nodes
    requires twin.Values !! other.nodes && other.header !in twin.Values
    modifies s`nodes, s`order, s.header`parent, s.header`nodeCount, Just(root)`parent
    ensures s.Balanced() && s.nodes == twin.Values && |s.order| == |other.order|
    ensures forall i {:trigger s.order[i]} | 0 <= i < |s.order| :: s.order[i].value == other.order[i].value
    ensures s.header.nodeCount == other.header.nodeCount
  {
    HangBelow(other, s, root, twin);
    CopyIsBalanced(other, s, twin);
    ValuesCopied(other, s, twin);
  }

  /** Copies of all nodes, a different one for each. */
  method CopyAll<T(!new)>(other: RankSet<T>) returns (root: Node?<T>, ghost twin: map<Node<T>, Node<T>>)
    requires Shape(other.header, other.nodes, other.order)
    ensures fresh(twin.Values) && twin.Keys == other.nodes
    ensures (root != null ==> root in twin.Values) && Mapped(other.header.parent, root, twin)
    ensures AreTwins(twin) && HaveTwinParents(twin, other.header.parent)
    ensures forall a, b {:trigger twin[a], twin[b]} :: a in twin && b in twin && twin[a] == twin[b] ==> a == b
  {
    root, twin := CopyNodes(other, other.header.parent);
    AllBelowRoot(other);
    TwinsDiffer(other, twin);
    assert root != null ==> root in twin.Values;
  }

  /** The links of the copied set, still without its least and greatest node. */
  method CopyTree<T(!new)>(other: RankSet<T>) returns (s: RankSet<T>)
    requires other.Valid()
    ensures fresh(s) && fresh(s.header) && fresh(s.nodes) && s.less == other.less
    ensures s.Balanced() && s.header.isRed && s.header.nodeCount == |s.order|
    ensures |s.order| == |other.order|
    ensures forall i {:trigger s.order[i]} | 0 <= i < |s.order| :: s.order[i].value == other.order[i].value
  {
    s := new RankSet(other.less, other.header.value);
    var root;
    ghost var twin;
    root, twin := CopyAll(other);
    assert forall i {:trigger other.order[i]} | 0 <= i < |other.order| :: other.order[i] in twin;
    HangCopies(other, s, root, twin);
  }

  lemma AllBelowRoot<T(!new)>(s: RankSet<T>)
    requires Shape(s.header, s.nodes, s.order)
    ensures Below(s, s.header.parent) == s.nodes
  {
    forall k | k in s.nodes
      ensures k in Below(s, s.header.parent)
    {
      assert AtOk(k, s.order);
    }
  }

  lemma CopyIsSorted<T(!new)>(o: RankSet<T>, s: RankSet<T>)
    requires Sorted(o.less, o.order) && s.less == o.less && |s.order| == |o.order|
    requires forall i {:trigger s.order[i]} | 0 <= i < |s.order| :: s.order[i].value == o.order[i].value
    ensures Sorted(s.less, s.order)
  {
    forall i, j | 0 <= i < j < |s.order|
      ensures s.less(s.order[i].value, s.order[j].value)
    {
      assert o.less(o.order[i].value, o.order[j].value);
    }
  }

  /** A set with the same elements in the same order, sharing no node with the other. */
  method Copy<T(!new)>(other: RankSet<T>) returns (s: RankSet<T>)
    requires other.Valid()
    ensures fresh(s) && fresh(s.header) && fresh(s.nodes) && s.Valid() && s.less == other.less
    ensures |s.order| == |other.order|
    ensures forall i {:trigger s.order[i]} | 0 <= i < |s.order| :: s.order[i].value == other.order[i].value
  {
    s := CopyTree(other);
    CopyIsSorted(other, s);
    SetEnds(s);
  }

  /** Least and greatest node, found from the root. */
  method SetEnds<T(!new)>(s: RankSet<T>)
    requires Shape(s.header, s.nodes, s.order)
    modifies s.header`left, s.header`right
    ensures s.header.left == s.NodeAt(0) && s.header.right == s.NodeAt(|s.order| - 1)
  {
    if s.header.parent == null {
      s.header.left := s.header;
      s.header.right := s.header;
    } else {
      var first := Leftmost(s);
      var last := Rightmost(s);
      s.header.left := first;
      s.header.right := last;
    }
  }

  method Leftmost<T(!new)>(s: RankSet<T>) returns (node: Node<T>)
    requires Shape(s.header, s.nodes, s.order) && s.header.parent != null
    ensures s.order != [] && node == s.order[0]
  {
    node := s.header.parent;
    while node.left != null
      invariant node in s.nodes && node.lo == 0
      decreases node.hi
    {
      assert NodeOk(node, s.header, s.nodes, s.order);
      assert NodeOk(node.left, s.header, s.nodes, s.order);
      node := node.left;
    }
    assert NodeOk(node, s.header, s.nodes, s.order);
    assert AtOk(node, s.order);
  }

  method Rightmost<T(!new)>(s: RankSet<T>) returns (node: Node<T>)
    requires Shape(s.header, s.nodes, s.order) && s.header.parent != null
    ensures s.order != [] && node == s.order[|s.order| - 1]
  {
    node := s.header.parent;
    while node.right != null
      invariant node in s.nodes && node.hi == |s.order|
      decreases node.hi - node.lo
    {
      assert NodeOk(node, s.header, s.nodes, s.order);
      assert NodeOk(node.right, s.header, s.nodes, s.order);
      node := node.right;
    }
    assert NodeOk(node, s.header, s.nodes, s.order);
    assert AtOk(node, s.order);
  }
}
