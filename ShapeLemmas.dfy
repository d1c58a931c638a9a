/** Facts about subtrees, parents and subtree replacement, and from them the
    exact link changes made by a rotation, by hanging a new leaf and by taking
    out a node with at most one child. Each "Links" lemma says, for one node
    `m`, what its left, right and parent links become; the methods of the
    tree compare these with the fields they wrote. */
module ShapeLemmas {
  import opened AvlShape

  /** A parent link only depends on the outer parent at the root. */
  lemma ParentInIndependent(t: Tree, m: Node, p: Node?, q: Node?)
    requires m != Root(t)
    ensures ParentIn(t, m, p) == ParentIn(t, m, q)
  {
  }

  /** Inside the subtree at `x`, subtrees, parents and depths can be read off
      that subtree alone. */
  lemma {:induction false} SubInside(t: Tree, x: Node, m: Node, p: Node?)
    requires Distinct(t) && x in Nodes(t) && m in Nodes(Sub(t, x))
    ensures Sub(t, m) == Sub(Sub(t, x), m)
    ensures m != x ==> ParentIn(t, m, p) == ParentIn(Sub(t, x), m, null)
    ensures Depth(t, m) == Depth(t, x) + Depth(Sub(t, x), m)
  {
    match t
    case Br(l, n, r) =>
      if n == x {
        if m != x {
          ParentInIndependent(t, m, p, null);
        }
      } else if x in Nodes(l) {
        SubInside(l, x, m, n);
      } else {
        SubInside(r, x, m, n);
      }
  }

  /** The subtrees hanging below `m` are the subtrees of `m`'s children. */
  lemma ChildSub(t: Tree, m: Node)
    requires Distinct(t) && m in Nodes(t)
    ensures var s := Sub(t, m);
      (s.left != Nil ==> Sub(t, Root(s.left)) == s.left && ParentOf(t, Root(s.left)) == m) &&
      (s.right != Nil ==> Sub(t, Root(s.right)) == s.right && ParentOf(t, Root(s.right)) == m)
  {
    var s := Sub(t, m);
    if s.left != Nil {
      SubInside(t, m, Root(s.left), null);
    }
    if s.right != Nil {
      SubInside(t, m, Root(s.right), null);
    }
  }

  lemma {:induction false} ParentInFacts(t: Tree, m: Node, p: Node?)
    requires Distinct(t) && m in Nodes(t) && m != Root(t)
    ensures var q := ParentIn(t, m, p);
      q != null && q in Nodes(t) && (LeftOf(t, q) == m || RightOf(t, q) == m) &&
      Depth(t, q) + 1 == Depth(t, m)
  {
    match t
    case Br(l, n, r) =>
      if m in Nodes(l) {
        if m != Root(l) {
          ParentInFacts(l, m, n);
        }
      } else {
        if m != Root(r) {
          ParentInFacts(r, m, n);
        }
      }
  }

  /** Only the root lacks a parent; every other node hangs below its parent,
      one level deeper. */
  lemma ParentFacts(t: Tree, m: Node)
    requires Distinct(t) && m in Nodes(t)
    ensures ParentOf(t, m) == null <==> m == Root(t)
    ensures ParentOf(t, m) != null ==>
      ParentOf(t, m) in Nodes(t) &&
      (LeftOf(t, ParentOf(t, m)) == m || RightOf(t, ParentOf(t, m)) == m) &&
      Depth(t, ParentOf(t, m)) + 1 == Depth(t, m)
  {
    if m != Root(t) {
      ParentInFacts(t, m, null);
    }
  }

  /** A node is the parent of its children, and no node is its own child. */
  lemma ChildParent(t: Tree, m: Node)
    requires Distinct(t) && m in Nodes(t)
    ensures LeftOf(t, m) != null ==> LeftOf(t, m) in Nodes(t) && LeftOf(t, m) != m && ParentOf(t, LeftOf(t, m)) == m
    ensures RightOf(t, m) != null ==> RightOf(t, m) in Nodes(t) && RightOf(t, m) != m && ParentOf(t, RightOf(t, m)) == m
    ensures LeftOf(t, m) != null ==> LeftOf(t, m) != RightOf(t, m)
  {
    ChildSub(t, m);
  }

  lemma {:induction false} ReplaceAbsent(t: Tree, x: Node, s: Tree)
    requires x !in Nodes(t)
    ensures Replace(t, x, s) == t
  {
  }

  /** The node set, distinctness and root after a replacement. */
  lemma {:induction false} ReplaceNodes(t: Tree, x: Node, s: Tree)
    requires Distinct(t) && x in Nodes(t)
    requires Distinct(s) && Nodes(s) !! (Nodes(t) - Nodes(Sub(t, x)))
    ensures Nodes(Replace(t, x, s)) == Nodes(t) - Nodes(Sub(t, x)) + Nodes(s)
    ensures Distinct(Replace(t, x, s))
    ensures Root(Replace(t, x, s)) == if Root(t) == x then Root(s) else Root(t)
  {
    match t
    case Br(l, n, r) =>
      if n == x {
      } else if x in Nodes(l) {
        ReplaceNodes(l, x, s);
      } else {
        ReplaceNodes(r, x, s);
      }
  }

  /** The in-order sequence splits around the subtree at `x`. */
  lemma InOrderSplit(t: Tree, x: Node)
    requires x in Nodes(t)
    ensures InOrder(t) == Before(t, x) + InOrder(Sub(t, x)) + After(t, x)
  {
    ReplaceSame(t, x);
    ReplaceInOrder(t, x, Sub(t, x));
  }

  /** A replacement swaps only the middle part of the in-order sequence. */
  lemma {:induction false} ReplaceInOrder(t: Tree, x: Node, s: Tree)
    requires x in Nodes(t)
    ensures InOrder(Replace(t, x, s)) == Before(t, x) + InOrder(s) + After(t, x)
  {
    match t
    case Br(l, n, r) =>
      if n == x {
      } else if x in Nodes(l) {
        ReplaceInOrder(l, x, s);
        ReplaceInOrderLeft(l, n, r, x, s);
      } else {
        ReplaceInOrder(r, x, s);
        ReplaceInOrderRight(l, n, r, x, s);
      }
  }

  // One level of ReplaceInOrder, the replacement being in the left subtree.
  lemma ReplaceInOrderLeft(l: Tree, n: Node, r: Tree, x: Node, s: Tree)
    requires n != x && x in Nodes(l)
    requires InOrder(Replace(l, x, s)) == Before(l, x) + InOrder(s) + After(l, x)
    ensures InOrder(Replace(Br(l, n, r), x, s)) == Before(Br(l, n, r), x) + InOrder(s) + After(Br(l, n, r), x)
  {
    var t := Br(l, n, r);
    assert Replace(t, x, s) == Br(Replace(l, x, s), n, r);
    assert Before(t, x) == Before(l, x);
    assert After(t, x) == After(l, x) + [n] + InOrder(r);
    JoinRight(Before(l, x), InOrder(s), After(l, x), [n] + InOrder(r));
  }

  // One level of ReplaceInOrder, the replacement being in the right subtree.
  lemma ReplaceInOrderRight(l: Tree, n: Node, r: Tree, x: Node, s: Tree)
    requires n != x && x !in Nodes(l) && x in Nodes(r)
    requires InOrder(Replace(r, x, s)) == Before(r, x) + InOrder(s) + After(r, x)
    ensures InOrder(Replace(Br(l, n, r), x, s)) == Before(Br(l, n, r), x) + InOrder(s) + After(Br(l, n, r), x)
  {
    var t := Br(l, n, r);
    assert Replace(t, x, s) == Br(l, n, Replace(r, x, s));
    assert Before(t, x) == InOrder(l) + [n] + Before(r, x);
    assert After(t, x) == After(r, x);
    JoinLeft(InOrder(l) + [n], Before(r, x), InOrder(s), After(r, x));
  }

  lemma JoinRight(a: seq<Node>, b: seq<Node>, c: seq<Node>, d: seq<Node>)
    ensures (a + b + c) + d == a + b + (c + d)
  {
  }

  lemma JoinLeft(a: seq<Node>, b: seq<Node>, c: seq<Node>, d: seq<Node>)
    ensures a + (b + c + d) == (a + b) + c + d
  {
  }

  /** The nodes around the subtree at `x` are not in it. */
  lemma {:induction false} AroundOutside(t: Tree, x: Node, m: Node)
    requires Distinct(t) && x in Nodes(t)
    requires m in Before(t, x) || m in After(t, x)
    ensures m in Nodes(t) && m !in Nodes(Sub(t, x))
  {
    match t
    case Br(l, n, r) =>
      if n == x {
      } else if x in Nodes(l) {
        if m in After(l, x) || m in Before(l, x) {
          AroundOutside(l, x, m);
        } else if m != n {
          InOrderHas(r, m);
        }
      } else {
        if m in After(r, x) || m in Before(r, x) {
          AroundOutside(r, x, m);
        } else if m != n {
          InOrderHas(l, m);
        }
      }
  }

  /** The in-order sequence lists exactly the nodes of the tree. */
  lemma {:induction false} InOrderHas(t: Tree, m: Node)
    ensures m in InOrder(t) <==> m in Nodes(t)
  {
    match t
    case Nil =>
    case Br(l, n, r) =>
      InOrderHas(l, m);
      InOrderHas(r, m);
  }

  /** Outside the replaced subtree, subtrees are replaced in the same way,
      and parents and depths stay. */
  lemma {:induction false} ReplaceOuter(t: Tree, x: Node, s: Tree, m: Node, p: Node?)
    requires Distinct(t) && x in Nodes(t)
    requires Distinct(s) && Nodes(s) !! (Nodes(t) - Nodes(Sub(t, x)))
    requires m in Nodes(t) && m !in Nodes(Sub(t, x))
    ensures Sub(Replace(t, x, s), m) == Replace(Sub(t, m), x, s)
    ensures ParentIn(Replace(t, x, s), m, p) == ParentIn(t, m, p)
    ensures Depth(Replace(t, x, s), m) == Depth(t, m)
  {
    match t
    case Br(l, n, r) =>
      if n == x {
      } else if x in Nodes(l) {
        ReplaceNodes(l, x, s);
        if m == n {
        } else if m in Nodes(l) {
          ReplaceOuter(l, x, s, m, n);
        } else {
          ReplaceAbsent(Sub(r, m), x, s);
        }
      } else {
        ReplaceNodes(r, x, s);
        if m == n {
        } else if m in Nodes(r) {
          ReplaceOuter(r, x, s, m, n);
        } else {
          ReplaceAbsent(Sub(l, m), x, s);
        }
      }
  }

  /** Outside the replaced subtree only the link that pointed at `x` moves
      (to the new subtree's root). */
  lemma ReplaceOuterLinks(t: Tree, x: Node, s: Tree, m: Node)
    requires Distinct(t) && x in Nodes(t)
    requires Distinct(s) && Nodes(s) !! (Nodes(t) - Nodes(Sub(t, x)))
    requires m in Nodes(t) && m !in Nodes(Sub(t, x))
    ensures LeftOf(Replace(t, x, s), m) == if LeftOf(t, m) == x then Root(s) else LeftOf(t, m)
    ensures RightOf(Replace(t, x, s), m) == if RightOf(t, m) == x then Root(s) else RightOf(t, m)
    ensures ParentOf(Replace(t, x, s), m) == ParentOf(t, m)
    ensures Depth(Replace(t, x, s), m) == Depth(t, m)
  {
    ReplaceOuter(t, x, s, m, null);
    ReplaceBelowRoot(Sub(t, m), x, s);
  }

  /** Below a root other than `x`, a replacement moves only a child link
      that pointed at `x`. */
  lemma ReplaceBelowRoot(u: Tree, x: Node, s: Tree)
    requires Distinct(u) && u.Br? && u.node != x
    ensures var u' := Replace(u, x, s);
      u'.Br? && u'.node == u.node &&
      Root(u'.left) == (if Root(u.left) == x then Root(s) else Root(u.left)) &&
      Root(u'.right) == (if Root(u.right) == x then Root(s) else Root(u.right))
  {
    var l, r := u.left, u.right;
    assert l != Nil ==> Root(l) in Nodes(l);
    assert r != Nil ==> Root(r) in Nodes(r);
    if x in Nodes(l) {
      assert Replace(u, x, s) == Br(Replace(l, x, s), u.node, r);
      assert Root(Replace(l, x, s)) == if Root(l) == x then Root(s) else Root(l);
    } else if x in Nodes(r) {
      assert Replace(u, x, s) == Br(l, u.node, Replace(r, x, s));
      assert Root(Replace(r, x, s)) == if Root(r) == x then Root(s) else Root(r);
    } else {
      assert Replace(u, x, s) == u;
    }
  }

  /** Inside the new subtree, subtrees are its own; its root takes `x`'s
      parent and depth. */
  lemma {:induction false} ReplaceInner(t: Tree, x: Node, s: Tree, m: Node, p: Node?)
    requires Distinct(t) && x in Nodes(t)
    requires Distinct(s) && Nodes(s) !! (Nodes(t) - Nodes(Sub(t, x)))
    requires m in Nodes(s)
    ensures Sub(Replace(t, x, s), m) == Sub(s, m)
    ensures ParentIn(Replace(t, x, s), m, p) ==
      if m == Root(s) then ParentIn(t, x, p) else ParentIn(s, m, null)
    ensures m == Root(s) ==> Depth(Replace(t, x, s), m) == Depth(t, x)
  {
    match t
    case Br(l, n, r) =>
      if n == x {
        if m != Root(s) {
          ParentInIndependent(s, m, p, null);
        }
      } else if x in Nodes(l) {
        ReplaceNodes(l, x, s);
        ReplaceInner(l, x, s, m, n);
      } else {
        ReplaceNodes(r, x, s);
        ReplaceInner(r, x, s, m, n);
      }
  }

  /** Replacing a subtree by itself changes nothing. */
  lemma {:induction false} ReplaceSame(t: Tree, x: Node)
    requires x in Nodes(t)
    ensures Replace(t, x, Sub(t, x)) == t
  {
    match t
    case Br(l, n, r) =>
      if n == x {
      } else if x in Nodes(l) {
        ReplaceSame(l, x);
      } else {
        ReplaceSame(r, x);
      }
  }

  /** No node of a tree has the tree's root as a child. */
  lemma RootNoParent(t: Tree, m: Node)
    requires Distinct(t) && m in Nodes(t)
    ensures LeftOf(t, m) != Root(t) && RightOf(t, m) != Root(t)
  {
    ChildParent(t, m);
    ParentFacts(t, Root(t));
  }

  // Left rotation inside the rotated subtree itself.
  lemma RotLeftSame(a: Tree, x: Node, b: Tree, y: Node, c: Tree)
    requires Distinct(Br(a, x, Br(b, y, c)))
    ensures Distinct(Br(Br(a, x, b), y, c))
    ensures Nodes(Br(Br(a, x, b), y, c)) == Nodes(Br(a, x, Br(b, y, c)))
    ensures InOrder(Br(Br(a, x, b), y, c)) == InOrder(Br(a, x, Br(b, y, c)))
  {
    var A, B, C := Nodes(a), Nodes(b), Nodes(c);
    assert Distinct(Br(b, y, c)) && Nodes(Br(b, y, c)) == B + {y} + C;
    assert A !! B && A !! C && y !in A;
    assert Distinct(Br(a, x, b)) && Nodes(Br(a, x, b)) == A + {x} + B;
    var I, J, K := InOrder(a), InOrder(b), InOrder(c);
    assert (I + [x] + J) + [y] + K == I + [x] + (J + [y] + K);
  }

  lemma RotLeftLocal(a: Tree, x: Node, b: Tree, y: Node, c: Tree, m: Node)
    requires Distinct(Br(a, x, Br(b, y, c))) && m in Nodes(Br(a, x, Br(b, y, c)))
    ensures var s, s' := Br(a, x, Br(b, y, c)), Br(Br(a, x, b), y, c);
      LeftOf(s', m) == (if m == y then x else LeftOf(s, m)) &&
      RightOf(s', m) == (if m == x then Root(b) else RightOf(s, m)) &&
      (m != y ==> (ParentIn(s', m, null) ==
         if m == x then y else if m == Root(b) then x else ParentIn(s, m, null)))
  {
    var s, s' := Br(a, x, Br(b, y, c)), Br(Br(a, x, b), y, c);
    if m == x {
      assert Sub(s', m) == Br(a, x, b) && Sub(s, m) == s;
    } else if m == y {
      assert Sub(s', m) == s' && Sub(s, m) == Br(b, y, c);
    } else if m in Nodes(a) {
      assert Sub(s', m) == Sub(a, m) == Sub(s, m);
      assert ParentIn(s', m, null) == ParentIn(a, m, x) == ParentIn(s, m, null);
    } else if m in Nodes(b) {
      assert Sub(s', m) == Sub(b, m) == Sub(s, m);
      assert ParentIn(s', m, null) == ParentIn(b, m, x);
      assert ParentIn(s, m, null) == ParentIn(b, m, y);
      if m != Root(b) {
        ParentInIndependent(b, m, x, y);
      }
    } else {
      assert Sub(s', m) == Sub(c, m) == Sub(s, m);
      assert ParentIn(s', m, null) == ParentIn(c, m, y) == ParentIn(s, m, null);
    }
  }

  // Right rotation inside the rotated subtree itself.
  lemma RotRightSame(a: Tree, y: Node, b: Tree, x: Node, c: Tree)
    requires Distinct(Br(Br(a, y, b), x, c))
    ensures Distinct(Br(a, y, Br(b, x, c)))
    ensures Nodes(Br(a, y, Br(b, x, c))) == Nodes(Br(Br(a, y, b), x, c))
    ensures InOrder(Br(a, y, Br(b, x, c))) == InOrder(Br(Br(a, y, b), x, c))
  {
    var A, B, C := Nodes(a), Nodes(b), Nodes(c);
    assert Distinct(Br(a, y, b)) && Nodes(Br(a, y, b)) == A + {y} + B;
    assert A !! C && B !! C && y !in C;
    assert Distinct(Br(b, x, c)) && Nodes(Br(b, x, c)) == B + {x} + C;
    var I, J, K := InOrder(a), InOrder(b), InOrder(c);
    assert (I + [y] + J) + [x] + K == I + [y] + (J + [x] + K);
  }

  lemma RotRightLocal(a: Tree, y: Node, b: Tree, x: Node, c: Tree, m: Node)
    requires Distinct(Br(Br(a, y, b), x, c)) && m in Nodes(Br(Br(a, y, b), x, c))
    ensures var s, s' := Br(Br(a, y, b), x, c), Br(a, y, Br(b, x, c));
      LeftOf(s', m) == (if m == x then Root(b) else LeftOf(s, m)) &&
      RightOf(s', m) == (if m == y then x else RightOf(s, m)) &&
      (m != y ==> (ParentIn(s', m, null) ==
         if m == x then y else if m == Root(b) then x else ParentIn(s, m, null)))
  {
    var s, s' := Br(Br(a, y, b), x, c), Br(a, y, Br(b, x, c));
    if m == x {
      assert Sub(s', m) == Br(b, x, c) && Sub(s, m) == s;
    } else if m == y {
      assert Sub(s', m) == s' && Sub(s, m) == Br(a, y, b);
    } else if m in Nodes(a) {
      assert Sub(s', m) == Sub(a, m) == Sub(s, m);
      assert ParentIn(s', m, null) == ParentIn(a, m, y) == ParentIn(s, m, null);
    } else if m in Nodes(b) {
      assert Sub(s', m) == Sub(b, m) == Sub(s, m);
      assert ParentIn(s', m, null) == ParentIn(b, m, x);
      assert ParentIn(s, m, null) == ParentIn(b, m, y);
      if m != Root(b) {
        ParentInIndependent(b, m, x, y);
      }
    } else {
      assert Sub(s', m) == Sub(c, m) == Sub(s, m);
      assert ParentIn(s', m, null) == ParentIn(c, m, x) == ParentIn(s, m, null);
    }
  }

  /** Replacing the subtree at `x` by a tree over the same nodes and with the
      same in-order sequence keeps the node set, distinctness and in-order
      sequence of the whole tree. */
  lemma ReplaceSameNodes(t: Tree, x: Node, s: Tree)
    requires Distinct(t) && x in Nodes(t)
    requires Distinct(s) && Nodes(s) == Nodes(Sub(t, x)) && InOrder(s) == InOrder(Sub(t, x))
    ensures var t' := Replace(t, x, s);
      Distinct(t') && Nodes(t') == Nodes(t) && InOrder(t') == InOrder(t) &&
      Root(t') == if Root(t) == x then Root(s) else Root(t)
  {
    ReplaceNodes(t, x, s);
    InOrderSplit(t, x);
    ReplaceInOrder(t, x, s);
  }

  /** The shape of the tree after `leftRotate(x)`. */
  lemma RotateLeftShape(t: Tree, x: Node)
    requires Distinct(t) && x in Nodes(t) && RightOf(t, x) != null
    ensures var t', y := RotateLeftAt(t, x), RightOf(t, x);
      Distinct(t') && Nodes(t') == Nodes(t) && InOrder(t') == InOrder(t) &&
      y in Nodes(t) && y != x &&
      Root(t') == (if Root(t) == x then y else Root(t)) &&
      Depth(t', y) == Depth(t, x) &&
      Size(Sub(t', x)) < Size(Sub(t, x))
  {
    var s := Sub(t, x);
    var y := RightOf(t, x);
    ChildParent(t, x);
    RotLeftSame(s.left, x, s.right.left, y, s.right.right);
    ReplaceSameNodes(t, x, RotLeft(s));
    ReplaceInner(t, x, RotLeft(s), y, null);
    ReplaceInner(t, x, RotLeft(s), x, null);
  }

  /** The links of one node after `leftRotate(x)`, where `y` is `x`'s right
      child, `b` is `y`'s left child and `p` is `x`'s parent: `y` takes `x`'s
      place, `x` becomes `y`'s left child and takes `b` as its right child. */
  lemma RotateLeftLinks(t: Tree, x: Node, m: Node)
    requires Distinct(t) && x in Nodes(t) && RightOf(t, x) != null && m in Nodes(t)
    ensures var t', y := RotateLeftAt(t, x), RightOf(t, x);
      var b, p := LeftOf(t, y), ParentOf(t, x);
      LeftOf(t', m) == (if m == y then x else if LeftOf(t, m) == x then y else LeftOf(t, m)) &&
      RightOf(t', m) == (if m == x then b else if RightOf(t, m) == x then y else RightOf(t, m)) &&
      ParentOf(t', m) == (if m == x then y else if m == y then p else if m == b then x else ParentOf(t, m)) &&
      (m !in Nodes(Sub(t, x)) ==> Depth(t', m) == Depth(t, m))
  {
    var s := Sub(t, x);
    var y := RightOf(t, x);
    ChildParent(t, x);
    ChildSub(t, x);
    var s' := RotLeft(s);
    RotLeftSame(s.left, x, s.right.left, y, s.right.right);
    if m in Nodes(s) {
      RotLeftLocal(s.left, x, s.right.left, y, s.right.right, m);
      SubInside(t, x, m, null);
      ReplaceInner(t, x, s', m, null);
      RootNoParent(s, m);
      if m != x {
        ChildParent(s, m);
      }
    } else {
      ReplaceOuterLinks(t, x, s', m);
      ChildParent(t, m);
      ChildParent(t, y);
    }
  }

  /** The shape of the tree after `rightRotate(x)`. */
  lemma RotateRightShape(t: Tree, x: Node)
    requires Distinct(t) && x in Nodes(t) && LeftOf(t, x) != null
    ensures var t', y := RotateRightAt(t, x), LeftOf(t, x);
      Distinct(t') && Nodes(t') == Nodes(t) && InOrder(t') == InOrder(t) &&
      y in Nodes(t) && y != x &&
      Root(t') == (if Root(t) == x then y else Root(t)) &&
      Depth(t', y) == Depth(t, x) &&
      Size(Sub(t', x)) < Size(Sub(t, x))
  {
    var s := Sub(t, x);
    var y := LeftOf(t, x);
    ChildParent(t, x);
    RotRightSame(s.left.left, y, s.left.right, x, s.right);
    ReplaceSameNodes(t, x, RotRight(s));
    ReplaceInner(t, x, RotRight(s), y, null);
    ReplaceInner(t, x, RotRight(s), x, null);
  }

  /** The links of one node after `rightRotate(x)`, where `y` is `x`'s left
      child, `b` is `y`'s right child and `p` is `x`'s parent. */
  lemma RotateRightLinks(t: Tree, x: Node, m: Node)
    requires Distinct(t) && x in Nodes(t) && LeftOf(t, x) != null && m in Nodes(t)
    ensures var t', y := RotateRightAt(t, x), LeftOf(t, x);
      var b, p := RightOf(t, y), ParentOf(t, x);
      LeftOf(t', m) == (if m == x then b else if LeftOf(t, m) == x then y else LeftOf(t, m)) &&
      RightOf(t', m) == (if m == y then x else if RightOf(t, m) == x then y else RightOf(t, m)) &&
      ParentOf(t', m) == (if m == x then y else if m == y then p else if m == b then x else ParentOf(t, m)) &&
      (m !in Nodes(Sub(t, x)) ==> Depth(t', m) == Depth(t, m))
  {
    var s := Sub(t, x);
    var y := LeftOf(t, x);
    ChildParent(t, x);
    ChildSub(t, x);
    var s' := RotRight(s);
    RotRightSame(s.left.left, y, s.left.right, x, s.right);
    if m in Nodes(s) {
      RotRightLocal(s.left.left, y, s.left.right, x, s.right, m);
      SubInside(t, x, m, null);
      ReplaceInner(t, x, s', m, null);
      RootNoParent(s, m);
      if m != x {
        ChildParent(s, m);
      }
    } else {
      ReplaceOuterLinks(t, x, s', m);
      ChildParent(t, m);
      ChildParent(t, y);
    }
  }

  /** The tree after a new leaf `nn` is hung below `n`, on the left when
      `left` holds and on the right otherwise, that side being empty. */
  ghost function Attach(t: Tree, n: Node, nn: Node, left: bool): Tree
    requires n in Nodes(t)
  {
    var s := Sub(t, n);
    Replace(t, n, if left then Br(Br(Nil, nn, Nil), n, s.right) else Br(s.left, n, Br(Nil, nn, Nil)))
  }

  lemma AttachShape(t: Tree, n: Node, nn: Node, left: bool)
    requires Distinct(t) && n in Nodes(t) && nn !in Nodes(t)
    requires if left then LeftOf(t, n) == null else RightOf(t, n) == null
    ensures var t' := Attach(t, n, nn, left);
      Distinct(t') && Nodes(t') == Nodes(t) + {nn} && Root(t') == Root(t)
  {
    var s := Sub(t, n);
    var s' := if left then Br(Br(Nil, nn, Nil), n, s.right) else Br(s.left, n, Br(Nil, nn, Nil));
    ReplaceNodes(t, n, s');
  }

  /** The links of one node after the new leaf is hung: only `n` gains the
      child `nn`, whose parent is `n`. */
  lemma AttachLinks(t: Tree, n: Node, nn: Node, left: bool, m: Node)
    requires Distinct(t) && n in Nodes(t) && nn !in Nodes(t)
    requires if left then LeftOf(t, n) == null else RightOf(t, n) == null
    requires m in Nodes(t) || m == nn
    ensures var t' := Attach(t, n, nn, left);
      LeftOf(t', m) == (if m == n && left then nn else if m == nn then null else LeftOf(t, m)) &&
      RightOf(t', m) == (if m == n && !left then nn else if m == nn then null else RightOf(t, m)) &&
      ParentOf(t', m) == (if m == nn then n else ParentOf(t, m))
  {
    var s := Sub(t, n);
    var s' := if left then Br(Br(Nil, nn, Nil), n, s.right) else Br(s.left, n, Br(Nil, nn, Nil));
    AttachShape(t, n, nn, left);
    if m in Nodes(s') {
      ReplaceInner(t, n, s', m, null);
      if m != n && m != nn {
        SubInside(t, n, m, null);
        if left {
          assert Sub(s', m) == Sub(s.right, m) == Sub(s, m);
          assert ParentIn(s', m, null) == ParentIn(s.right, m, n) == ParentIn(s, m, null);
        } else {
          assert Sub(s', m) == Sub(s.left, m) == Sub(s, m);
          assert ParentIn(s', m, null) == ParentIn(s.left, m, n) == ParentIn(s, m, null);
        }
      } else if m == nn {
        assert Sub(s', m) == Br(Nil, nn, Nil);
      }
    } else {
      ReplaceOuterLinks(t, n, s', m);
    }
  }

  /** `Without` distributes over concatenation. */
  lemma {:induction false} WithoutConcat(a: seq<Node>, b: seq<Node>, n: Node)
    ensures Without(a + b, n) == Without(a, n) + Without(b, n)
  {
    if a == [] {
      assert a + b == b;
    } else {
      var h := if a[0] == n then [] else [a[0]];
      assert Without(a + b, n) == h + Without(a[1..] + b, n) by {
        assert (a + b)[0] == a[0];
        assert (a + b)[1..] == a[1..] + b;
      }
      WithoutConcat(a[1..], b, n);
      assert h + (Without(a[1..], n) + Without(b, n)) == (h + Without(a[1..], n)) + Without(b, n);
    }
  }

  lemma {:induction false} WithoutAbsent(a: seq<Node>, n: Node)
    requires n !in a
    ensures Without(a, n) == a
  {
    if a != [] {
      WithoutAbsent(a[1..], n);
      assert a == [a[0]] + a[1..];
    }
  }

  /** The shape after taking out `n`, a non-root node with at most one
      child: that child (or nothing) takes its place, and `n` drops out of
      the in-order sequence. */
  lemma DetachShape(t: Tree, n: Node)
    requires Distinct(t) && n in Nodes(t) && n != Root(t)
    requires LeftOf(t, n) == null || RightOf(t, n) == null
    ensures var t' := DetachAt(t, n);
      Distinct(t') && Nodes(t') == Nodes(t) - {n} && Root(t') == Root(t) &&
      InOrder(t') == Without(InOrder(t), n)
  {
    var s := Sub(t, n);
    var c := if s.left.Nil? then s.right else s.left;
    ReplaceNodes(t, n, c);
    DetachInOrder(t, n);
  }

  lemma DetachInOrder(t: Tree, n: Node)
    requires Distinct(t) && n in Nodes(t)
    requires LeftOf(t, n) == null || RightOf(t, n) == null
    ensures InOrder(DetachAt(t, n)) == Without(InOrder(t), n)
  {
    var s := Sub(t, n);
    var bef, aft := Before(t, n), After(t, n);
    var l, r := InOrder(s.left), InOrder(s.right);
    InOrderAround(t, n);
    DetachAround(t, n);
    if n in bef || n in aft {
      AroundOutside(t, n, n);
    }
    InOrderHas(s.left, n);
    InOrderHas(s.right, n);
    WithoutMiddle(bef, l, n, r, aft);
  }

  /** The in-order sequence around and inside the subtree at `n`. */
  lemma InOrderAround(t: Tree, n: Node)
    requires n in Nodes(t)
    ensures var s := Sub(t, n);
      InOrder(t) == Before(t, n) + InOrder(s.left) + [n] + InOrder(s.right) + After(t, n)
  {
    var s := Sub(t, n);
    InOrderSplit(t, n);
    assert s == Br(s.left, n, s.right);
    SplitFive(Before(t, n), InOrder(s.left), [n], InOrder(s.right), After(t, n));
  }

  lemma RootNil(u: Tree)
    ensures Root(u) == null <==> u.Nil?
  {
  }

  lemma DetachAround(t: Tree, n: Node)
    requires n in Nodes(t)
    requires LeftOf(t, n) == null || RightOf(t, n) == null
    ensures var s := Sub(t, n);
      InOrder(DetachAt(t, n)) == Before(t, n) + InOrder(s.left) + InOrder(s.right) + After(t, n)
  {
    var s := Sub(t, n);
    assert s.left.Nil? || s.right.Nil? by {
      assert LeftOf(t, n) == Root(s.left) && RightOf(t, n) == Root(s.right);
      RootNil(s.left);
      RootNil(s.right);
    }
    var c := if s.left.Nil? then s.right else s.left;
    assert DetachAt(t, n) == Replace(t, n, c);
    ReplaceInOrder(t, n, c);
    assert InOrder(c) == InOrder(s.left) + InOrder(s.right) by {
      if s.left.Nil? {
        assert InOrder(s.left) == [];
      } else {
        assert InOrder(s.right) == [];
      }
    }
    SplitFour(Before(t, n), InOrder(s.left), InOrder(s.right), After(t, n));
  }

  lemma SplitFour(a: seq<Node>, b: seq<Node>, c: seq<Node>, d: seq<Node>)
    ensures a + (b + c) + d == a + b + c + d
  {
  }

  lemma WithoutMiddle(a: seq<Node>, b: seq<Node>, n: Node, c: seq<Node>, d: seq<Node>)
    requires n !in a && n !in b && n !in c && n !in d
    ensures Without(a + b + [n] + c + d, n) == a + b + c + d
  {
    var ab, cd := a + b, c + d;
    assert Without((ab + [n]) + cd, n) == ab + cd by {
      WithoutConcat(ab + [n], cd, n);
      assert Without(ab + [n], n) == ab by {
        WithoutAbsent(ab, n);
        WithoutSingle(n);
        WithoutConcat(ab, [n], n);
      }
      assert Without(cd, n) == cd by {
        WithoutAbsent(cd, n);
      }
    }
    assert a + b + [n] + c + d == (ab + [n]) + cd;
    assert a + b + c + d == ab + cd;
  }

  lemma SplitFive(a: seq<Node>, b: seq<Node>, c: seq<Node>, d: seq<Node>, e: seq<Node>)
    ensures a + (b + c + d) + e == a + b + c + d + e
  {
  }

  lemma WithoutSingle(n: Node)
    ensures Without([n], n) == []
  {
    assert [n][1..] == [];
  }

  /** The links of one remaining node after `n` is taken out: the link that
      pointed at `n` now points at `n`'s child `c`, and `c`'s parent is
      `n`'s parent. */
  lemma DetachLinks(t: Tree, n: Node, m: Node)
    requires Distinct(t) && n in Nodes(t) && n != Root(t)
    requires LeftOf(t, n) == null || RightOf(t, n) == null
    requires m in Nodes(t) && m != n
    ensures var t' := DetachAt(t, n);
      var c := if LeftOf(t, n) != null then LeftOf(t, n) else RightOf(t, n);
      LeftOf(t', m) == (if LeftOf(t, m) == n then c else LeftOf(t, m)) &&
      RightOf(t', m) == (if RightOf(t, m) == n then c else RightOf(t, m)) &&
      ParentOf(t', m) == (if m == c then ParentOf(t, n) else ParentOf(t, m))
  {
    var s := Sub(t, n);
    var cs := if s.left.Nil? then s.right else s.left;
    ReplaceNodes(t, n, cs);
    if m in Nodes(s) {
      SubInside(t, n, m, null);
      ReplaceInner(t, n, cs, m, null);
      RootNoParent(s, m);
      ChildSub(t, n);
      SubInside(t, Root(cs), m, null);
      if m != Root(cs) {
        SubInside(t, Root(cs), m, null);
        ParentInIndependent(cs, m, n, null);
        assert ParentIn(s, m, null) == ParentIn(cs, m, n);
      }
    } else {
      ReplaceOuterLinks(t, n, cs, m);
    }
  }
}
