/** `AVL`: a map from words to counters kept in a search tree of linked
    `Node`s that rebalances itself with rotations driven by cached heights.

    The ghost field `T` is the shape the links spell out and `Repr` its set
    of nodes. `WellLinked` says that every node's `left`, `right` and
    `parent` agree with `T` and that no cached height is negative; `Valid`
    adds that the keys are strictly increasing in order. The cached heights
    are not kept equal to the real heights (rotations do not recompute
    them), so nothing below relies on them being right. */
module AvlMap {
  import opened StringOrder
  import opened AvlShape
  import opened ShapeLemmas
  import opened SearchLemmas
  import opened Rebalancing
  import opened Descent

  datatype Option<T> = None | Some(value: T)

  /** The links of `m` are the ones `t` gives it, and its cached height is
      the one `h` records. */
  ghost predicate Linked(t: Tree, h: map<Node, nat>, m: Node)
    reads m`left, m`right, m`parent, m`height
  {
    m.left == LeftOf(t, m) && m.right == RightOf(t, m) && m.parent == ParentOf(t, m) &&
    m in h && m.height == h[m]
  }

  /** The cached height of a subtree; an empty one counts as -1. */
  ghost function CachedHeight(m: Node?): int
    reads m
  {
    if m == null then -1 else m.height
  }

  /** The keys of the nodes of `t`. */
  ghost function WordSet(t: Tree): set<string> {
    set m | m in Nodes(t) :: m.word
  }

  lemma WordSetBr(l: Tree, m: Node, r: Tree)
    ensures WordSet(Br(l, m, r)) == WordSet(l) + {m.word} + WordSet(r)
  {
  }

  /** The nodes a rotation at `x` rewires: `y` the child that moves up, `b`
      the grandchild that changes sides and `p` the parent of `x`. They are
      pairwise different, and `p` has `x` on exactly one side. */
  lemma RotationCast(t: Tree, x: Node, left: bool)
    requires Distinct(t) && x in Nodes(t)
    requires (if left then RightOf(t, x) else LeftOf(t, x)) != null
    ensures var y := if left then RightOf(t, x) else LeftOf(t, x);
      var b := if left then LeftOf(t, y) else RightOf(t, y);
      var p := ParentOf(t, x);
      y in Nodes(t) && y != x && b != x && b != y && (b != null ==> b in Nodes(t)) &&
      (p != null ==> p in Nodes(t) && p != x && p != y && p != b &&
                     (LeftOf(t, p) == x <==> RightOf(t, p) != x))
  {
    var y := if left then RightOf(t, x) else LeftOf(t, x);
    ChildParent(t, x);
    ChildParent(t, y);
    ParentFacts(t, x);
    ParentFacts(t, y);
    var b := if left then LeftOf(t, y) else RightOf(t, y);
    if b != null {
      ParentFacts(t, b);
    }
    var p := ParentOf(t, x);
    if p != null {
      ChildParent(t, p);
    }
  }

  /** What a left rotation at `x` does to the links of one node `m` whose
      links were `l`, `r` and `q`: `y` (the right child of `x`) gets `x` on
      its left and `p` (the parent of `x`) above it, `x` gets `b` (the left
      child of `y`) on its right and `y` above it, `b` gets `x` above it,
      and `p` gets `y` where it had `x`. */
  lemma RotateLeftRelink(t: Tree, x: Node, m: Node, l: Node?, r: Node?, q: Node?)
    requires Distinct(t) && x in Nodes(t) && RightOf(t, x) != null && m in Nodes(t)
    requires l == LeftOf(t, m) && r == RightOf(t, m) && q == ParentOf(t, m)
    ensures var t', y := RotateLeftAt(t, x), RightOf(t, x);
      var b, p := LeftOf(t, y), ParentOf(t, x);
      LeftOf(t', m) == (if m == y then x else if m == p && l == x then y else l) &&
      RightOf(t', m) == (if m == x then b else if m == p && l != x then y else r) &&
      ParentOf(t', m) == (if m == x then y else if m == y then p else if m == b then x else q)
  {
    RotateLeftShape(t, x);
    RotationCast(t, x, true);
    RotateLeftLinks(t, x, m);
    ChildParent(t, m);
    var p := ParentOf(t, x);
    if p != null {
      ChildParent(t, p);
    }
  }

  /** The mirror image for a right rotation at `x`: `y` is the left child
      of `x` and `b` the right child of `y`. */
  lemma RotateRightRelink(t: Tree, x: Node, m: Node, l: Node?, r: Node?, q: Node?)
    requires Distinct(t) && x in Nodes(t) && LeftOf(t, x) != null && m in Nodes(t)
    requires l == LeftOf(t, m) && r == RightOf(t, m) && q == ParentOf(t, m)
    ensures var t', y := RotateRightAt(t, x), LeftOf(t, x);
      var b, p := RightOf(t, y), ParentOf(t, x);
      LeftOf(t', m) == (if m == x then b else if m == p && l == x then y else l) &&
      RightOf(t', m) == (if m == y then x else if m == p && l != x then y else r) &&
      ParentOf(t', m) == (if m == x then y else if m == y then p else if m == b then x else q)
  {
    RotateRightShape(t, x);
    RotationCast(t, x, false);
    RotateRightLinks(t, x, m);
    ChildParent(t, m);
    var p := ParentOf(t, x);
    if p != null {
      ChildParent(t, p);
    }
  }

  /** For a sequence `s` and a node `x` in it whose key no other node of
      `s` carries: changing the counter of `x` alone changes the map of `s`
      at `x`'s key only. */
  twostate lemma ContentNum(sx: (seq<Node>, Node))
    requires sx.1 in sx.0
    requires forall m | m in sx.0 && m != sx.1 :: m.num == old(m.num) && m.word != sx.1.word
    ensures ContentOf(sx.0) == old(ContentOf(sx.0))[sx.1.word := sx.1.num]
  {
    var (s, x) := sx;
    var i := 0;
    while i < |s|
      invariant i <= |s|
      invariant x in s[..i] ==> ContentOf(s[..i]) == old(ContentOf(s[..i]))[x.word := x.num]
      invariant x !in s[..i] ==> ContentOf(s[..i]) == old(ContentOf(s[..i]))
    {
      assert s[..i + 1][..i] == s[..i];
      assert x in s[..i + 1] <==> x in s[..i] || s[i] == x;
      i := i + 1;
    }
    assert s[..i] == s;
  }

  /** A sequence of nodes whose counters did not change stands for the
      same map. */
  twostate lemma ContentKept(s: seq<Node>)
    requires forall m | m in s :: m.num == old(m.num)
    ensures ContentOf(s) == old(ContentOf(s))
  {
    var i := 0;
    while i < |s|
      invariant i <= |s|
      invariant ContentOf(s[..i]) == old(ContentOf(s[..i]))
    {
      assert s[..i + 1][..i] == s[..i];
      i := i + 1;
    }
    assert s[..i] == s;
  }

  class Avl {
    var root: Node?
    var size: int
    ghost var T: Tree
    ghost var Repr: set<Node>
    ghost var H: map<Node, nat>

    ghost predicate WellLinked()
      reads this, Repr`left, Repr`right, Repr`parent, Repr`height
    {
      Repr == Nodes(T) && Distinct(T) && root == Root(T) &&
      forall m {:trigger Linked(T, H, m)} | m in Repr :: Linked(T, H, m)
    }

    ghost predicate Valid()
      reads this, Repr`left, Repr`right, Repr`parent, Repr`height
    {
      WellLinked() && Sorted(TreeWords(T))
    }

    /** The map the tree stands for: each key to its counter. */
    ghost function Content(): map<string, int>
      reads this`T, this`Repr, Repr`num
      requires Repr == Nodes(T)
    {
      assert forall m | m in InOrder(T) :: m in Repr by {
        forall m | m in InOrder(T) {
          InOrderHas(T, m);
        }
      }
      ContentOf(InOrder(T))
    }

    /** An empty tree whose size counter is 0. */
    constructor ()
      ensures Valid() && Content() == map[] && size == 0 && root == null
    {
      root := null;
      size := 0;
      T := Nil;
      Repr := {};
      H := map[];
    }

    /** `recalcHeight(n)`: one more than the larger cached height of `n`'s
        children, an absent child counting -1. */
    method RecalcHeight(n: Node)
      requires WellLinked() && n in Repr
      modifies this`H, n`height
      ensures WellLinked() && n.height >= 0 && H == old(H)[n := n.height]
      ensures n.height == (if old(CachedHeight(n.right)) > old(CachedHeight(n.left))
                           then old(CachedHeight(n.right)) else old(CachedHeight(n.left))) + 1
    {
      var hright, hleft := -1, -1;
      if n.left != null {
        hleft := n.left.height;
      }
      if n.right != null {
        hright := n.right.height;
      }
      assert hleft >= -1 && hright >= -1 by {
        assert Linked(T, H, n);
        ChildParent(T, n);
        if n.left != null {
          assert Linked(T, H, n.left);
        }
        if n.right != null {
          assert Linked(T, H, n.right);
        }
      }
      n.height := (if hright > hleft then hright else hleft) + 1;
      H := H[n := n.height];
      forall m | m in Repr
        ensures Linked(T, H, m)
      {
        assert old(Linked(T, H, m));
      }
    }

    /** `balance(n)`: right minus left cached height, an absent child
        counting -1. On a well-linked tree it is the balance of `n` read
        off the shape and the height map. */
    function Balance(n: Node): (r: int)
      requires WellLinked() && n in Repr
      reads this, Repr
      ensures r == BalanceAt(T, H, n)
    {
      assert Linked(T, H, n);
      ChildParent(T, n);
      assert n.left != null ==> Linked(T, H, n.left);
      assert n.right != null ==> Linked(T, H, n.right);
      var hright := if n.right != null then n.right.height else -1;
      var hleft := if n.left != null then n.left.height else -1;
      hright - hleft
    }

    /** The pointer writes of `leftRotate(x)` leave every node linked as the
        rotated shape says. */
    twostate lemma LeftRotated(x: Node)
      requires old(WellLinked()) && Repr == old(Repr) && H == old(H) && x in Repr && old(x.right) != null
      requires T == RotateLeftAt(old(T), x)
      requires var y, b, p := old(x.right), old(x.right.left), old(x.parent);
        root == (if p == null then y else old(root)) &&
        forall m | m in old(Repr) ::
        m.left == (if m == y then x else if m == p && old(m.left) == x then y else old(m.left)) &&
        m.right == (if m == x then b else if m == p && old(m.left) != x then y else old(m.right)) &&
        m.parent == (if m == x then y else if m == y then p else if m == b then x else old(m.parent)) &&
        m.height == old(m.height)
      ensures WellLinked() && InOrder(T) == old(InOrder(T))
    {
      ghost var t0, y, b, p := old(T), old(x.right), old(x.right.left), old(x.parent);
      assert old(Linked(t0, H, x) && Linked(t0, H, y)) && y == RightOf(t0, x) && b == LeftOf(t0, y) && p == ParentOf(t0, x);
      forall m | m in Repr
        ensures Linked(T, H, m)
      {
        assert old(Linked(t0, H, m));
        RotateLeftRelink(t0, x, m, old(m.left), old(m.right), old(m.parent));
      }
      RotateLeftShape(t0, x);
      ParentFacts(t0, x);
    }

    /** The same for the pointer writes of `rightRotate(x)`. */
    twostate lemma RightRotated(x: Node)
      requires old(WellLinked()) && Repr == old(Repr) && H == old(H) && x in Repr && old(x.left) != null
      requires T == RotateRightAt(old(T), x)
      requires var y, b, p := old(x.left), old(x.left.right), old(x.parent);
        root == (if p == null then y else old(root)) &&
        forall m | m in old(Repr) ::
        m.left == (if m == x then b else if m == p && old(m.left) == x then y else old(m.left)) &&
        m.right == (if m == y then x else if m == p && old(m.left) != x then y else old(m.right)) &&
        m.parent == (if m == x then y else if m == y then p else if m == b then x else old(m.parent)) &&
        m.height == old(m.height)
      ensures WellLinked() && InOrder(T) == old(InOrder(T))
    {
      ghost var t0, y, b, p := old(T), old(x.left), old(x.left.right), old(x.parent);
      assert old(Linked(t0, H, x) && Linked(t0, H, y)) && y == LeftOf(t0, x) && b == RightOf(t0, y) && p == ParentOf(t0, x);
      forall m | m in Repr
        ensures Linked(T, H, m)
      {
        assert old(Linked(t0, H, m));
        RotateRightRelink(t0, x, m, old(m.left), old(m.right), old(m.parent));
      }
      RotateRightShape(t0, x);
      ParentFacts(t0, x);
    }

    /** `leftRotate(x)`: `x`'s right child `y` takes `x`'s place (or becomes
        the root), `x` becomes `y`'s left child and takes `y`'s former left
        subtree. No height and no counter changes. */
    method LeftRotate(x: Node)
      requires WellLinked() && x in Repr && x.right != null
      modifies this`root, this`T, Repr`left, Repr`right, Repr`parent
      ensures WellLinked() && T == RotateLeftAt(old(T), x) && Repr == old(Repr)
      ensures InOrder(T) == old(InOrder(T))
      ensures x.parent == old(x.right) && x.parent.parent == old(x.parent)
    {
      ghost var t0 := T;
      ghost var y, b, p := x.right, x.right.left, x.parent;
      assert y in Repr && y != x && b != x && b != y && (b != null ==> b in Repr) &&
        (p == null <==> root == x) &&
        (p != null ==> p in Repr && p != x && p != y && p != b && (p.left == x <==> p.right != x)) by {
        assert Linked(t0, H, x);
        ChildParent(t0, x);
        assert Linked(t0, H, y);
        ParentFacts(t0, x);
        RotationCast(t0, x, true);
        if p != null {
          assert Linked(t0, H, p);
        }
      }
      var newrt := x.right;
      newrt.parent := x.parent;
      x.right := newrt.left;
      if newrt.left != null {
        newrt.left.parent := x;
      }
      newrt.left := x;
      x.parent := newrt;
      if newrt.parent == null {
        root := newrt;
      } else {
        if newrt.parent.left == x {
          newrt.parent.left := newrt;
        } else {
          newrt.parent.right := newrt;
        }
      }
      T := RotateLeftAt(t0, x);
      LeftRotated(x);
    }

    /** `rightRotate(x)`: `x`'s left child `y` takes `x`'s place (or becomes
        the root), `x` becomes `y`'s right child and takes `y`'s former
        right subtree. No height and no counter changes. */
    method RightRotate(x: Node)
      requires WellLinked() && x in Repr && x.left != null
      modifies this`root, this`T, Repr`left, Repr`right, Repr`parent
      ensures WellLinked() && T == RotateRightAt(old(T), x) && Repr == old(Repr)
      ensures InOrder(T) == old(InOrder(T))
      ensures x.parent == old(x.left) && x.parent.parent == old(x.parent)
    {
      ghost var t0 := T;
      ghost var y, b, p := x.left, x.left.right, x.parent;
      assert y in Repr && y != x && b != x && b != y && (b != null ==> b in Repr) &&
        (p == null <==> root == x) &&
        (p != null ==> p in Repr && p != x && p != y && p != b && (p.left == x <==> p.right != x)) by {
        assert Linked(t0, H, x);
        ChildParent(t0, x);
        assert Linked(t0, H, y);
        ParentFacts(t0, x);
        RotationCast(t0, x, false);
        if p != null {
          assert Linked(t0, H, p);
        }
      }
      var newrt := x.left;
      newrt.parent := x.parent;
      x.left := newrt.right;
      if newrt.right != null {
        newrt.right.parent := x;
      }
      newrt.right := x;
      x.parent := newrt;
      if newrt.parent == null {
        root := newrt;
      } else {
        if newrt.parent.left == x {
          newrt.parent.left := newrt;
        } else {
          newrt.parent.right := newrt;
        }
      }
      T := RotateRightAt(t0, x);
      RightRotated(x);
    }

    /** `rebalance(n)`: when `n` is out of balance, rotate it towards the
        light side (first rotating the heavy child the other way when that
        child leans the other way), then go on from the parent of the
        subtree root now in `n`'s place, up to and including the root. */
    method Rebalance(n: Node)
      requires WellLinked() && n in Repr
      modifies this`root, this`T, Repr`left, Repr`right, Repr`parent
      ensures WellLinked() && Repr == old(Repr)
      ensures T == Rebalanced(old(T), H, n)
      ensures InOrder(T) == old(InOrder(T))
      decreases Depth(T, n)
    {
      ghost var t0, p := T, ParentOf(T, n);
      assert p == n.parent && (p != null ==> p in Repr && Depth(RebalanceAt(T, H, n), p) < Depth(T, n)) by {
        assert Linked(T, H, n);
        ParentFacts(T, n);
        RebalanceAtShape(T, H, n);
      }
      var balance := Balance(n);
      var cur := n;
      if balance > 1 {
        RebalanceRightHeavy(n, balance);
        cur := n.parent;
      } else if balance < -1 {
        RebalanceLeftHeavy(n, balance);
        cur := n.parent;
      }
      assert T == RebalanceAt(t0, H, n) && cur.parent == p;
      if cur.parent != null {
        Rebalance(cur.parent);
      }
    }

    /** The rotations of `rebalance(n)` when `n` is right-heavy: a right
        rotation at the right child when that child leans left, then a left
        rotation at `n`. `n` ends below the node now in its place. */
    method RebalanceRightHeavy(n: Node, balance: int)
      requires WellLinked() && n in Repr && balance == BalanceAt(T, H, n) && balance > 1
      modifies this`root, this`T, Repr`left, Repr`right, Repr`parent
      ensures WellLinked() && Repr == old(Repr) && T == RebalanceAt(old(T), H, n)
      ensures InOrder(T) == old(InOrder(T))
      ensures n.parent != null && n.parent.parent == old(n.parent)
    {
      ghost var t0, p := T, n.parent;
      ghost var c := RightOf(t0, n);
      assert n.right == c && c != null && c in Repr && p == ParentOf(t0, n) by {
        assert Linked(T, H, n);
        HeavySide(T, H, n);
        ChildParent(T, n);
      }
      if Balance(n.right) * balance < 0 {
        assert c.left != null && LeftOf(t0, c) != null by {
          assert Linked(T, H, c);
          HeavySide(T, H, c);
        }
        RightRotate(n.right);
        assert n.right != null && n.parent == p by {
          RotateBelow(t0, n, c, false);
          assert Linked(T, H, n);
        }
      }
      ghost var t1 := T;
      LeftRotate(n);
      assert T == RebalanceAt(t0, H, n) by {
        assert t1 == if BalanceAt(t0, H, c) * balance < 0 then RotateRightAt(t0, c) else t0;
      }
    }

    /** The mirror image when `n` is left-heavy. */
    method RebalanceLeftHeavy(n: Node, balance: int)
      requires WellLinked() && n in Repr && balance == BalanceAt(T, H, n) && balance < -1
      modifies this`root, this`T, Repr`left, Repr`right, Repr`parent
      ensures WellLinked() && Repr == old(Repr) && T == RebalanceAt(old(T), H, n)
      ensures InOrder(T) == old(InOrder(T))
      ensures n.parent != null && n.parent.parent == old(n.parent)
    {
      ghost var t0, p := T, n.parent;
      ghost var c := LeftOf(t0, n);
      assert n.left == c && c != null && c in Repr && p == ParentOf(t0, n) by {
        assert Linked(T, H, n);
        HeavySide(T, H, n);
        ChildParent(T, n);
      }
      if Balance(n.left) * balance < 0 {
        assert c.right != null && RightOf(t0, c) != null by {
          assert Linked(T, H, c);
          HeavySide(T, H, c);
        }
        LeftRotate(n.left);
        assert n.left != null && n.parent == p by {
          RotateBelow(t0, n, c, true);
          assert Linked(T, H, n);
        }
      }
      ghost var t1 := T;
      RightRotate(n);
      assert T == RebalanceAt(t0, H, n) by {
        assert t1 == if BalanceAt(t0, H, c) * balance < 0 then RotateLeftAt(t0, c) else t0;
      }
    }

    /** `search(n, w)`: the descent from `n` that stops at the node whose
        key equals `w`, going left when `w` sorts before the node's key and
        right otherwise. */
    function SearchFrom(n: Node?, w: string): (r: Node?)
      reads this, Repr
      requires WellLinked() && (n == null || n in Repr)
      ensures r == Lookup(Sub(T, n), w)
      decreases Size(Sub(T, n))
    {
      if n == null then null
      else if w == n.word then n
      else
        assert Linked(T, H, n);
        ChildSub(T, n);
        ChildParent(T, n);
        if Less(w, n.word) then SearchFrom(n.left, w) else SearchFrom(n.right, w)
    }

    /** `search(w)`: the descent from the root. */
    function Search(w: string): (r: Node?)
      reads this, Repr
      requires WellLinked()
      ensures r == Lookup(T, w)
      ensures r != null ==> r in Repr && r.word == w
    {
      SearchFrom(root, w)
    }

    /** On a search tree `search` finds a node exactly for the keys of the
        map, and that node holds the key's counter. */
    lemma SearchFinds(w: string)
      requires Valid()
      ensures Search(w) == null <==> w !in Content()
      ensures Search(w) != null ==> Content()[w] == Search(w).num
    {
      ContentLookup(T, w);
    }

    /** `containsKey(key)`: whether `search` finds the key. */
    function ContainsKey(key: string): (r: bool)
      reads this, Repr
      requires Valid()
      ensures r <==> key in Content()
    {
      SearchFinds(key);
      Search(key) != null
    }

    /** `get(key)`: the key's counter, or 0 for an absent key. */
    function Get(key: string): (r: int)
      reads this, Repr
      requires Valid()
      ensures r == if key in Content() then Content()[key] else 0
    {
      SearchFinds(key);
      var n := Search(key);
      if n == null then 0 else n.num
    }

    /** `isEmpty()`: whether there is no root. */
    function IsEmpty(): (r: bool)
      reads this, Repr
      requires WellLinked()
      ensures r <==> Content() == map[]
    {
      assert root != null ==> InOrder(T) != [] && InOrder(T)[|InOrder(T)| - 1].word in Content();
      root == null
    }

    /** `mostCommon(n)`: a node of `n`'s subtree with the largest counter.
        A winner from below replaces the current one only when its counter
        is strictly larger, so ties go to `n`, then to the winner of the
        left subtree, then to the winner of the right subtree. */
    function MostCommonFrom(n: Node): (r: Node)
      reads this, Repr
      requires WellLinked() && n in Repr
      ensures r in Nodes(Sub(T, n))
      ensures forall m | m in Nodes(Sub(T, n)) :: m.num <= r.num
      ensures r == n || r.num > n.num
      ensures r in Nodes(Sub(T, n).right) ==> forall m | m in Nodes(Sub(T, n).left) :: m.num < r.num
      decreases Size(Sub(T, n))
    {
      assert Linked(T, H, n);
      ChildSub(T, n);
      ChildParent(T, n);
      var afterLeft := if n.left != null then (var l := MostCommonFrom(n.left); if l.num > n.num then l else n) else n;
      if n.right != null then (var r := MostCommonFrom(n.right); if r.num > afterLeft.num then r else afterLeft) else afterLeft
    }

    /** `mostCommon()`: null for an empty tree, otherwise a node whose
        counter is the largest of the map. */
    function MostCommon(): (r: Node?)
      reads this, Repr
      requires Valid()
      ensures r == null <==> Content() == map[]
      ensures r != null ==> r in Repr && r.word in Content() && Content()[r.word] == r.num
      ensures r != null ==> forall w | w in Content() :: Content()[w] <= r.num
    {
      if root == null then
        assert IsEmpty();
        null
      else
        var r := MostCommonFrom(root);
        ContentNode(T, r);
        assert forall w | w in Content() :: Content()[w] <= r.num by {
          forall w | w in Content()
            ensures Content()[w] <= r.num
          {
            ContentLookup(T, w);
          }
        }
        assert !IsEmpty();
        r
    }

    /** `inOrder(n, set)`: adds the key of every node of `n`'s subtree to
        the set, left subtree first. The set is threaded through as a value. */
    method InOrderKeys(n: Node?, acc: set<string>) returns (r: set<string>)
      requires WellLinked() && (n == null || n in Repr)
      ensures r == acc + WordSet(Sub(T, n))
      decreases Size(Sub(T, n))
    {
      if n == null {
        return acc;
      }
      ghost var s := Sub(T, n);
      assert n.left == Root(s.left) && n.right == Root(s.right) &&
        Sub(T, n.left) == s.left && Sub(T, n.right) == s.right by {
        assert Linked(T, H, n);
        ChildSub(T, n);
      }
      WordSetBr(s.left, n, s.right);
      r := InOrderKeys(n.left, acc);
      r := r + {n.word};
      r := InOrderKeys(n.right, r);
    }

    /** `keySet()`: the keys of the map. */
    method KeySet() returns (r: set<string>)
      requires WellLinked()
      ensures r == Content().Keys
    {
      r := InOrderKeys(root, {});
      forall w
        ensures w in r <==> w in Content()
      {
        ContentHas(InOrder(T), w);
        TreeWordsHas(T, w);
      }
    }

    /** Changing the counter of one node changes the map at that node's key
        and nowhere else, the keys being distinct. */
    twostate lemma Counted(x: Node)
      requires old(Valid()) && x in old(Repr) && T == old(T) && Repr == old(Repr)
      requires forall m | m in old(Repr) && m != x :: m.num == old(m.num)
      ensures Content() == old(Content())[x.word := x.num]
    {
      ghost var s := InOrder(T);
      forall m | m in s && m != x
        ensures m in Repr && m.word != x.word
      {
        InOrderHas(T, m);
        InOrderHas(T, x);
        var i :| 0 <= i < |s| && s[i] == m;
        var j :| 0 <= j < |s| && s[j] == x;
        SortedUnique(TreeWords(T), i, j);
      }
      assert x in s by {
        InOrderHas(T, x);
      }
      ContentNum((s, x));
    }

    /** Hanging a fresh leaf below `n`, on the side whose link changed and
        at the end of the descent for the leaf's key, links every node as
        the search-tree insertion of the leaf says and adds the leaf's key
        to the map with counter 0. */
    twostate lemma Attached(n: Node)
      requires old(Valid()) && n in old(Repr)
      requires var left := n.left != old(n.left);
        var nn := if left then n.left else n.right;
        nn != null && nn !in old(Repr) && OnPath(old(T), n, nn.word) &&
        (if left then old(n.left) == null && Strcmp(nn.word, n.word) == -1
         else old(n.right) == null && Strcmp(nn.word, n.word) == 1) &&
        T == Attach(old(T), n, nn, left) && Repr == old(Repr) + {nn} && H == old(H)[nn := 0] &&
        root == old(root) &&
        nn.left == null && nn.right == null && nn.parent == n && nn.height == 0 && nn.num == 0 &&
        forall m | m in old(Repr) ::
          m.left == (if m == n && left then nn else old(m.left)) &&
          m.right == (if m == n && !left then nn else old(m.right)) &&
          m.parent == old(m.parent) && m.height == old(m.height) && m.num == old(m.num)
      ensures var nn := if n.left != old(n.left) then n.left else n.right;
        Valid() && T == BstAdd(old(T), nn) &&
        nn.word !in old(Content()) && Content() == old(Content())[nn.word := 0]
    {
      ghost var left := n.left != old(n.left);
      ghost var t0, nn := old(T), if left then n.left else n.right;
      ghost var w := nn.word;
      assert old(Linked(t0, H, n));
      AttachShape(t0, n, nn, left);
      forall m | m in Repr
        ensures Linked(T, H, m)
      {
        if m != nn {
          assert old(Linked(t0, H, m));
        }
        AttachLinks(t0, n, nn, left, m);
      }
      assert Lookup(t0, w) == null && w !in TreeWords(t0) by {
        StrcmpDirection(w, n.word);
        OnPathLookup(t0, n, w);
        LookupFound(t0, w);
      }
      AttachIsBstAdd(t0, n, nn, left);
      BstAddSorted(t0, nn);
      forall m | m in InOrder(t0)
        ensures m in old(Repr)
      {
        InOrderHas(t0, m);
      }
      ContentKept(InOrder(t0));
      ContentLookup(t0, w);
      ContentBstAdd(t0, nn);
    }

    /** The step shared by both insertions, `n.left = new Node(w, n);
        size++;` and its mirror: a new node with key `w` (counter 0,
        height 0) hangs at the empty slot below `n` that the descent for
        `w` reached, so the tree becomes the search-tree insertion of the
        new node and the map gains `w` with counter 0. */
    method NewLeaf(n: Node, w: string, left: bool) returns (ghost leaf: Node)
      requires Valid() && n in Repr && OnPath(T, n, w)
      requires if left then Strcmp(w, n.word) == -1 && n.left == null
               else Strcmp(w, n.word) == 1 && n.right == null
      modifies this`size, this`T, this`Repr, this`H, n`left, n`right
      ensures Valid() && root == old(root) && size == old(size) + 1
      ensures fresh(leaf) && leaf.word == w && leaf.num == 0
      ensures T == BstAdd(old(T), leaf) && Repr == old(Repr) + {leaf} && H == old(H)[leaf := 0]
      ensures w !in old(Content()) && Content() == old(Content())[w := 0]
    {
      ghost var t0 := T;
      var nn := new Node(w, n);
      if left {
        n.left := nn;
      } else {
        n.right := nn;
      }
      size := size + 1;
      T := Attach(t0, n, nn, left);
      Repr := Repr + {nn};
      H := H[nn := 0];
      Attached(n);
      leaf := nn;
    }

    /** `bstInsert(n, w)`: descend from `n` as `strcmp` says and hang a new
        node with key `w` at the empty slot reached; an equal key stops the
        descent and changes nothing. `n` lies on the descent from the root,
        so this is insertion into the tree. */
    method BstInsertAt(n: Node, w: string) returns (ghost nn: Node?)
      requires Valid() && n in Repr && OnPath(T, n, w)
      modifies this`size, this`T, this`Repr, this`H, Repr`left, Repr`right
      ensures Valid() && root == old(root)
      ensures nn == null <==> w in old(Content())
      ensures nn == null ==> T == old(T) && Repr == old(Repr) && size == old(size)
      ensures nn != null ==> (fresh(nn) && nn.word == w && T == BstAdd(old(T), nn) &&
        Repr == old(Repr) + {nn} && size == old(size) + 1)
      ensures Content() == if w in old(Content()) then old(Content()) else old(Content())[w := 0]
      decreases Size(Sub(T, n))
    {
      var c := Strcmp(w, n.word);
      assert c == 0 ==> w in Content() by {
        StrcmpDirection(w, n.word);
        OnPathIn(T, n, w);
        OnPathLookup(T, n, w);
        ContentLookup(T, w);
      }
      if c == -1 {
        if n.left != null {
          assert n.left in Repr && OnPath(T, n.left, w) && Size(Sub(T, n.left)) < Size(Sub(T, n)) by {
            assert Linked(T, H, n);
            ChildParent(T, n);
            ChildSub(T, n);
            OnPathChild(T, n, w);
          }
          nn := BstInsertAt(n.left, w);
        } else {
          nn := NewLeaf(n, w, true);
        }
      } else if c == 1 {
        if n.right != null {
          assert n.right in Repr && OnPath(T, n.right, w) && Size(Sub(T, n.right)) < Size(Sub(T, n)) by {
            assert Linked(T, H, n);
            ChildParent(T, n);
            ChildSub(T, n);
            OnPathChild(T, n, w);
          }
          nn := BstInsertAt(n.right, w);
        } else {
          nn := NewLeaf(n, w, false);
        }
      } else {
        nn := null;
      }
    }

    /** `root = new Node(w); size = 1;` on an empty tree: the tree becomes
        the single node `w` with counter 0, and the size counter is set to
        1 whatever it held. */
    method NewRoot(w: string)
      requires WellLinked() && root == null
      modifies this`root, this`size, this`T, this`Repr, this`H
      ensures Valid() && size == 1
      ensures old(Content()) == map[] && Content() == map[w := 0]
      ensures old(Repr) == {} && Repr == {root} && fresh(root)
      ensures root.word == w && T == BstAdd(old(T), root)
    {
      var nn := new Node(w, null);
      root := nn;
      size := 1;
      T := Br(Nil, nn, Nil);
      Repr := {nn};
      H := H[nn := 0];
      assert Linked(T, H, nn);
      assert InOrder(T) == [nn];
    }

    /** `bstInsert(w)`: search-tree insertion without rebalancing. A key
        already present changes nothing; an absent one is added with counter
        0. */
    method BstInsert(w: string) returns (ghost nn: Node?)
      requires Valid()
      modifies this`root, this`size, this`T, this`Repr, this`H, Repr`left, Repr`right
      ensures Valid()
      ensures nn == null <==> w in old(Content())
      ensures Repr == if nn == null then old(Repr) else old(Repr) + {nn}
      ensures nn != null ==> fresh(nn) && nn.word == w
      ensures nn == null ==> T == old(T) && root == old(root)
      ensures nn != null ==> T == BstAdd(old(T), nn)
      ensures Content() == if w in old(Content()) then old(Content()) else old(Content())[w := 0]
      ensures size == if old(root) == null then 1 else if w in old(Content()) then old(size) else old(size) + 1
    {
      if root == null {
        NewRoot(w);
        nn := root;
        return;
      }
      assert OnPath(T, root, w);
      nn := BstInsertAt(root, w);
    }

    /** The descent of `avlInsert(n, w)`: at an equal key add one to its
        counter, at an empty slot hang a new node with counter 0, and
        otherwise insert into the child that `strcmp` picks. */
    method InsertBelow(n: Node, w: string) returns (ghost nn: Node?)
      requires Valid() && n in Repr && OnPath(T, n, w)
      modifies this`root, this`size, this`T, this`Repr, this`H
      modifies Repr`left, Repr`right, Repr`parent, Repr`height, Repr`num
      ensures Valid()
      ensures nn == null <==> w in old(Content())
      ensures Repr == if nn == null then old(Repr) else old(Repr) + {nn}
      ensures nn != null ==> fresh(nn)
      ensures Content() == old(Content())[w := if w in old(Content()) then old(Content())[w] + 1 else 0]
      ensures size == if nn == null then old(size) else old(size) + 1
      decreases Size(Sub(T, n)), 0
    {
      var c := Strcmp(w, n.word);
      assert c == 0 ==> w == n.word && w in Content() && Content()[w] == n.num by {
        StrcmpDirection(w, n.word);
        OnPathIn(T, n, w);
        ContentNode(T, n);
      }
      if c == -1 {
        if n.left != null {
          assert n.left in Repr && OnPath(T, n.left, w) && Size(Sub(T, n.left)) < Size(Sub(T, n)) by {
            assert Linked(T, H, n);
            ChildParent(T, n);
            ChildSub(T, n);
            OnPathChild(T, n, w);
          }
          nn := AvlInsertAt(n.left, w);
        } else {
          nn := NewLeaf(n, w, true);
        }
      } else if c == 1 {
        if n.right != null {
          assert n.right in Repr && OnPath(T, n.right, w) && Size(Sub(T, n.right)) < Size(Sub(T, n)) by {
            assert Linked(T, H, n);
            ChildParent(T, n);
            ChildSub(T, n);
            OnPathChild(T, n, w);
          }
          nn := AvlInsertAt(n.right, w);
        } else {
          nn := NewLeaf(n, w, false);
        }
      } else {
        n.num := n.num + 1;
        Counted(n);
        nn := null;
      }
    }

    /** `avlInsert(n, w)`: the descent, then, on the way back up, recompute
        `n`'s cached height and rebalance from `n` to the root. The keys keep
        their order, so the tree stays a search tree whatever the heights. */
    method AvlInsertAt(n: Node, w: string) returns (ghost nn: Node?)
      requires Valid() && n in Repr && OnPath(T, n, w)
      modifies this`root, this`size, this`T, this`Repr, this`H
      modifies Repr`left, Repr`right, Repr`parent, Repr`height, Repr`num
      ensures Valid()
      ensures nn == null <==> w in old(Content())
      ensures Repr == if nn == null then old(Repr) else old(Repr) + {nn}
      ensures nn != null ==> fresh(nn)
      ensures Content() == old(Content())[w := if w in old(Content()) then old(Content())[w] + 1 else 0]
      ensures size == if nn == null then old(size) else old(size) + 1
      decreases Size(Sub(T, n)), 1
    {
      nn := InsertBelow(n, w);
      label Inserted:
      RecalcHeight(n);
      Rebalance(n);
      ContentKept@Inserted(InOrder(T));
    }

    /** `avlInsert(w)`: on an empty tree the new root; otherwise insertion
        from the root. A present key's counter goes up by one; an absent key
        is added with counter 0. */
    method AvlInsert(w: string) returns (ghost nn: Node?)
      requires Valid()
      modifies this`root, this`size, this`T, this`Repr, this`H
      modifies Repr`left, Repr`right, Repr`parent, Repr`height, Repr`num
      ensures Valid()
      ensures nn == null <==> w in old(Content())
      ensures Repr == if nn == null then old(Repr) else old(Repr) + {nn}
      ensures nn != null ==> fresh(nn)
      ensures Content() == old(Content())[w := if w in old(Content()) then old(Content())[w] + 1 else 0]
      ensures size == if old(root) == null then 1 else if w in old(Content()) then old(size) else old(size) + 1
    {
      if root == null {
        NewRoot(w);
        nn := root;
        return;
      }
      assert OnPath(T, root, w);
      nn := AvlInsertAt(root, w);
    }

    /** `put(key, value)`: `avlInsert(key)`, then set the counter of the
        node that `search` finds to `value` and return it. */
    method Put(key: string, value: int) returns (r: int, ghost nn: Node?)
      requires Valid()
      modifies this`root, this`size, this`T, this`Repr, this`H
      modifies Repr`left, Repr`right, Repr`parent, Repr`height, Repr`num
      ensures Valid() && r == value
      ensures nn == null <==> key in old(Content())
      ensures Repr == if nn == null then old(Repr) else old(Repr) + {nn}
      ensures nn != null ==> fresh(nn)
      ensures Content() == old(Content())[key := value]
      ensures size == if old(root) == null then 1 else if key in old(Content()) then old(size) else old(size) + 1
    {
      nn := AvlInsert(key);
      var n := Search(key);
      SearchFinds(key);
      label Found:
      n.num := value;
      Counted@Found(n);
      r := n.num;
    }

    /** `clear()`: forget every node. The size counter keeps its value. */
    method Clear()
      modifies this`root, this`T, this`Repr
      ensures Valid() && Content() == map[] && root == null && size == old(size)
    {
      root := null;
      T := Nil;
      Repr := {};
    }

    /** Taking out `n`, a non-root node with at most one child, by pointing
        its parent at that child and the child back at the parent, links
        every other node as the detached shape says, and the in-order
        sequence loses `n` alone. */
    twostate lemma Detached(n: Node)
      requires old(WellLinked()) && n in old(Repr) && old(n.parent) != null
      requires old(n.left) == null || old(n.right) == null
      requires T == DetachAt(old(T), n) && Repr == old(Repr) - {n} && H == old(H) && root == old(root)
      requires var p, c := old(n.parent), if old(n.left) != null then old(n.left) else old(n.right);
        forall m | m in old(Repr) && m != n ::
          m.left == (if m == p && old(m.left) == n then c else old(m.left)) &&
          m.right == (if m == p && old(m.left) != n then c else old(m.right)) &&
          m.parent == (if m == c then p else old(m.parent)) &&
          m.height == old(m.height) && m.num == old(m.num)
      ensures WellLinked() && InOrder(T) == Without(old(InOrder(T)), n)
    {
      ghost var t0 := old(T);
      assert old(Linked(t0, H, n));
      ParentFacts(t0, n);
      DetachShape(t0, n);
      forall m | m in Repr
        ensures Linked(T, H, m)
      {
        assert old(Linked(t0, H, m));
        DetachLinks(t0, n, m);
        ChildParent(t0, m);
      }
    }

    /** Dropping `n` from the in-order sequence, no counter changing, keeps
        the keys in order and drops `n`'s key from the map. */
    twostate lemma DroppedKey(n: Node)
      requires old(Valid()) && n in old(Repr) && Repr == Nodes(T)
      requires InOrder(T) == Without(old(InOrder(T)), n)
      requires forall m | m in old(Repr) && m != n :: m.num == old(m.num)
      requires n.num == old(n.num)
      ensures Sorted(TreeWords(T)) && Content() == old(Content()) - {n.word}
    {
      ghost var t0 := old(T);
      ghost var s := InOrder(t0);
      forall m | m in s
        ensures m in old(Repr)
      {
        InOrderHas(t0, m);
      }
      ContentKept(s);
      forall j | 0 <= j < |s| && s[j] != n
        ensures s[j].word != n.word
      {
        InOrderHas(t0, n);
        var i :| 0 <= i < |s| && s[i] == n;
        SortedUnique(TreeWords(t0), i, j);
      }
      ContentWithout(s, n);
      SortedWithout(s, n);
    }

    /** The unlinking step of `rotateToBottomAndRemove(n)` once `n` has at
        most one child and sits on the side of its parent where that child
        can take its place: the parent's link to `n` now points at the child
        (or is cleared), and the child's parent link points at `n`'s parent.
        `n` itself keeps its links, so `n.parent` still names the node it
        hung from. */
    method Unlink(n: Node)
      requires Valid() && n in Repr && n.parent != null && (n.left == null || n.right == null)
      modifies this`T, this`Repr, Repr`left, Repr`right, Repr`parent
      ensures Valid() && T == DetachAt(old(T), n) && Repr == old(Repr) - {n}
      ensures InOrder(T) == Without(old(InOrder(T)), n)
      ensures Content() == old(Content()) - {n.word}
      ensures n.parent == old(n.parent) && n.parent in Repr
    {
      ghost var t0, p := T, n.parent;
      var child := if n.left != null then n.left else n.right;
      assert p in Repr && p != n && child != n && child != p && (child != null ==> child in Repr) &&
        (p.left == n <==> p.right != n) by {
        assert Linked(t0, H, n);
        ParentFacts(t0, n);
        ChildParent(t0, n);
        assert Linked(t0, H, p);
        ChildParent(t0, p);
        if child != null {
          ParentFacts(t0, child);
        }
      }
      if n.parent.left == n {
        n.parent.left := child;
      } else {
        n.parent.right := child;
      }
      if child != null {
        child.parent := n.parent;
      }
      T := DetachAt(t0, n);
      Repr := Repr - {n};
      Detached(n);
      DroppedKey(n);
    }

    /** The unlinking step exactly as written for a node with one child:
        the parent's link is pointed at the child, but the child's `parent`
        is left naming `n`, which is no longer in the tree. The links then
        no longer agree with any shape: the one the `left`/`right` links
        spell out has the child under `n`'s former parent. */
    method UnlinkAsWritten(n: Node)
      requires WellLinked() && n in Repr && n.parent != null
      requires (n.left == null) != (n.right == null)
      requires (n.left != null) == (n.parent.left == n)
      modifies this`T, this`Repr, Repr`left, Repr`right
      ensures T == DetachAt(old(T), n) && Repr == old(Repr) - {n}
      ensures var c := if old(n.left) != null then old(n.left) else old(n.right);
        c in Repr && c.parent == n && ParentOf(T, c) == old(n.parent) != n && !WellLinked()
    {
      ghost var t0, p := T, n.parent;
      var child := if n.left != null then n.left else n.right;
      assert p in Repr && p != n && child in Repr && child != n && child != p && child.parent == n &&
        (LeftOf(t0, n) == null || RightOf(t0, n) == null) && n != Root(t0) by {
        assert Linked(t0, H, n);
        ParentFacts(t0, n);
        ChildParent(t0, n);
        assert Linked(t0, H, child);
        ParentFacts(t0, child);
      }
      if n.parent.left == n {
        n.parent.left := child;
      } else {
        n.parent.right := child;
      }
      T := DetachAt(t0, n);
      Repr := Repr - {n};
      assert ParentOf(T, child) == p by {
        DetachLinks(t0, n, child);
      }
      assert !Linked(T, H, child);
    }

    /** One step down for `rotateToBottomAndRemove(n)`: `rightRotate(n)`
        (or `leftRotate(n)` when `left` holds) and removal from there on. */
    method RotateDownAndRemove(n: Node, left: bool)
      requires Valid() && n in Repr
      requires if left then n.right != null else n.left != null
      modifies this`root, this`T, this`Repr, this`H, Repr`left, Repr`right, Repr`parent, Repr`height
      ensures Valid() && Repr == old(Repr) - {n}
      ensures InOrder(T) == Without(old(InOrder(T)), n)
      ensures Content() == old(Content()) - {n.word}
      ensures n.parent in Repr
      decreases Size(Sub(T, n)), 0
    {
      ghost var t0 := T;
      assert if left then RightOf(t0, n) != null else LeftOf(t0, n) != null by {
        assert Linked(t0, H, n);
      }
      if left {
        LeftRotate(n);
      } else {
        RightRotate(n);
      }
      assert Size(Sub(T, n)) < Size(Sub(t0, n)) by {
        if left {
          RotateLeftShape(t0, n);
        } else {
          RotateRightShape(t0, n);
        }
      }
      ContentKept(InOrder(T));
      RotateToBottomAndRemove(n);
    }

    /** `rotateToBottomAndRemove(n)`: a node with two children is rotated
        down towards its lighter side (right when the balance is negative,
        left otherwise), and so is a node with one child that hangs on the
        other side of its parent, until it can be unlinked; then, on the way
        back up, the node it hung from has its height recomputed and is
        rebalanced. A leaf is unlinked with no such step. The unlinking
        repairs the child's parent link (see `Unlink`). */
    method RotateToBottomAndRemove(n: Node)
      requires Valid() && n in Repr
      requires n.parent != null || (n.left != null && n.right != null)
      modifies this`root, this`T, this`Repr, this`H, Repr`left, Repr`right, Repr`parent, Repr`height
      ensures Valid() && Repr == old(Repr) - {n}
      ensures InOrder(T) == Without(old(InOrder(T)), n)
      ensures Content() == old(Content()) - {n.word}
      ensures n.parent in Repr
      decreases Size(Sub(T, n)), 1
    {
      var code := (if n.left != null then 1 else 0) + (if n.right != null then 2 else 0);
      if code == 0 {
        Unlink(n);
        return;
      } else if code == 1 {
        if n.parent.left == n {
          Unlink(n);
        } else {
          RotateDownAndRemove(n, false);
        }
      } else if code == 2 {
        if n.parent.right == n {
          Unlink(n);
        } else {
          RotateDownAndRemove(n, true);
        }
      } else {
        var b := Balance(n);
        if b < 0 {
          RotateDownAndRemove(n, false);
        } else {
          RotateDownAndRemove(n, true);
        }
      }
      label Removed:
      RecalcHeight(n.parent);
      Rebalance(n.parent);
      ContentKept@Removed(InOrder(T));
    }

    /** The loop that ends `remove`: from `start` upwards, while `n` is not the
        root, rebalance at `n`, recompute its cached height and move to its
        parent; at most `fuel` rounds, and none once `n` is null (where Java
        would throw). Keys, their order and their counters stay as they are. */
    method RebalanceUpwards(start: Node?, fuel: nat)
      requires Valid() && (start != null ==> start in Repr)
      modifies this`root, this`T, this`H, Repr`left, Repr`right, Repr`parent, Repr`height
      ensures Valid() && Repr == old(Repr) && InOrder(T) == old(InOrder(T))
      ensures Content() == old(Content())
    {
      var n, f := start, fuel;
      while n != null && n.parent != null && f > 0
        invariant Valid() && Repr == old(Repr) && InOrder(T) == old(InOrder(T))
        invariant n != null ==> n in Repr
        decreases f
      {
        Rebalance(n);
        RecalcHeight(n);
        assert n.parent != null ==> n.parent in Repr by {
          assert Linked(T, H, n);
          ParentFacts(T, n);
        }
        n := n.parent;
        f := f - 1;
      }
      ContentKept(InOrder(T));
    }

    /** `remove(key)`: absent key, `None` (Java `null`); otherwise one off
        the key's counter, and when that leaves 0 the node is removed, the
        heights are recomputed and the tree rebalanced from the node it hung
        from up to (not including) the root, and the result is 0; otherwise
        the result is the new counter. The size counter is not touched. The
        loop runs at most `fuel` rounds, and stops where Java would
        dereference a null `n`. Removing the root while it has fewer than
        two children throws in Java, hence the second precondition. */
    method Remove(key: string, fuel: nat) returns (r: Option<int>)
      requires Valid()
      requires root != null && root.word == key && root.num == 1 ==> root.left != null && root.right != null
      modifies this`root, this`T, this`Repr, this`H
      modifies Repr`left, Repr`right, Repr`parent, Repr`height, Repr`num
      ensures Valid()
      ensures key !in old(Content()) ==> r == None && Content() == old(Content())
      ensures key in old(Content()) && old(Content())[key] == 1 ==>
        r == Some(0) && Content() == old(Content()) - {key}
      ensures key in old(Content()) && old(Content())[key] != 1 ==>
        r == Some(old(Content())[key] - 1) && Content() == old(Content())[key := old(Content())[key] - 1]
      ensures Repr <= old(Repr)
      ensures key !in old(Content()) || old(Content())[key] != 1 ==> T == old(T) && Repr == old(Repr) && H == old(H)
    {
      var n := Search(key);
      SearchFinds(key);
      if n == null {
        return None;
      }
      label Found:
      n.num := n.num - 1;
      Counted@Found(n);
      if n.num == 0 {
        assert n.parent != null || (n.left != null && n.right != null) by {
          assert Linked(T, H, n);
          ParentFacts(T, n);
        }
        RotateToBottomAndRemove(n);
        assert Content() == old(Content()) - {key};
        RebalanceUpwards(n.parent, fuel);
        return Some(0);
      }
      return Some(n.num);
    }
  }
}
