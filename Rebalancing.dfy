/** What `rebalance` does to the shape, as functions of the shape and the
    cached heights (which rebalancing reads but never writes), the heights
    given as a map from nodes. */
module Rebalancing {
  import opened AvlShape
  import opened ShapeLemmas

  /** The cached height of a subtree in `h`; an empty one counts as -1. */
  ghost function HeightIn(h: map<Node, nat>, m: Node?): int {
    if m == null || m !in h then -1 else h[m]
  }

  /** `balance(n)` read off the shape: right minus left cached height. */
  ghost function BalanceAt(t: Tree, h: map<Node, nat>, n: Node): int
  {
    HeightIn(h, RightOf(t, n)) - HeightIn(h, LeftOf(t, n))
  }

  /** As no cached height is negative, a positive balance needs a right
      child and a negative one a left child. */
  lemma HeavySide(t: Tree, h: map<Node, nat>, n: Node)
    requires Distinct(t) && n in Nodes(t)
    ensures BalanceAt(t, h, n) > 0 ==> RightOf(t, n) != null
    ensures BalanceAt(t, h, n) < 0 ==> LeftOf(t, n) != null
  {
    ChildParent(t, n);
  }

  /** One step of `rebalance` at `n`: a single rotation towards the light
      side when `n` is out of balance, preceded by a rotation of the heavy
      child when that child leans the other way. */
  ghost function RebalanceAt(t: Tree, h: map<Node, nat>, n: Node): Tree
    requires Distinct(t) && n in Nodes(t)
  {
    var b := BalanceAt(t, h, n);
    HeavySide(t, h, n);
    ChildParent(t, n);
    if b > 1 then
      var r := RightOf(t, n);
      var t0 := if BalanceAt(t, h, r) * b < 0 then RotateRightAt(t, r) else t;
      RotateLeftAt(t0, n)
    else if b < -1 then
      var l := LeftOf(t, n);
      var t0 := if BalanceAt(t, h, l) * b < 0 then RotateLeftAt(t, l) else t;
      RotateRightAt(t0, n)
    else t
  }

  /** A rotation at a child of `n` leaves `n`'s place and the part of the
      tree outside `n`'s subtree alone. */
  lemma RotateBelow(t: Tree, n: Node, c: Node, left: bool)
    requires Distinct(t) && n in Nodes(t)
    requires c == (if left then LeftOf(t, n) else RightOf(t, n))
    requires (if left then RightOf(t, c) != null else LeftOf(t, c) != null)
    ensures var t0 := if left then RotateLeftAt(t, c) else RotateRightAt(t, c);
      Distinct(t0) && Nodes(t0) == Nodes(t) && InOrder(t0) == InOrder(t) &&
      ParentOf(t0, n) == ParentOf(t, n) && Depth(t0, n) == Depth(t, n) &&
      (left ==> LeftOf(t0, n) != null) && (!left ==> RightOf(t0, n) != null)
  {
    ChildParent(t, n);
    ChildSub(t, n);
    assert n !in Nodes(Sub(t, c)) by {
      SubInside(t, n, c, null);
      ParentFacts(t, c);
      if n in Nodes(Sub(t, c)) {
        SubInside(t, c, n, null);
      }
    }
    ParentFacts(t, c);
    ChildParent(t, c);
    var y := if left then RightOf(t, c) else LeftOf(t, c);
    ParentFacts(t, y);
    ChildParent(t, y);
    var b := if left then LeftOf(t, y) else RightOf(t, y);
    if b != null {
      ParentFacts(t, b);
    }
    if left {
      RotateLeftShape(t, c);
      RotateLeftLinks(t, c, n);
    } else {
      RotateRightShape(t, c);
      RotateRightLinks(t, c, n);
    }
  }

  /** The final rotation at `n` puts a node of `n`'s subtree in `n`'s place,
      under `n`'s parent and at `n`'s depth. */
  lemma RotateAtTop(t: Tree, n: Node, left: bool)
    requires Distinct(t) && n in Nodes(t)
    requires if left then RightOf(t, n) != null else LeftOf(t, n) != null
    ensures var t1, y := (if left then RotateLeftAt(t, n) else RotateRightAt(t, n)),
                         (if left then RightOf(t, n) else LeftOf(t, n));
      Distinct(t1) && Nodes(t1) == Nodes(t) && InOrder(t1) == InOrder(t) &&
      ParentOf(t1, n) == y && ParentOf(t1, y) == ParentOf(t, n) &&
      Depth(t1, y) == Depth(t, n)
  {
    if left {
      RotateLeftShape(t, n);
      RotateLeftLinks(t, n, n);
      ChildParent(t, n);
      RotateLeftLinks(t, n, RightOf(t, n));
    } else {
      RotateRightShape(t, n);
      RotateRightLinks(t, n, n);
      ChildParent(t, n);
      RotateRightLinks(t, n, LeftOf(t, n));
    }
  }

  /** A step keeps the nodes and their in-order sequence, and keeps `n`'s
      parent above the restructured part at the same depth. */
  lemma RebalanceAtShape(t: Tree, h: map<Node, nat>, n: Node)
    requires Distinct(t) && n in Nodes(t)
    ensures var t1, p := RebalanceAt(t, h, n), ParentOf(t, n);
      Distinct(t1) && Nodes(t1) == Nodes(t) && InOrder(t1) == InOrder(t) &&
      (p != null ==> p in Nodes(t1) && p !in Nodes(Sub(t, n)) && Depth(t1, p) + 1 == Depth(t, n))
  {
    var b := BalanceAt(t, h, n);
    var p := ParentOf(t, n);
    HeavySide(t, h, n);
    ChildParent(t, n);
    ParentFacts(t, n);
    if p != null {
      assert p !in Nodes(Sub(t, n)) by {
        if p in Nodes(Sub(t, n)) {
          SubInside(t, n, p, null);
        }
      }
    }
    if b > 1 || b < -1 {
      var left := b > 1;
      var c := if left then RightOf(t, n) else LeftOf(t, n);
      var t0 := if BalanceAt(t, h, c) * b < 0 then (if left then RotateRightAt(t, c) else RotateLeftAt(t, c)) else t;
      assert Distinct(t0) && Nodes(t0) == Nodes(t) && InOrder(t0) == InOrder(t) &&
        ParentOf(t0, n) == p && Depth(t0, n) == Depth(t, n) &&
        (if left then RightOf(t0, n) != null else LeftOf(t0, n) != null) by {
        if BalanceAt(t, h, c) * b < 0 {
          HeavySide(t, h, c);
          RotateBelow(t, n, c, !left);
        }
      }
      RotateAtTop(t0, n, left);
      if p != null {
        var y := if left then RightOf(t0, n) else LeftOf(t0, n);
        var t1 := RebalanceAt(t, h, n);
        assert ParentOf(t1, y) == p && Depth(t1, y) == Depth(t, n);
        ParentFacts(t1, y);
      }
    }
  }

  /** The whole of `rebalance(n)`: a step at `n`, then the same from `n`'s
      parent upwards until the root has been visited. */
  ghost function Rebalanced(t: Tree, h: map<Node, nat>, n: Node): Tree
    requires Distinct(t) && n in Nodes(t)
    decreases Depth(t, n)
  {
    var t1 := RebalanceAt(t, h, n);
    var p := ParentOf(t, n);
    RebalanceAtShape(t, h, n);
    if p != null then Rebalanced(t1, h, p) else t1
  }

  /** Rebalancing keeps the node set and the in-order sequence, so the keys
      and their order are unchanged. */
  lemma {:induction false} RebalancedShape(t: Tree, h: map<Node, nat>, n: Node)
    requires Distinct(t) && n in Nodes(t)
    ensures var t' := Rebalanced(t, h, n);
      Distinct(t') && Nodes(t') == Nodes(t) && InOrder(t') == InOrder(t)
    decreases Depth(t, n)
  {
    var t1 := RebalanceAt(t, h, n);
    var p := ParentOf(t, n);
    RebalanceAtShape(t, h, n);
    if p != null {
      RebalancedShape(t1, h, p);
    }
  }
}
