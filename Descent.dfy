/** The recursive insertions start from a node on the path that `strcmp`
    leads down from the root; inserting below such a node is inserting into
    the whole tree. */
module Descent {
  import opened StringOrder
  import opened AvlShape
  import opened ShapeLemmas
  import opened SearchLemmas

  /** `n` lies on the path that `strcmp(w, ·)` follows down from the root of `t`. */
  ghost predicate OnPath(t: Tree, n: Node, w: string) {
    match t
    case Nil => false
    case Br(l, m, r) =>
      m == n || (Strcmp(w, m.word) == -1 && OnPath(l, n, w)) || (Strcmp(w, m.word) == 1 && OnPath(r, n, w))
  }

  lemma {:induction false} OnPathIn(t: Tree, n: Node, w: string)
    requires OnPath(t, n, w)
    ensures n in Nodes(t)
  {
    match t
    case Br(l, m, r) =>
      if m != n {
        if Strcmp(w, m.word) == -1 && OnPath(l, n, w) {
          OnPathIn(l, n, w);
        } else {
          OnPathIn(r, n, w);
        }
      }
  }

  /** The path goes on to the child of `n` that `strcmp(w, n.word)` picks. */
  lemma {:induction false} OnPathChild(t: Tree, n: Node, w: string)
    requires Distinct(t) && OnPath(t, n, w)
    ensures Strcmp(w, n.word) == -1 && LeftOf(t, n) != null ==> OnPath(t, LeftOf(t, n), w)
    ensures Strcmp(w, n.word) == 1 && RightOf(t, n) != null ==> OnPath(t, RightOf(t, n), w)
  {
    match t
    case Br(l, m, r) =>
      if m == n {
        assert l != Nil ==> OnPath(l, Root(l), w);
        assert r != Nil ==> OnPath(r, Root(r), w);
      } else if Strcmp(w, m.word) == -1 && OnPath(l, n, w) {
        OnPathIn(l, n, w);
        OnPathChild(l, n, w);
      } else {
        OnPathIn(r, n, w);
        OnPathChild(r, n, w);
      }
  }

  /** Inserting from a node on the path is inserting from the root. */
  lemma {:induction false} OnPathBstAdd(t: Tree, n: Node, nn: Node)
    requires Distinct(t) && OnPath(t, n, nn.word)
    ensures BstAdd(t, nn) == Replace(t, n, BstAdd(Sub(t, n), nn))
  {
    match t
    case Br(l, m, r) =>
      if m != n {
        if Strcmp(nn.word, m.word) == -1 && OnPath(l, n, nn.word) {
          OnPathIn(l, n, nn.word);
          OnPathBstAdd(l, n, nn);
        } else {
          OnPathIn(r, n, nn.word);
          OnPathBstAdd(r, n, nn);
        }
      }
  }

  /** Searching from a node on the path finds what searching from the root
      finds. */
  lemma {:induction false} OnPathLookup(t: Tree, n: Node, w: string)
    requires Distinct(t) && OnPath(t, n, w)
    ensures Lookup(t, w) == Lookup(Sub(t, n), w)
  {
    match t
    case Br(l, m, r) =>
      if m != n {
        StrcmpDirection(w, m.word);
        Trichotomy(w, m.word);
        if Strcmp(w, m.word) == -1 && OnPath(l, n, w) {
          OnPathIn(l, n, w);
          OnPathLookup(l, n, w);
        } else {
          OnPathIn(r, n, w);
          OnPathLookup(r, n, w);
        }
      }
  }

  /** Hanging `nn` at the empty slot below `n` that `strcmp` picks is the
      insertion of `nn` into the whole tree. */
  lemma AttachIsBstAdd(t: Tree, n: Node, nn: Node, left: bool)
    requires Distinct(t) && n in Nodes(t) && OnPath(t, n, nn.word)
    requires if left then Strcmp(nn.word, n.word) == -1 && LeftOf(t, n) == null
             else Strcmp(nn.word, n.word) == 1 && RightOf(t, n) == null
    ensures Attach(t, n, nn, left) == BstAdd(t, nn)
  {
    OnPathBstAdd(t, n, nn);
    ChildSub(t, n);
  }
}
