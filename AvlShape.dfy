/** The vertices of the counting tree and the abstract shape they form.

    A `Node` is the heap object of `AVL.Node`. A `Tree` is a ghost picture of
    the child pointers: `Br(l, n, r)` says that node `n` has the subtrees `l`
    and `r` below it. The functions here read no heap state (a node's `word`
    is a constant), so every fact about them is a fact about shapes only. */
module AvlShape {
  import opened StringOrder

  /** A tree vertex: its key, its occurrence counter, its cached height and
      its three links. */
  class Node {
    const word: string
    var parent: Node?
    var left: Node?
    var right: Node?
    var height: int
    var num: int

    /** `new Node(w)` and `new Node(w, p)`: only the key and the parent are
        set; every other field keeps its default (null, 0). */
    constructor (w: string, p: Node?)
      ensures word == w && parent == p && left == null && right == null
      ensures height == 0 && num == 0
    {
      word := w;
      parent := p;
      left := null;
      right := null;
      height := 0;
      num := 0;
    }
  }

  datatype Tree = Nil | Br(left: Tree, node: Node, right: Tree)

  ghost function Nodes(t: Tree): set<Node> {
    match t
    case Nil => {}
    case Br(l, n, r) => Nodes(l) + {n} + Nodes(r)
  }

  ghost function Size(t: Tree): nat {
    match t
    case Nil => 0
    case Br(l, _, r) => Size(l) + 1 + Size(r)
  }

  /** No node occurs twice: the shape is a tree, not a graph. */
  ghost predicate Distinct(t: Tree) {
    match t
    case Nil => true
    case Br(l, n, r) =>
      Distinct(l) && Distinct(r) && n !in Nodes(l) && n !in Nodes(r) && Nodes(l) !! Nodes(r)
  }

  ghost function Root(t: Tree): Node? {
    if t.Nil? then null else t.node
  }

  /** The subtree whose root is `m` (`Nil` when `m` is not in `t`). */
  ghost function Sub(t: Tree, m: Node?): (s: Tree)
    ensures m in Nodes(t) ==> s.Br? && s.node == m
    ensures m !in Nodes(t) ==> s == Nil
    ensures Nodes(s) <= Nodes(t) && Size(s) <= Size(t)
    ensures Distinct(t) ==> Distinct(s)
  {
    match t
    case Nil => Nil
    case Br(l, n, r) =>
      if n == m then t else if m in Nodes(l) then Sub(l, m) else Sub(r, m)
  }

  /** What `m.left` must be. */
  ghost function LeftOf(t: Tree, m: Node): Node? {
    var s := Sub(t, m);
    if s.Br? then Root(s.left) else null
  }

  /** What `m.right` must be. */
  ghost function RightOf(t: Tree, m: Node): Node? {
    var s := Sub(t, m);
    if s.Br? then Root(s.right) else null
  }

  /** The parent of `m` in `t`, taking `p` as the parent of `t`'s root. */
  ghost function ParentIn(t: Tree, m: Node, p: Node?): Node? {
    match t
    case Nil => null
    case Br(l, n, r) =>
      if n == m then p else if m in Nodes(l) then ParentIn(l, m, n) else ParentIn(r, m, n)
  }

  /** What `m.parent` must be: null exactly for the root. */
  ghost function ParentOf(t: Tree, m: Node): Node? {
    ParentIn(t, m, null)
  }

  /** Number of edges from the root down to `m`. */
  ghost function Depth(t: Tree, m: Node): nat {
    match t
    case Nil => 0
    case Br(l, n, r) =>
      if n == m then 0 else if m in Nodes(l) then 1 + Depth(l, m) else 1 + Depth(r, m)
  }

  /** The nodes in symmetric (in-order) order. */
  ghost function InOrder(t: Tree): seq<Node> {
    match t
    case Nil => []
    case Br(l, n, r) => InOrder(l) + [n] + InOrder(r)
  }

  /** The in-order nodes that precede the subtree rooted at `x`. */
  ghost function Before(t: Tree, x: Node): seq<Node> {
    match t
    case Nil => []
    case Br(l, n, r) =>
      if n == x then [] else if x in Nodes(l) then Before(l, x) else InOrder(l) + [n] + Before(r, x)
  }

  /** The in-order nodes that follow the subtree rooted at `x`. */
  ghost function After(t: Tree, x: Node): seq<Node> {
    match t
    case Nil => []
    case Br(l, n, r) =>
      if n == x then [] else if x in Nodes(l) then After(l, x) + [n] + InOrder(r) else After(r, x)
  }

  /** The keys of a sequence of nodes. */
  ghost function WordsOf(s: seq<Node>): (ws: seq<string>)
    ensures |ws| == |s|
  {
    seq(|s|, i requires 0 <= i < |s| => s[i].word)
  }

  /** The keys of a tree in in-order order. */
  ghost function TreeWords(t: Tree): seq<string> {
    WordsOf(InOrder(t))
  }

  /** The map that a sequence of nodes stands for: each key to its
      counter (for a repeated key, the later node wins). */
  ghost function ContentOf(s: seq<Node>): map<string, int>
    reads s`num
  {
    if s == [] then map[] else ContentOf(s[..|s| - 1])[s[|s| - 1].word := s[|s| - 1].num]
  }

  /** `s` with every occurrence of `n` dropped. */
  ghost function Without(s: seq<Node>, n: Node): seq<Node> {
    if s == [] then []
    else (if s[0] == n then [] else [s[0]]) + Without(s[1..], n)
  }

  /** `t` with the subtree rooted at `x` replaced by `s`: the effect of every
      pointer rewrite in the tree. */
  ghost function Replace(t: Tree, x: Node, s: Tree): Tree {
    match t
    case Nil => Nil
    case Br(l, n, r) =>
      if n == x then s
      else if x in Nodes(l) then Br(Replace(l, x, s), n, r)
      else if x in Nodes(r) then Br(l, n, Replace(r, x, s))
      else t
  }

  /** A left rotation on the edge from a subtree's root to its right child. */
  ghost function RotLeft(s: Tree): Tree {
    match s
    case Br(a, x, Br(b, y, c)) => Br(Br(a, x, b), y, c)
    case _ => s
  }

  /** A right rotation on the edge from a subtree's root to its left child. */
  ghost function RotRight(s: Tree): Tree {
    match s
    case Br(Br(a, y, b), x, c) => Br(a, y, Br(b, x, c))
    case _ => s
  }

  ghost function RotateLeftAt(t: Tree, x: Node): Tree {
    Replace(t, x, RotLeft(Sub(t, x)))
  }

  ghost function RotateRightAt(t: Tree, x: Node): Tree {
    Replace(t, x, RotRight(Sub(t, x)))
  }

  /** `n` (which has at most one child) taken out, its child moving up. */
  ghost function DetachAt(t: Tree, n: Node): Tree {
    var s := Sub(t, n);
    Replace(t, n, if s.Br? && s.left.Nil? then s.right else if s.Br? then s.left else Nil)
  }

  /** The descent of `search(n, w)`: equal key found, else left when
      `w.compareTo(word) < 0`, else right. */
  ghost function Lookup(t: Tree, w: string): (r: Node?)
    ensures r != null ==> r in Nodes(t) && r.word == w
  {
    match t
    case Nil => null
    case Br(l, n, r) =>
      if w == n.word then n else if Less(w, n.word) then Lookup(l, w) else Lookup(r, w)
  }

  /** The descent of `bstInsert`/`avlInsert`: hang `nn` at the empty slot
      that `strcmp` leads to, or leave the tree alone if the key is there. */
  ghost function BstAdd(t: Tree, nn: Node): Tree {
    match t
    case Nil => Br(Nil, nn, Nil)
    case Br(l, n, r) =>
      var c := Strcmp(nn.word, n.word);
      if c == -1 then Br(BstAdd(l, nn), n, r)
      else if c == 1 then Br(l, n, BstAdd(r, nn))
      else t
  }
}
