/** Facts about keys: the in-order keys of a search tree are sorted, the
    descent of `search` finds exactly the keys that are present, the
    descent of insertion adds the key in order, and the map view of the
    tree changes as the map operations say. */
module SearchLemmas {
  import opened StringOrder
  import opened AvlShape
  import opened ShapeLemmas

  lemma WordsConcat(a: seq<Node>, b: seq<Node>)
    ensures WordsOf(a + b) == WordsOf(a) + WordsOf(b)
  {
  }

  lemma TreeWordsBr(l: Tree, n: Node, r: Tree)
    ensures TreeWords(Br(l, n, r)) == TreeWords(l) + [n.word] + TreeWords(r)
  {
    WordsConcat(InOrder(l) + [n], InOrder(r));
    WordsConcat(InOrder(l), [n]);
  }

  /** A key occurs in the tree's keys exactly when some node carries it. */
  lemma TreeWordsHas(t: Tree, w: string)
    ensures w in TreeWords(t) <==> exists m :: m in Nodes(t) && m.word == w
  {
    var s := InOrder(t);
    if w in TreeWords(t) {
      var i :| 0 <= i < |s| && WordsOf(s)[i] == w;
      InOrderHas(t, s[i]);
    }
    if m :| m in Nodes(t) && m.word == w {
      InOrderHas(t, m);
      var i :| 0 <= i < |s| && s[i] == m;
      assert WordsOf(s)[i] == w;
    }
  }

  /** A sorted tree has sorted subtrees, smaller keys on the left and
      larger keys on the right. */
  lemma SortedSplit(l: Tree, n: Node, r: Tree)
    requires Sorted(TreeWords(Br(l, n, r)))
    ensures Sorted(TreeWords(l)) && Sorted(TreeWords(r))
    ensures forall w | w in TreeWords(l) :: Less(w, n.word)
    ensures forall w | w in TreeWords(r) :: Less(n.word, w)
  {
    TreeWordsBr(l, n, r);
    var ws, L, R := TreeWords(Br(l, n, r)), TreeWords(l), TreeWords(r);
    assert forall i | 0 <= i < |L| :: ws[i] == L[i];
    assert forall j | 0 <= j < |R| :: ws[|L| + 1 + j] == R[j];
    assert ws[|L|] == n.word;
  }

  /** The converse: ordered parts around a node make a sorted tree. */
  lemma SortedJoin(l: Tree, n: Node, r: Tree)
    requires Sorted(TreeWords(l)) && Sorted(TreeWords(r))
    requires forall w | w in TreeWords(l) :: Less(w, n.word)
    requires forall w | w in TreeWords(r) :: Less(n.word, w)
    ensures Sorted(TreeWords(Br(l, n, r)))
  {
    TreeWordsBr(l, n, r);
    var ws, L, R := TreeWords(Br(l, n, r)), TreeWords(l), TreeWords(r);
    forall i, j | 0 <= i < j < |ws|
      ensures Less(ws[i], ws[j])
    {
      if j < |L| {
        assert ws[i] == L[i] && ws[j] == L[j];
      } else if i > |L| {
        assert ws[i] == R[i - |L| - 1] && ws[j] == R[j - |L| - 1];
      } else if i == |L| {
        assert ws[j] == R[j - |L| - 1];
      } else if j == |L| {
        assert ws[i] == L[i];
      } else {
        assert ws[i] == L[i] && ws[j] == R[j - |L| - 1];
        LessTransitive(ws[i], n.word, ws[j]);
      }
    }
  }

  /** On a sorted tree the descent of `search` finds a node exactly when the
      key is present. */
  lemma {:induction false} LookupFound(t: Tree, w: string)
    requires Sorted(TreeWords(t))
    ensures Lookup(t, w) != null <==> w in TreeWords(t)
  {
    match t
    case Nil =>
    case Br(l, n, r) =>
      SortedSplit(l, n, r);
      TreeWordsBr(l, n, r);
      Trichotomy(w, n.word);
      if w == n.word {
      } else if Less(w, n.word) {
        LookupFound(l, w);
      } else {
        LookupFound(r, w);
      }
  }

  /** The insertion descent leaves the tree alone when it meets the key. */
  lemma {:induction false} BstAddFound(t: Tree, nn: Node)
    requires Lookup(t, nn.word) != null
    ensures BstAdd(t, nn) == t
  {
    match t
    case Br(l, n, r) =>
      StrcmpDirection(nn.word, n.word);
      if nn.word == n.word {
      } else if Less(nn.word, n.word) {
        BstAddFound(l, nn);
      } else {
        BstAddFound(r, nn);
      }
  }

  /** Otherwise it hangs `nn` as a new leaf and changes nothing else. */
  lemma {:induction false} BstAddNew(t: Tree, nn: Node)
    requires Distinct(t) && nn !in Nodes(t) && Lookup(t, nn.word) == null
    ensures Distinct(BstAdd(t, nn)) && Nodes(BstAdd(t, nn)) == Nodes(t) + {nn}
    ensures Root(BstAdd(t, nn)) == if t == Nil then nn else Root(t)
  {
    match t
    case Nil =>
    case Br(l, n, r) =>
      StrcmpDirection(nn.word, n.word);
      if Less(nn.word, n.word) {
        BstAddNew(l, nn);
      } else {
        BstAddNew(r, nn);
      }
  }

  /** Inserting a key into a sorted tree keeps it sorted and adds exactly
      that key. */
  lemma {:induction false} BstAddSorted(t: Tree, nn: Node)
    requires Sorted(TreeWords(t)) && Lookup(t, nn.word) == null
    ensures Sorted(TreeWords(BstAdd(t, nn)))
    ensures forall w :: w in TreeWords(BstAdd(t, nn)) <==> w in TreeWords(t) || w == nn.word
  {
    match t
    case Nil =>
      assert TreeWords(BstAdd(t, nn)) == [nn.word];
    case Br(l, n, r) =>
      SortedSplit(l, n, r);
      TreeWordsBr(l, n, r);
      StrcmpDirection(nn.word, n.word);
      if Less(nn.word, n.word) {
        BstAddSorted(l, nn);
        SortedJoin(BstAdd(l, nn), n, r);
        TreeWordsBr(BstAdd(l, nn), n, r);
      } else {
        BstAddSorted(r, nn);
        SortedJoin(l, n, BstAdd(r, nn));
        TreeWordsBr(l, n, BstAdd(r, nn));
      }
  }

  /** The map of a concatenation is the union of the maps, the right part
      winning. */
  lemma {:induction false} ContentConcat(a: seq<Node>, b: seq<Node>)
    ensures ContentOf(a + b) == ContentOf(a) + ContentOf(b)
    decreases |b|
  {
    if b == [] {
      assert a + b == a;
    } else {
      var b', x := b[..|b| - 1], b[|b| - 1];
      assert (a + b)[..|a + b| - 1] == a + b';
      ContentConcat(a, b');
      assert ContentOf(a + b) == (ContentOf(a) + ContentOf(b'))[x.word := x.num];
    }
  }

  /** The map's keys are the sequence's keys. */
  lemma {:induction false} ContentHas(s: seq<Node>, w: string)
    ensures w in ContentOf(s) <==> w in WordsOf(s)
    decreases |s|
  {
    if s != [] {
      var s' := s[..|s| - 1];
      ContentHas(s', w);
      assert WordsOf(s) == WordsOf(s') + [s[|s| - 1].word];
    }
  }

  /** A key carried by one node only maps to that node's counter. */
  lemma {:induction false} ContentAt(s: seq<Node>, i: nat)
    requires i < |s|
    requires forall j | 0 <= j < |s| && j != i :: s[j].word != s[i].word
    ensures s[i].word in ContentOf(s) && ContentOf(s)[s[i].word] == s[i].num
    decreases |s|
  {
    if i < |s| - 1 {
      ContentAt(s[..|s| - 1], i);
    }
  }

  /** Sorted keys are distinct. */
  lemma SortedUnique(ws: seq<string>, i: nat, j: nat)
    requires Sorted(ws) && i < |ws| && j < |ws| && i != j
    ensures ws[i] != ws[j]
  {
    if i < j {
      Trichotomy(ws[i], ws[j]);
    } else {
      Trichotomy(ws[j], ws[i]);
    }
  }

  lemma ContentTree(l: Tree, n: Node, r: Tree)
    ensures ContentOf(InOrder(Br(l, n, r))) ==
      ContentOf(InOrder(l)) + map[n.word := n.num] + ContentOf(InOrder(r))
  {
    ContentConcat(InOrder(l) + [n], InOrder(r));
    ContentConcat(InOrder(l), [n]);
    assert ContentOf([n]) == map[n.word := n.num] by {
      assert [n][..0] == [];
    }
  }

  lemma UpdateUnionLeft(a: map<string, int>, b: map<string, int>, k: string, v: int)
    requires k !in b
    ensures a[k := v] + b == (a + b)[k := v]
  {
    assert (a[k := v] + b).Keys == (a + b)[k := v].Keys;
  }

  lemma UpdateUnionRight(a: map<string, int>, b: map<string, int>, k: string, v: int)
    ensures a + b[k := v] == (a + b)[k := v]
  {
    assert (a + b[k := v]).Keys == (a + b)[k := v].Keys;
  }

  lemma RemoveUnion(a: map<string, int>, b: map<string, int>, k: string)
    requires k !in a
    ensures (a + b) - {k} == a + (b - {k})
  {
    assert ((a + b) - {k}).Keys == (a + (b - {k})).Keys;
  }

  lemma RemoveShadowed(k: string, v: int, b: map<string, int>)
    ensures (map[k := v] + b) - {k} == b - {k}
  {
    assert ((map[k := v] + b) - {k}).Keys == (b - {k}).Keys;
  }

  /** Inserting an absent key adds exactly that key, with the new node's
      counter. */
  lemma {:induction false} ContentBstAdd(t: Tree, nn: Node)
    requires nn.word !in TreeWords(t)
    ensures ContentOf(InOrder(BstAdd(t, nn))) == ContentOf(InOrder(t))[nn.word := nn.num]
  {
    match t
    case Nil =>
      assert ContentOf([nn]) == map[nn.word := nn.num] by {
        assert [nn][..0] == [];
      }
    case Br(l, n, r) =>
      var k, v := nn.word, nn.num;
      TreeWordsBr(l, n, r);
      StrcmpDirection(k, n.word);
      ContentTree(l, n, r);
      var cl, cn, cr := ContentOf(InOrder(l)), map[n.word := n.num], ContentOf(InOrder(r));
      if Less(k, n.word) {
        ContentBstAdd(l, nn);
        ContentTree(BstAdd(l, nn), n, r);
        ContentHas(InOrder(r), k);
        UpdateUnionLeft(cl, cn, k, v);
        UpdateUnionLeft(cl + cn, cr, k, v);
      } else {
        ContentBstAdd(r, nn);
        ContentTree(l, n, BstAdd(r, nn));
        UpdateUnionRight(cl + cn, cr, k, v);
      }
  }

  /** Dropping the only node that carries a key drops that key from the map. */
  lemma {:induction false} ContentWithout(s: seq<Node>, n: Node)
    requires forall j | 0 <= j < |s| && s[j] != n :: s[j].word != n.word
    ensures ContentOf(Without(s, n)) == ContentOf(s) - {n.word}
    decreases |s|
  {
    if s == [] {
    } else {
      var h, rest := s[0], s[1..];
      assert s == [h] + rest;
      assert forall j | 0 <= j < |rest| && rest[j] != n :: rest[j].word != n.word by {
        forall j | 0 <= j < |rest| && rest[j] != n
          ensures rest[j].word != n.word
        {
          assert rest[j] == s[j + 1];
        }
      }
      ContentWithout(rest, n);
      ContentConcat([h], rest);
      assert ContentOf([h]) == map[h.word := h.num] by {
        assert [h][..0] == [];
      }
      var cw := ContentOf(Without(rest, n));
      if h == n {
        assert Without(s, n) == Without(rest, n) by {
          assert [] + Without(rest, n) == Without(rest, n);
        }
        RemoveShadowed(h.word, h.num, ContentOf(rest));
      } else {
        assert Without(s, n) == [h] + Without(rest, n);
        ContentConcat([h], Without(rest, n));
        RemoveUnion(map[h.word := h.num], ContentOf(rest), n.word);
      }
    }
  }

  /** Sorted keys stay sorted without their first element. */
  lemma SortedTail(s: seq<Node>)
    requires s != [] && Sorted(WordsOf(s))
    ensures Sorted(WordsOf(s[1..]))
    ensures forall j | 1 <= j < |s| :: Less(s[0].word, s[j].word)
  {
    var ws, ts := WordsOf(s), WordsOf(s[1..]);
    forall i, j | 0 <= i < j < |ts|
      ensures Less(ts[i], ts[j])
    {
      assert ts[i] == ws[i + 1] && ts[j] == ws[j + 1];
    }
    forall j | 1 <= j < |s|
      ensures Less(s[0].word, s[j].word)
    {
      assert ws[0] == s[0].word && ws[j] == s[j].word;
    }
  }

  /** Dropping a node keeps the keys sorted. */
  lemma {:induction false} SortedWithout(s: seq<Node>, n: Node)
    requires Sorted(WordsOf(s))
    ensures Sorted(WordsOf(Without(s, n)))
    ensures forall x | x in Without(s, n) :: x in s
    decreases |s|
  {
    if s != [] {
      var h, rest := s[0], s[1..];
      var head := if h == n then [] else [h];
      assert Without(s, n) == head + Without(rest, n);
      SortedTail(s);
      SortedWithout(rest, n);
      var w := Without(rest, n);
      var ws := WordsOf(head + w);
      WordsConcat(head, w);
      forall i, j | 0 <= i < j < |ws|
        ensures Less(ws[i], ws[j])
      {
        if head == [] || i > 0 {
          assert ws[i] == WordsOf(w)[i - |head|];
          assert ws[j] == WordsOf(w)[j - |head|];
        } else {
          var x := w[j - 1];
          assert x in rest;
          var k :| 0 <= k < |rest| && rest[k] == x;
          assert s[k + 1] == x;
          assert ws[i] == h.word && ws[j] == x.word;
        }
      }
    }
  }

  /** In a search tree every node's key maps to that node's counter. */
  lemma ContentNode(t: Tree, m: Node)
    requires Sorted(TreeWords(t)) && m in Nodes(t)
    ensures m.word in ContentOf(InOrder(t)) && ContentOf(InOrder(t))[m.word] == m.num
  {
    var s := InOrder(t);
    InOrderHas(t, m);
    var i :| 0 <= i < |s| && s[i] == m;
    forall j | 0 <= j < |s| && j != i
      ensures s[j].word != s[i].word
    {
      SortedUnique(WordsOf(s), i, j);
    }
    ContentAt(s, i);
  }

  /** In a search tree the descent of `search` finds a node exactly for the
      keys of the map, and that node carries the key's counter. */
  lemma ContentLookup(t: Tree, w: string)
    requires Sorted(TreeWords(t))
    ensures Lookup(t, w) == null <==> w !in ContentOf(InOrder(t))
    ensures Lookup(t, w) != null ==> ContentOf(InOrder(t))[w] == Lookup(t, w).num
  {
    LookupFound(t, w);
    ContentHas(InOrder(t), w);
    if Lookup(t, w) != null {
      ContentNode(t, Lookup(t, w));
    }
  }
}
