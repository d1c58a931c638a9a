# Counting AVL tree of words

This project models `avl.AVL`, a map from words to occurrence counters. The map is kept in a
binary search tree of linked `Node`s. Each node holds its word, its counter `num`, a cached
`height` and `left`/`right`/`parent` links. The tree object holds `root` and a `size` counter.
The model keeps the heap form of the original: `Node` and `Avl` are classes, and every
operation that rewires links, writes a counter or a height, or bumps `size` is a method that
makes the same writes in the same order. The one exception is `Unlink`, which also sets the
moved child's `parent` to the removed node's parent; the code as written does not (see
Findings, and `UnlinkAsWritten` for the writes exactly as they stand).

Each method is proved against a ghost shape:
- `T` is a `Tree` datatype over the node references that the links spell out.
- `Repr` is the set of nodes of `T`.
- `H` mirrors the cached heights.

`WellLinked()` says that every node's `left`, `right` and `parent` are the ones `T` gives it.
`Valid()` adds that the in-order keys are strictly increasing. `Content()` is the map the tree
stands for: each key to its node's counter.

Modules:
- `StringOrder`: `String.compareTo` on `seq<char>`, `strcmp`, and the order facts the tree uses.
- `AvlShape`: the `Node` class, the `Tree` shape and pure functions on it (subtrees, links,
  in-order sequence, replacement, rotations, unlinking, search and insertion descents).
- `ShapeLemmas`: how replacements, rotations, attaching and detaching change links and order.
- `SearchLemmas`: search-tree facts (sortedness, lookup, the map of a node sequence).
- `Descent`: the recursive insertions start on the search path of the key.
- `Rebalancing`: what `rebalance` does to the shape, as a function of the shape and the heights.
- `AvlMap`: the `Avl` class and its operations.

Behaviour the model keeps as written:
- A new node's counter starts at 0, so after k insertions of a word its counter is k-1.
- `remove` of a word whose counter is not 1 decrements it (possibly to -1) and unlinks nothing.
- `remove` never decrements `size`, and `clear` does not reset it.
- `put` returns the value it stored.
- `remove` of an absent key returns `null` (the model's `None`), although its comment promises 0.
- Rotations never recompute heights, so cached heights go stale. Nothing in the model assumes
  that a cached height equals the real height of its subtree.

## Model

| member | source | states |
|---|---|---|
| StringOrder.Strcmp | app/src/main/java/avl/AVL.java:57-60 | the result is only -1, 0 or 1, and it is -1, 0 or 1 exactly when `compareTo` is negative, zero or positive |
| StringOrder.CompareZero | app/src/main/java/avl/AVL.java:37-39 | `compareTo` is 0 exactly for equal strings, so the `equals` test and the order agree |
| StringOrder.Trichotomy | app/src/main/java/avl/AVL.java:37-42 | exactly one of w < k, w == k, k < w holds, so the search descent always has one way to go |
| StringOrder.LessTransitive | app/src/main/java/avl/AVL.java:39-42 | the `compareTo` order is transitive |
| StringOrder.StrcmpDirection | app/src/main/java/avl/AVL.java:65-80 | `strcmp(w, k)` is -1 exactly when w sorts before k, 1 exactly when after, 0 exactly when equal |
| AvlShape.Node.constructor | app/src/main/java/avl/AVL.java:409-417 | only the word and the parent are set; the links are null and height and counter are 0 |
| AvlShape.Lookup | app/src/main/java/avl/AVL.java:33-44 | the descent of `search` over a shape returns null or a node of the shape that carries the key |
| SearchLemmas.LookupFound | app/src/main/java/avl/AVL.java:33-44 | on a sorted shape, the descent finds a node exactly when the key is one of the shape's keys |
| SearchLemmas.ContentLookup | app/src/main/java/avl/AVL.java:33-44 | on a sorted shape, the descent finds nothing exactly for keys outside the map; a found node holds the key's counter |
| SearchLemmas.ContentNode | app/src/main/java/avl/AVL.java:393-399 | on a sorted shape, every node's key is in the map with that node's counter |
| SearchLemmas.BstAddFound | app/src/main/java/avl/AVL.java:80 | the insertion descent leaves the shape alone when it meets the key |
| SearchLemmas.BstAddNew | app/src/main/java/avl/AVL.java:64-82 | for an absent key, the insertion adds exactly the new node and keeps the root, unless the tree was empty |
| SearchLemmas.BstAddSorted | app/src/main/java/avl/AVL.java:64-82 | inserting an absent key keeps the keys strictly sorted and adds exactly that key |
| SearchLemmas.ContentBstAdd | app/src/main/java/avl/AVL.java:117-118 | inserting an absent key adds it to the map with the new node's counter and changes nothing else |
| SearchLemmas.ContentWithout | app/src/main/java/avl/AVL.java:141-181 | dropping the only node that carries a key removes exactly that key from the map |
| SearchLemmas.SortedWithout | app/src/main/java/avl/AVL.java:141-181 | dropping a node from a sorted in-order sequence keeps it sorted and adds no node |
| ShapeLemmas.RotateLeftShape | app/src/main/java/avl/AVL.java:185-201 | a left rotation keeps the node set and the in-order sequence; the right child takes x's place and depth, or becomes the root; x's subtree shrinks |
| ShapeLemmas.RotateRightShape | app/src/main/java/avl/AVL.java:205-221 | the mirror image for a right rotation |
| ShapeLemmas.RotateLeftLinks | app/src/main/java/avl/AVL.java:185-201 | after a left rotation, the links of every node are the old ones except those of x, its right child, that child's left child and x's parent |
| ShapeLemmas.DetachShape | app/src/main/java/avl/AVL.java:145-161 | unlinking a non-root node with at most one child removes exactly that node, keeps the root, and drops only that node from the in-order sequence |
| ShapeLemmas.DetachLinks | app/src/main/java/avl/AVL.java:145-161 | after unlinking, only the link that pointed at the node moves, to the node's child |
| ShapeLemmas.AttachShape | app/src/main/java/avl/AVL.java:67-78 | hanging a fresh leaf at an empty slot adds exactly that node and keeps the root |
| ShapeLemmas.AttachLinks | app/src/main/java/avl/AVL.java:67-78 | after hanging the leaf, only the slot's link and the leaf's own links differ |
| Descent.OnPathLookup | app/src/main/java/avl/AVL.java:33-44 | searching from a node on the key's search path finds what searching from the root finds |
| Descent.OnPathBstAdd | app/src/main/java/avl/AVL.java:64-82 | inserting below a node on the key's path is inserting into the whole tree |
| Descent.AttachIsBstAdd | app/src/main/java/avl/AVL.java:67-78 | hanging the new node at the empty slot that `strcmp` picks is the search-tree insertion of its key |
| Rebalancing.HeavySide | app/src/main/java/avl/AVL.java:237-244 | a balance above 1 implies a right child, and one below -1 implies a left child, so the rotations have their operands |
| Rebalancing.RotateBelow | app/src/main/java/avl/AVL.java:238-243 | the inner rotation of a double rotation keeps n in place under its parent, with the heavy side non-empty |
| Rebalancing.RebalanceAtShape | app/src/main/java/avl/AVL.java:235-246 | one step keeps the nodes and the in-order sequence; n's former parent sits directly above the restructured part |
| Rebalancing.RebalancedShape | app/src/main/java/avl/AVL.java:235-249 | the whole upward rebalancing keeps the nodes and the in-order sequence |
| AvlMap.ContentKept | app/src/main/java/avl/AVL.java:185-221 | when no counter changes, the map of an in-order sequence stays the same (rotations and height writes leave the map alone) |
| AvlMap.Avl.constructor | app/src/main/java/avl/AVL.java:18-22 | a new tree is valid and empty, with size 0 |
| AvlMap.Avl.RecalcHeight | app/src/main/java/avl/AVL.java:97-104 | the new height is one more than the larger cached child height, an absent child counting -1; only n's height changes |
| AvlMap.Avl.Balance | app/src/main/java/avl/AVL.java:224-231 | on a well-linked tree, `balance` (right minus left cached height, an absent child counting -1) equals the balance read off the shape and the height map that the rebalancing proof uses |
| AvlMap.Avl.LeftRotated | app/src/main/java/avl/AVL.java:185-201 | the exact link writes of `leftRotate` leave every node linked as the rotated shape says, with the same in-order sequence |
| AvlMap.Avl.RightRotated | app/src/main/java/avl/AVL.java:205-221 | the same for `rightRotate` |
| AvlMap.Avl.LeftRotate | app/src/main/java/avl/AVL.java:185-201 | the tree stays well linked and becomes the left rotation at x, with the same nodes and in-order sequence; x ends below its former right child, which sits under x's former parent; no height or counter changes |
| AvlMap.Avl.RightRotate | app/src/main/java/avl/AVL.java:205-221 | the mirror image for a right rotation |
| AvlMap.Avl.RebalanceRightHeavy | app/src/main/java/avl/AVL.java:237-240 | for a balance above 1: a right rotation at the right child when that child leans left, then a left rotation at n; the result is one rebalancing step |
| AvlMap.Avl.RebalanceLeftHeavy | app/src/main/java/avl/AVL.java:242-245 | the mirror image for a balance below -1 |
| AvlMap.Avl.Rebalance | app/src/main/java/avl/AVL.java:235-249 | the new shape is the upward rebalancing of the old one from n to the root; nodes, in-order sequence and heights are kept |
| AvlMap.Avl.SearchFrom | app/src/main/java/avl/AVL.java:33-44 | the result is the descent of `search` over the subtree at n |
| AvlMap.Avl.Search | app/src/main/java/avl/AVL.java:30-32 | the descent from the root; a result is a node of the tree carrying the key |
| AvlMap.Avl.SearchFinds | app/src/main/java/avl/AVL.java:30-44 | on a valid tree, `search` returns null exactly for keys outside the map, and a found node holds the key's counter |
| AvlMap.Avl.ContainsKey | app/src/main/java/avl/AVL.java:279-283 | true exactly for the keys of the map |
| AvlMap.Avl.Get | app/src/main/java/avl/AVL.java:291-296 | the key's counter, or 0 for an absent key |
| AvlMap.Avl.IsEmpty | app/src/main/java/avl/AVL.java:274-276 | true exactly when the map is empty |
| AvlMap.Avl.MostCommonFrom | app/src/main/java/avl/AVL.java:373-384 | a node of n's subtree whose counter is at least every counter there; it is n unless its counter is strictly larger than n's; a winner from the right subtree beats every counter of the left subtree strictly (ties go to n, then left, then right) |
| AvlMap.Avl.MostCommon | app/src/main/java/avl/AVL.java:387-390 | null exactly for an empty map; otherwise a node of the tree whose counter is the map's value for its key and is at least every value of the map |
| AvlMap.Avl.InOrderKeys | app/src/main/java/avl/AVL.java:348-353 | the result is the given set plus the keys of n's subtree |
| AvlMap.Avl.KeySet | app/src/main/java/avl/AVL.java:356-360 | the result is exactly the key set of the map |
| AvlMap.Avl.Counted | app/src/main/java/avl/AVL.java:130 | changing the counter of one node changes the map at that node's key only, because keys are distinct |
| AvlMap.Avl.Attached | app/src/main/java/avl/AVL.java:113-127 | the writes that hang a fresh leaf at the slot found by the descent give a valid tree whose shape is the search-tree insertion; the key was absent and now maps to 0 |
| AvlMap.Avl.NewLeaf | app/src/main/java/avl/AVL.java:67-78 | `n.left/right = new Node(w, n); size++`: the map gains w with counter 0 and size grows by 1 |
| AvlMap.Avl.BstInsertAt | app/src/main/java/avl/AVL.java:64-82 | below a node on w's path, a present key leaves shape, map and size alone; an absent key adds one fresh node, maps w to 0, and adds 1 to size |
| AvlMap.Avl.NewRoot | app/src/main/java/avl/AVL.java:48-51 | on an empty tree, the new root makes the map {w: 0}, the shape and the node set exactly that fresh root carrying w, and sets size to 1 |
| AvlMap.Avl.BstInsert | app/src/main/java/avl/AVL.java:47-54 | a present key changes nothing (the shape, the root and every link stay, no counter moves, no node is added); an absent key is added with counter 0 as exactly one fresh node hung at its search position, the shape becoming the search-tree insertion of the old one, every old node staying in the tree; size is 1 for an empty tree, else grows exactly when the key was absent |
| AvlMap.Avl.InsertBelow | app/src/main/java/avl/AVL.java:111-131 | the descent of `avlInsert(n, w)`: a present key's counter grows by 1, an absent key is added with counter 0 and size grows by 1; nothing else in the map changes |
| AvlMap.Avl.AvlInsertAt | app/src/main/java/avl/AVL.java:110-134 | the same after the height recomputation and rebalancing at n, which change neither the map nor the node set |
| AvlMap.Avl.AvlInsert | app/src/main/java/avl/AVL.java:87-94 | the tree stays valid; w's counter grows by 1 and the node set is unchanged, or w is added with counter 0 as exactly one fresh node, every old node staying in the tree; size is 1 for an empty tree, else grows exactly when w was absent |
| AvlMap.Avl.Put | app/src/main/java/avl/AVL.java:299-305 | the map becomes the old map with key set to value; the result is the value; the node set gains exactly one fresh node when the key was absent and is unchanged otherwise; size as for `avlInsert` |
| AvlMap.Avl.Clear | app/src/main/java/avl/AVL.java:343-345 | the map becomes empty and the root null; size keeps its value |
| AvlMap.Avl.Detached | app/src/main/java/avl/AVL.java:145-161 | the writes of the corrected unlinking leave every node linked as the detached shape says, with only that node dropped from the in-order sequence |
| AvlMap.Avl.DroppedKey | app/src/main/java/avl/AVL.java:141-181 | dropping a node from the in-order sequence, with no counter changing, keeps the keys sorted and removes exactly its key from the map |
| AvlMap.Avl.Unlink | app/src/main/java/avl/AVL.java:145-161 | unlinking a non-root node with at most one child, its child re-pointed at the node's parent: the tree stays valid and loses exactly that node and its key |
| AvlMap.Avl.UnlinkAsWritten | app/src/main/java/avl/AVL.java:148-161 | the unlinking as written, for a node whose one child is on the same side as the node hangs from its parent: the shape loses the node, but the moved child's parent link still names the removed node, so the tree is no longer well linked |
| AvlMap.Avl.RotateDownAndRemove | app/src/main/java/avl/AVL.java:148-177 | rotating n down one level and removing it from there: valid, exactly n's node and key gone |
| AvlMap.Avl.RotateToBottomAndRemove | app/src/main/java/avl/AVL.java:141-181 | the tree stays valid, n is gone from the nodes and the in-order sequence, the map loses exactly n's key, and n's final parent is still in the tree |
| AvlMap.Avl.RebalanceUpwards | app/src/main/java/avl/AVL.java:320-325 | the upward loop keeps the tree valid, its nodes, its in-order sequence and its map |
| AvlMap.Avl.Remove | app/src/main/java/avl/AVL.java:311-331 | an absent key gives `None` and no change to the map; a counter of 1 gives 0 and removes the key; any other counter is decremented and returned; when no node is unlinked, the shape, the node set and the cached heights are unchanged; no node is added |

## Left out

- `printTree`/`printSubtree` (console output), `getSize`/`size()` (they only read the `size` field, which the model has), `containsValue`, `values` and `entrySet` (they only throw), and `putAll` (it iterates a foreign `java.util.Map`).
- The `getClass() != String.class` checks and their `null` results: keys are typed as `string`.
- A `null` `Integer` value passed to `put`: counters are plain integers.
- `String.compareTo` is modelled on `seq<char>` with Dafny characters (Unicode scalar values), not UTF-16 code units. The two orders differ only for characters outside the Basic Multilingual Plane.
- `keySet` fills a `HashSet` in place; `InOrderKeys` threads the set through as a value and returns it.
- Integer overflow of `num`, `height` and `size` (Java `int`) is not modelled; the model's integers are unbounded.
- The cached heights are not proved to equal subtree heights. Rotations never recompute them, so they do not equal subtree heights, and AVL balance is not proved either.
- AvlMap.Avl.Remove: requires that a root removed with a counter of 1 has two children. As written, `rotateToBottomAndRemove` dereferences the missing parent of such a root (AVL.java:145, 150, 160).
- AvlMap.Avl.Remove: the upward loop of AVL.java:321-325 runs at most `fuel` times. The loop's termination depends on stale cached heights and is not proved.
- AvlMap.Avl.RebalanceUpwards: stops when the cursor is null. As written, the loop reads `n.parent` after `n = n.parent` and throws once a rotation has lifted `n` to the root.
- AvlMap.Avl.RotateToBottomAndRemove: uses the corrected unlinking (see Findings), because the stale parent link of the code as written lets a later rebalancing re-attach the removed node.

## Findings

| source | as written | input that shows it | evidently intended | confidence | as-written member | corrected member |
|---|---|---|---|---|---|---|
| app/src/main/java/avl/AVL.java:151,161 | when a node with one child is unlinked, the parent's link moves to the child, but the child's `parent` still names the removed node | `avlInsert` "b", "a", "c", "d", "c", then `remove("c")`: "b".right becomes "d", but "d".parent is still "c"; a later `avlInsert("e")` rebalances from "d" up through "c", left-rotates at "c" and re-attaches "c" below "d", so `containsKey("c")` is true again | the child's `parent` is set to the removed node's parent | not executed | AvlMap.Avl.UnlinkAsWritten | AvlMap.Avl.Unlink |
