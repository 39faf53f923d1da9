# Verified model of three Rust data structures

This project models the core of a small Rust collection of data structures. It has three parts.

- **AVL node balancing** (`avl_tree/src/node.rs`). A node has a value, a cached height and two
  child slots. The model covers the per-side height, the `i8` balance factor (with its truncating
  casts), the cached-height update, single rotation and `rebalance`. A node that the source
  updates in place through `&mut self` is modelled as a function that returns the node now in
  the same slot. `mem::swap` in `rotate` becomes "return the new subtree root".
- **Append-only skip list** (`skip_list/src/lib.rs`). Each appended node gets the id
  `length + 1`; the first node is on every level, and each later node is on 1 + `get_level()`
  levels, drawn by coin flips. It is linked after the current tail of
  each of its levels. `search(id)` descends from the top level. An iterator walks one level.
  Nodes are kept in an arena: `nodes[k]` is the (k+1)-th node appended, with id k + 1, and a link is an arena index.
  The class invariant says each level is a forward chain through exactly the nodes on it, in
  append order, ending at that level's tail.
- **Singly linked list with a tail link** (`linked_list/src/lib.rs`). It supports `append`,
  `prepend`, `pop` from the front, and a front-to-back iterator. Nodes are heap objects. The
  ghost `spine` (the nodes from head to tail) and `contents` (their payloads) are the
  abstraction. The invariant ties `head`, `tail` and `length` to them.

A balance factor outside -2..2 is not treated as an error: `rebalance` returns after updating
the height (`avl_tree/src/node.rs:65`), and so does the model.

## Model

| member | source | states |
|---|---|---|
| Sides.Opposite | avl_tree/src/node.rs:48 | `!side` is the other side, never the side itself |
| AvlTree.Child | avl_tree/src/node.rs:15-20 | `child(side)` is the left slot for `Left` and the right slot for `Right` |
| AvlTree.WithChild | avl_tree/src/node.rs:22-27 | writing through `child_mut(side)` replaces that slot only; value, height and the other slot are unchanged |
| AvlTree.SideHeight | avl_tree/src/node.rs:29-31 | `height(side)` is 0 for an absent child and the child's cached height otherwise |
| AvlTree.AsI8 | avl_tree/src/node.rs:37 | `as i8` yields a value in -128..127 that agrees with its argument modulo 256 |
| AvlTree.NegI8 | avl_tree/src/node.rs:39 | negating an `i8` stays in -128..127 and is the negation modulo 256 |
| AvlTree.BalanceFactor | avl_tree/src/node.rs:33-41 | the result is an `i8` congruent to height(Right) - height(Left) modulo 256, and equal to it when the difference fits in an `i8` |
| AvlTree.UpdateHeight | avl_tree/src/node.rs:43-45 | the height becomes 1 + the larger side height, nothing else changes, and correct cached heights below make the node's height correct |
| AvlTree.Rotate | avl_tree/src/node.rs:47-57 | the `!side` child C becomes the root, the old root S becomes C's `side` child, C's `side` child moves under S, the outer subtrees stay, the in-order values are kept, and correct heights below give correct heights everywhere |
| AvlTree.RotateRoundTrip | avl_tree/src/node.rs:47-57 | on a tree with correct cached heights, rotating back the other way gives back the original tree |
| AvlTree.Rebalance | avl_tree/src/node.rs:59-75 | the in-order values are kept; on a balance factor other than ±2 the result is the node with its height updated; correct heights are preserved |
| AvlTree.CachedHeightIsDepth | avl_tree/src/node.rs:43-45 | where every cached height was set by `update_height`, the cached height is the tree's real depth |
| AvlTree.AvlBalanceFactorExact | avl_tree/src/node.rs:33-41 | on an AVL tree the balance factor is exactly height(Right) - height(Left), and lies in -1..1 |
| AvlTree.RebalanceLeftHeavy | avl_tree/src/node.rs:62-74 | with two AVL children whose heights differ by 2 on the left, the unwraps succeed and the result is AVL and at most one taller than the left child |
| AvlTree.RebalanceRightHeavy | avl_tree/src/node.rs:62-74 | the mirror case for a right-heavy node |
| AvlTree.LeftRightShape | avl_tree/src/node.rs:68-74 | when a left-heavy node's left child leans right, `rebalance` rotates that child left and then the node right: the grandchild becomes the root, with the left child and the node beneath it at one less than the left child's height |
| AvlTree.RebalanceLeftRight | avl_tree/src/node.rs:62-74 | in that case the result is AVL and exactly as tall as the left child |
| AvlTree.RightLeftShape | avl_tree/src/node.rs:68-74 | the mirror of the left-right shape for a right-heavy node whose right child leans left |
| AvlTree.RebalanceRightLeft | avl_tree/src/node.rs:62-74 | in that case the result is AVL and exactly as tall as the right child |
| AvlTree.RebalanceRestoresAvl | avl_tree/src/node.rs:59-75 | for AVL children whose heights differ by at most 2, `rebalance` cannot panic, returns an AVL tree with the same in-order values, and its height is at least the taller child's and at most one more |
| SkipList.NextOnLevel | skip_list/src/lib.rs:58-65 | a forward link on level l from node k goes to the first later node on level l; no link means no later node is on that level |
| SkipList.LastOnLevel | skip_list/src/lib.rs:58-65 | a level's tail is the last node on it; no tail means no node is on it |
| SkipList.NextOnLevelAppend | skip_list/src/lib.rs:58-65 | appending a node changes a level's forward links only at that level's old last node, and only if the new node is on the level |
| SkipList.LastOnLevelAppend | skip_list/src/lib.rs:64 | after an append the new node is the tail of exactly the levels it is on |
| SkipList.NoSuccessorIsLast | skip_list/src/lib.rs:82-86 | a node on a level has no forward link there exactly when it is that level's tail |
| SkipList.LevelFromSkip | skip_list/src/lib.rs:133-147 | nodes not on a level add nothing to that level's iteration |
| SkipList.LevelAboveIsSubsequence | skip_list/src/lib.rs:49-72 | each level lists a subsequence of the level below it |
| SkipList.LevelIdsIncrease | skip_list/src/lib.rs:56 | since ids follow append order, every level lists strictly increasing ids |
| SkipList.BottomLevelIsEverything | skip_list/src/lib.rs:150-157 | level 0 lists every node, in append order, with its id and data |
| SkipList.LinkTail | skip_list/src/lib.rs:59-62 | one pass of the append loop on the nodes: only the old tail's link on level i changes, to the new node; payloads, ids and level counts stay |
| SkipList.AppendLoopStep | skip_list/src/lib.rs:58-65 | one pass of the append loop wires one more level and keeps the other levels as they were |
| SkipList.AppendWellformed | skip_list/src/lib.rs:49-72 | after the loop the list invariant holds again and the payloads gain the new item at the end |
| SkipList.SkipList.constructor | skip_list/src/lib.rs:32-39 | `new(max_level)`: no head, `max_level + 1` empty tails, length 0 |
| SkipList.SkipList.GetLevel | skip_list/src/lib.rs:41-47 | the level is at most `max_level`, every flip it counted came up true, and below `max_level` the next flip is false or missing |
| SkipList.SkipList.Append | skip_list/src/lib.rs:49-72 | the new node has id `length + 1`; the first node is on every level, later nodes on 1 + `get_level` levels; it is linked after each of its levels' old tails and becomes their tail; nothing else changes; the contents gain the item at the end; the invariant is kept |
| SkipList.SkipList.LinkNode | skip_list/src/lib.rs:56-71 | once the level count is drawn: the node with id `length + 1` is linked after the old tail of each of its levels and becomes their tail, the first node becomes the head, nothing else changes, and the invariant is kept |
| SkipList.SkipList.ScanLevel | skip_list/src/lib.rs:91-97 | moving right on one level never passes `id` and stops where the next node is missing or beyond `id` |
| SkipList.SkipList.BottomLevelStep | skip_list/src/lib.rs:58-65 | on level 0 each node links to the next node appended |
| SkipList.SkipList.BottomLevelMiss | skip_list/src/lib.rs:90-103 | a level-0 scan that stops on a node whose id is not `id` proves no node has id `id` |
| SkipList.SkipList.Descend | skip_list/src/lib.rs:88-103 | descending from any start level returns the `id`-th appended item when 1 <= id <= length, else `None` |
| SkipList.SkipList.Search | skip_list/src/lib.rs:74-109 | as written, on a list that does not hold exactly one node: the `id`-th appended item when it exists, else `None` |
| SkipList.SkipList.OneNodeHasNoSuccessor | skip_list/src/lib.rs:81-86 | on a one-node list the head has no forward link on any level, so the start-level scan of `search` cannot stop |
| SkipList.SkipList.SearchFixed | skip_list/src/lib.rs:74-109 | with the start-level scan stopped at level 0, `search` returns the `id`-th appended item or `None` on every list |
| SkipList.SkipList.IterLevel | skip_list/src/lib.rs:111-113 | the iterator starts at the head; for a level up to `max_level` it will yield that level's `(id, data)` pairs, and above it, on a non-empty list, it is not usable |
| SkipList.SkipList.IntoIter | skip_list/src/lib.rs:150-157 | the iterator walks level 0 and yields `(k, item k)` for every appended item, `length` in all |
| SkipList.SkipList.BottomLevelIsContents | skip_list/src/lib.rs:150-157 | on a valid list, level 0 lists `(k + 1, item k)` for every appended item, `length` in all |
| SkipList.SkipList.LevelItems | skip_list/src/lib.rs:130-148 | draining a level iterator yields exactly that level's `(id, data)` pairs in order |
| SkipList.Iter.constructor | skip_list/src/lib.rs:121-128 | `Iter::new(start, level)` stores its start and level |
| SkipList.Iter.Next | skip_list/src/lib.rs:133-147 | `next` yields the first remaining pair and drops it, or `None` once nothing remains |
| SkipList.Iter.Drain | skip_list/src/lib.rs:130-148 | calling `next` until `None` yields exactly the pairs that remained, in order |
| LinkedList.Node.constructor | linked_list/src/lib.rs:11-16 | a new node holds its data and has no successor |
| LinkedList.LinkedList.constructor | linked_list/src/lib.rs:29-35 | `new()`: no head, no tail, length 0, no contents |
| LinkedList.LinkedList.Append | linked_list/src/lib.rs:37-47 | contents become `old ++ [v]`, length grows by 1, the new node is the tail, the head stays on a non-empty list, and the invariant is kept |
| LinkedList.LinkedList.Prepend | linked_list/src/lib.rs:49-59 | contents become `[v] ++ old`, length grows by 1, the new node is the head, the tail stays on a non-empty list, and the invariant is kept |
| LinkedList.LinkedList.Pop | linked_list/src/lib.rs:61-74 | on an empty list `None` and nothing changes; otherwise the first item, the rest `old[1..]`, length down by 1, head and tail both cleared when the only node is popped, and the footprint only shrinks |
| LinkedList.LinkedList.Iter | linked_list/src/lib.rs:76-78 | the iterator will yield the contents from head to tail |
| LinkedList.LinkedList.IntoIter | linked_list/src/lib.rs:113-120 | `into_iter` yields the same sequence as `iter` |
| LinkedList.LinkedList.Collect | linked_list/src/lib.rs:93-111 | draining the iterator yields exactly the contents, `length` items |
| LinkedList.LinkedList.PrependThenPop | linked_list/src/lib.rs:49-74 | `prepend(v)` then `pop()` returns `Some(v)` and restores contents and length; the footprint gains only fresh objects |
| LinkedList.Iter.constructor | linked_list/src/lib.rs:86-90 | `Iter::new(start)` starts at the given node and will yield the chain from it |
| LinkedList.Iter.Next | linked_list/src/lib.rs:96-110 | `next` yields the first remaining item and moves on, or `None` once nothing remains |
| LinkedList.Iter.Drain | linked_list/src/lib.rs:93-111 | calling `next` until `None` yields exactly the items that remained, in order |

## Left out

- Reference counting and interior mutability (`Rc<RefCell<…>>`) are not modelled. Every node has exactly one owner and there are no cycles.
- The derived `Clone` on both lists (skip_list/src/lib.rs:23, linked_list/src/lib.rs:21) is shallow and shares nodes. It is not modelled.
- LinkedList.LinkedList.Pop: the panic at linked_list/src/lib.rs:70 is not modelled. It happens when a live iterator still holds the popped node.
- LinkedList.Iter.Next: the source iterator keeps its nodes alive through `Rc` clones even after the list changes. Here the iterator's guarantees hold only while its nodes are not modified.
- SkipList.SkipList.LinkNode: nodes sit in an arena and links are indices. Rewriting a tail's `next` vector is a functional update of that arena entry. Aliasing through `Rc` is not captured.
- SkipList.SkipList.GetLevel: `rand::random` becomes a sequence of coin flips passed in, and running out of flips counts as a false flip. Probabilities are not modelled.
- SkipList.Iter.Next: on a non-empty list, iterating a level above `max_level` panics by indexing out of bounds. The iterator's validity excludes that case.
- SkipList.SkipList.Search: requires the list not to hold exactly one node, because `search` panics there (see Findings).
- The `u64`/`usize` counters (`length`, ids, heights) are unbounded naturals. Their overflow is not modelled.
- The skip list's `Debug` formatting (skip_list/src/lib.rs:159-177) is text output and is not modelled.
- avl_tree/src/lib.rs holds only type declarations. The tree-level operations (insert, remove, contains, iteration) are not part of this model.
- The `side` module imported at avl_tree/src/node.rs:3 is not part of this model. `Side` and `Opposite` are defined here.
- AvlTree.BalanceFactor: the negation at avl_tree/src/node.rs:39 is modelled with release-build wrapping (`-(-128)` stays -128). The debug-build overflow panic is not modelled.
- AvlTree.Rebalance: requires that the `unwrap` calls at avl_tree/src/node.rs:48 and 68 succeed. Because of `i8` truncation this can fail on some non-AVL inputs, where the source panics. For AVL children it always holds (AvlTree.RebalanceRestoresAvl).
- AvlTree.Rotate: node identity (`mem::swap`) and in-place mutation are modelled as returning the new subtree root.

## Findings

| source | as written | input that shows it | evidently intended | confidence | as-written member | corrected member |
|---|---|---|---|---|---|---|
| skip_list/src/lib.rs:81-86 | `search` decrements `start_level` until the head has a forward link on that level, with no stop at level 0 | `new(0)`, then `append(x)`, then `search(1)`: the only node has no forward link on any level, so `start_level` goes below 0 and the call panics | stop the scan at level 0 and descend from there, so `search(1)` returns `Some(x)` | not executed | SkipList.SkipList.Search, SkipList.SkipList.OneNodeHasNoSuccessor | SkipList.SkipList.SearchFixed |
