# A verified model of the `BTree<type, order>` class of BTree/Tema.cpp

`BTree/Tema.cpp` is an in-memory B-tree of order `order`, a set of distinct keys. Each node
(`treeNode`) stores up to `order - 1` keys in `data`, in increasing order, and up to `order`
children in `children`. Each array has one extra slot, for the transient overflow before a split.
A node records its `degree`, its `parent` and its `child_index` in that parent. The tree owns the
`root` and an element counter `size`. The class offers:

- lookup: `nodeSearch`, `search`;
- ordered queries: `predecessor`, `successor`, `printRange`, `begin`, `back`;
- iterator steps: `successorSearch`, `predecessorSearch`;
- updates: `insert` (with `insertInto` and `split`) and `remove` (with `removeFrom` and `rebalance`).

This project models that class in Dafny, with `int` keys and `order` as a constructor argument
(`order >= 3`). It is imperative, in the source's form:

- `Node` is a class with the five fields of `treeNode`. `data` and `children` are sequences of
  length `order` and `order + 1`, reassigned slot by slot.
- `BTree` is a class with `root` and `size`.
- Every shifting and copying loop of the source is a method with its loop invariants.

Every node is tied to an abstract view by ghost state. `T` maps each live node to a `View`:

- its key list;
- the set of keys in its subtree;
- its height above the leaves;
- its parent and its slot there;
- its children.

`Contents` is the set of stored keys. `BTree.Valid()` is the B-tree invariant at rest:

- keys are strictly increasing in each node and separate the children's key ranges;
- all leaves are at one depth;
- each node's fields agree with its view (`Linked`, `Stored`);
- the fill bounds hold (`Fill`): fewer than `order` keys, at least `(order - 1) / 2` outside the
  root, and at least one key in an internal node;
- `size == |Contents|`.

The structural proofs are done on the abstract tree, one module per step of the algorithm:

- `BTreeGrow`: placing a key;
- `BTreeSplit`: a split;
- `BTreeShrink`: removing or replacing a key;
- `BTreeRotate`: rotations;
- `BTreeMerge`: merge and root collapse.

The methods that change the nodes' fields are each proved to leave every node agreeing with the
new abstract tree:

- `BTreeMoves` and `BTreeShifts`: the loops;
- `BTreeRelink` and `BTreeRebalance`: the node surgery of each step.

Module `BTrees` holds the `BTree` class.

Key slots at or past `degree` are stale: the model does not constrain what they hold. Two tests
of the source read such a slot (see "## Findings"). The model itself uses the intended tests.

## Model

| member | source | states |
|---|---|---|
| BTreeNodes.Node.constructor | BTree/Tema.cpp:21-27 | A new node has no keys, the given parent and child index, value-initialised (zero) key slots and null child slots. |
| BTrees.BTree.constructor | BTree/Tema.cpp:534 | A new tree is one empty leaf as root, holds no keys, and satisfies the invariant. |
| BTrees.BTree.NodeSearch | BTree/Tema.cpp:191-213 | Returns a slot of a live node. The keys before the slot are below `v`; the key at the slot, if any, is not. `v` is stored iff the slot holds it. On a miss, the slot is in a leaf and no stored key lies between that leaf's keys and `v`. On an empty tree the slot is 0 of the root. |
| BTrees.BTree.Search | BTree/Tema.cpp:540-549 | `search(v)` is true iff `v` is a stored key. |
| BTrees.BTree.Begin | BTree/Tema.cpp:625-632 | Returns slot 0 of the leftmost leaf, which holds the least stored key; on an empty tree, slot 0 of the root. |
| BTrees.BTree.Back | BTree/Tema.cpp:633-641 | Returns the last slot of the rightmost leaf, which holds the greatest stored key; on an empty tree, slot -1 of the root. |
| BTrees.BTree.SuccessorSearch | BTree/Tema.cpp:450-486 | From the position of `b`, returns `iend` iff no stored key exceeds `b`; otherwise a key position holding the least stored key above `b`. |
| BTrees.BTree.PredecessorSearch | BTree/Tema.cpp:487-525 | From the position of `b`, returns `irend` iff no stored key is below `b`; otherwise a key position holding the greatest stored key below `b`. From a key of an internal node the result is the last slot of a leaf. |
| BTrees.BTree.PrevAbove | BTree/Tema.cpp:511-524 | From slot 0 of a leaf, the climb to the first ancestor that is not a first child yields the greatest stored key below `b`, or `irend` iff there is none. |
| BTrees.BTree.Predecessor | BTree/Tema.cpp:552-571 | On a non-empty tree, returns a stored key: the greatest stored key `<= v`, or, when every key exceeds `v`, the minimum. On an empty tree, the root's first slot. |
| BTrees.BTree.Successor | BTree/Tema.cpp:574-596 | On a non-empty tree, returns a stored key: the least stored key `>= v`, or, when every key is below `v`, the maximum. |
| BTrees.BTree.Miss | BTree/Tema.cpp:580-590 | Where `nodeSearch` missed `v`, either the slot holds the least stored key above `v`, or the slot is past the last key of its leaf and that key is the greatest stored key below `v`. |
| BTrees.BTree.RangeStart | BTree/Tema.cpp:601-614 | Returns the position of the least stored key `>= l`, or `iend` iff there is none. |
| BTrees.BTree.PrintRange | BTree/Tema.cpp:599-623 | The keys printed are exactly the stored keys in `[l, u]`, in strictly increasing order. |
| BTrees.RangeGrows | BTree/Tema.cpp:617-621 | One step of the printing loop keeps the output strictly increasing and equal to the stored keys from `l` up to the next position. |
| BTrees.BTree.Insert | BTree/Tema.cpp:653-657 | Afterwards the invariant holds and the keys are the old keys plus `v`. Inserting a stored key changes nothing: same nodes, same fields, same `size`. |
| BTrees.BTree.InsertInto | BTree/Tema.cpp:80-102 | If `v` is already at the slot, nothing changes. Otherwise `v` is stored there and, when the node reaches `order` keys, `split` runs. Either way the tree ends valid, with the key set that the insertion defines. |
| BTrees.BTree.StoreKey | BTree/Tema.cpp:89-99 | Stores `v` at its slot and counts one more key. The tree is then at rest, or overflowing at that node when it holds `order` keys. |
| BTreeMoves.OpenDataSlot | BTree/Tema.cpp:92-93 | Keys `i .. degree - 1` move one slot up; all other slots keep their values. |
| BTreeGrow.SplicedSorted | BTree/Tema.cpp:89-96 | A key placed between its neighbours keeps a node's key list strictly increasing, and the list gains exactly that key. |
| BTreeGrow.Grown | BTree/Tema.cpp:89-96 | Placing a new key in its leaf slot keeps the shape invariant. The tree's keys gain exactly that key, and only that leaf's key list changes. |
| BTrees.BTree.Split | BTree/Tema.cpp:104-188 | Splits a node holding `order` keys into two halves around the median, which moves into the parent (a new root when the node is the root). The tree ends valid with the same keys. |
| BTreeRelink.SplitOff | BTree/Tema.cpp:110-180 | The median is slot `(order - 1) / 2`. Afterwards the fields agree with the split tree, except that the median is pending in the parent, at the split node's child index. The split tree holds the same keys. A split of the root adds one level above it. |
| BTreeRelink.NewHalves | BTree/Tema.cpp:113-121 | Creates two empty halves linked to the parent at the split node's slot and the next one, and a new parentless root when the split node is the root. Nothing else changes. |
| BTreeRelink.SplitNode | BTree/Tema.cpp:123-177 | After the surgery, every node of the split tree is linked as its view says. Every node but the parent stores its keys; the parent stores its keys except the median. |
| BTreeMoves.SplitEntries | BTree/Tema.cpp:123-177 | The left half gets the keys before the median and the right half the keys after it. Each gets the children around its keys, re-linked with their new child indices. The halves take the split node's slot in the parent, whose later children move one slot up. |
| BTreeMoves.SplitHalves | BTree/Tema.cpp:123-164 | The keys before and after the median, with the children around them, go to the two empty halves, and every moved child points to its half. |
| BTreeMoves.MoveHalf | BTree/Tema.cpp:125-164 | One copying loop and the child move after it: a run of keys and the children around it go to the first slots of an empty node. Each moved child is re-linked there, and its old slot is cleared. |
| BTreeMoves.OpenChildSlot | BTree/Tema.cpp:168-173 | The parent's children after the split node move one slot up, each with its child index one larger. |
| BTreeSplit.SplitShape | BTree/Tema.cpp:104-188 | Splitting an overflowing node keeps the shape invariant (sorted nodes, separated subtrees, one leaf depth) under the possibly new root, with the same key set. |
| BTrees.BTree.Remove | BTree/Tema.cpp:659-666 | Afterwards the invariant holds and the keys are the old keys minus `v`. Removing an absent key changes nothing: same nodes, same fields, same `size`. |
| BTrees.BTree.RemoveFrom | BTree/Tema.cpp:424-447 | Removes exactly the key at the given position, and the tree ends valid. |
| BTrees.BTree.SwapKeys | BTree/Tema.cpp:430-436 | A key of an internal node trades storage with its predecessor, found at the last key of a leaf. |
| BTrees.BTree.Reswap | BTree/Tema.cpp:430-436 | After the swap, the tree's keys are the old keys minus the removed key, and the predecessor's leaf slot is the one to close. |
| BTrees.BTree.TakeKey | BTree/Tema.cpp:437-442 | The later keys of the leaf move one slot left and the leaf counts one key fewer. The tree is then valid except that this leaf may be one key short. |
| BTreeMoves.CloseDataSlot | BTree/Tema.cpp:439-440 | Keys `pos + 1 .. degree - 1` move one slot down; all other slots keep their values. |
| BTreeShrink.CutSorted | BTree/Tema.cpp:437-442 | Cutting a key out of a strictly increasing list keeps it strictly increasing, and the list loses exactly that key. |
| BTreeShrink.Shrunk | BTree/Tema.cpp:437-442 | Taking a key out of a leaf keeps the shape invariant. The tree's keys lose exactly that key, and only that leaf's key list changes. |
| BTreeShrink.Swapped | BTree/Tema.cpp:430-442 | Putting the predecessor in place of an internal node's key and cutting it from its leaf keeps the shape invariant. The tree loses exactly the replaced key. |
| BTrees.BTree.ThinNext | BTree/Tema.cpp:444-446 | After a key leaves a node, the tree is valid if the node still has `(order - 1) / 2` keys, and is in the state `rebalance` handles if it has fewer. |
| BTrees.BTree.Rebalance | BTree/Tema.cpp:215-421 | Starting from a node one key below the minimum, a rotation, a merge or a root collapse (after merges repeated up the tree) leaves the tree valid. The key set is the same, and no node is created. |
| BTrees.BTree.UnderRoot | BTree/Tema.cpp:220-221 | A root below the minimum needs no rebalancing: the tree is valid. |
| BTrees.BTree.Rotate | BTree/Tema.cpp:222-322 | If a sibling has a key to spare, the left one first, a rotation leaves the tree valid with the same keys. Otherwise nothing changes, and neither sibling has a key to spare. |
| BTrees.BTree.RotateRight | BTree/Tema.cpp:226-269 | The separator comes down into the short node and the left sibling's last key goes up; the tree is valid with the same keys and nodes. |
| BTrees.BTree.RotateLeft | BTree/Tema.cpp:276-322 | The separator comes down into the short node and the right sibling's first key goes up; the tree is valid with the same keys and nodes. |
| BTrees.BTree.MergeSiblings | BTree/Tema.cpp:325-340 | A short node merges with its left sibling when it has one, else with its right. Afterwards only the parent may be short, by one key, and the keys are the same. |
| BTrees.BTree.MergeStep | BTree/Tema.cpp:339-398 | The two siblings and the separator become one node and the right sibling leaves the tree. The keys are the same, and the parent, one key shorter, is the only node that may be below its bounds. |
| BTrees.BTree.CollapseRoot | BTree/Tema.cpp:402-413 | A root left without keys hands its place to its only child; the tree is valid with the same keys. |
| BTreeRebalance.RotateRightNode | BTree/Tema.cpp:236-269 | The field surgery of the right rotation leaves every node agreeing with the abstract tree cut one slot left of the separator. |
| BTreeRebalance.RotateLeftNode | BTree/Tema.cpp:282-322 | The field surgery of the left rotation leaves every node agreeing with the abstract tree cut one slot right of the separator. |
| BTreeRebalance.MergeNode | BTree/Tema.cpp:342-398 | The field surgery of the merge leaves every node but the removed sibling agreeing with the merged abstract tree. |
| BTreeRebalance.CollapseNode | BTree/Tema.cpp:402-413 | The only child of the emptied root loses its parent, and every node but the old root agrees with the tree rooted at that child. |
| BTreeShifts.ShiftEntriesRight | BTree/Tema.cpp:236-249 | The short node's keys and children move one slot up, each moved child with its child index one larger. |
| BTreeShifts.RotateRightMoves | BTree/Tema.cpp:236-269 | The parent's separator becomes the left sibling's last key. The old separator and the left sibling's last child become the first key and first child of the right node, and the left sibling counts one key fewer. |
| BTreeShifts.ShiftEntriesLeft | BTree/Tema.cpp:301-320 | The right sibling's keys and children from slot 1 move one slot down, each moved child with its child index one smaller. |
| BTreeShifts.RotateLeftMoves | BTree/Tema.cpp:282-322 | The parent's separator becomes the right sibling's first key. The old separator and that first child become the last key and child of the left node, and the right sibling closes its first slots. |
| BTreeShifts.AppendLoop | BTree/Tema.cpp:350-362 | The right node's keys and children follow the left node's keys, each moved child re-linked to the left node at its new slot, and the right node's child slots are cleared. |
| BTreeShifts.AppendEntries | BTree/Tema.cpp:350-376 | The copying loop, then the right node's last child becomes the left node's child after its new last key. |
| BTreeShifts.CloseSlot | BTree/Tema.cpp:383-398 | The separator and the child after it leave the parent. Later keys and children move one slot down, each child with its child index one smaller, and the parent counts one key fewer. |
| BTreeShifts.MergeMoves | BTree/Tema.cpp:342-398 | The separator, then all keys and children of the right sibling, follow the left sibling's keys, and the parent closes the gap. |
| BTreeSiblings.JoinedSorted | BTree/Tema.cpp:222-398 | Two adjacent siblings' keys with their separator between them form one strictly increasing run, which the rotations and the merge redistribute. |
| BTreeRotate.RedistShape | BTree/Tema.cpp:222-322 | A rotation keeps the shape invariant and the tree's key set. |
| BTreeRebalance.RedistRests | BTree/Tema.cpp:232-269 | A rotation from a sibling with a key to spare leaves every node within its fill bounds, the short node included, with the same keys and nodes. |
| BTreeMerge.MergeShape | BTree/Tema.cpp:325-398 | A merge keeps the shape invariant and the tree's key set. |
| BTreeRebalance.MergeRests | BTree/Tema.cpp:325-421 | A merge of two siblings that have no key to spare leaves every node but the parent within bounds. The parent holds one key fewer; the keys and the height are the same, and the right sibling leaves the tree. |
| BTreeMerge.CollapseShape | BTree/Tema.cpp:402-413 | A root without keys has exactly one child, and the tree rooted at that child keeps the shape invariant and the key set. |
| BTreeFindings.StopTests | BTree/Tema.cpp:206 | The stop test as written and the intended test differ exactly when the scan ran past the last key of an internal node whose stale slot there equals `v`. |
| BTreeFindings.StaleRootStop | BTree/Tema.cpp:206 | On an order-3 root holding -2 over two children, with the value-initialised 0 after it, the test as written stops the search for the absent 0 at that internal node. Storing 0 there gives a node with two keys and two children, which breaks the node invariant. |
| BTreeFindings.RangeStartTests | BTree/Tema.cpp:604-613 | The start test as written and the intended test differ exactly when the start is past the leaf's last key and the stale slot there equals the lower bound. |
| BTreeFindings.StaleRangeStart | BTree/Tema.cpp:599-623 | On an order-3 root leaf holding only -1, `printRange(0, u)` as written starts at the stale slot holding 0 and prints 0, which is not a key. The intended test moves past it. |

## Left out

- Output: `printRange` writes to a `std::ostream`. The model returns the printed keys as a sequence instead. `main` and file I/O are not part of this model.
- Memory management: the `treeNode` and `BTree` destructors and the `delete` of a merged sibling or a collapsed root. A node that leaves the tree leaves the domain of `T`.
- Templates: `type` is fixed to `int` and `order` is a constructor argument, with `order >= 3`.
  - `BTrees.BTree.constructor`: requires `order >= 3`, because a smaller order cannot keep the source's own fill rule.
- The warning clamps are not modelled: `i < 0` in `insertInto`, `degree > order` in `split`, `pos < 0` and `left->degree > order` in the merge, and `parent->degree < 1` after the merge. Under the preconditions the model establishes at those points, their conditions are false, so they never change anything.
- The `irend` fallback to `successorSearch` in `removeFrom`: a key of an internal node always has a predecessor. `PredecessorSearch` states that it then never returns `irend`, so the fallback cannot be reached.
- The `size == 0` return in the root collapse of `rebalance`: a merge never leaves an empty tree, so this return cannot be reached.
- The iterator class's copy constructor, assignment and comparison operators: iterators are plain values (`Iterator`). `operator++`/`operator--` are `SuccessorSearch`/`PredecessorSearch`, and `operator*` reads `data[pos]`.
- `end()` and `rend()` return the two sentinels `IEnd` and `IREnd`, which are modelled as constants.
- BTrees.BTree.Successor: requires a non-empty tree. On an empty tree the source falls through to `*back()`, which reads `data[-1]` of the root, outside the array.
- BTrees.BTree.NodeSearch: models the intended stop test, not the one at Tema.cpp:206 (see "## Findings").
- BTrees.BTree.RangeStart: models the intended start test, not the one at Tema.cpp:604-613 (see "## Findings").
- Stale key slots: after a node loses keys the source resets some freed slots to `type()` and not others. The model leaves the content of key slots at or past `degree` unspecified. The same holds for the value-initialisation of a split's new nodes beyond what `Node.constructor` states.
- Integer width: `degree`, `child_index` and `size` are unbounded integers. A tree large enough to overflow them is out of scope.

## Findings

| source | as written | input that shows it | evidently intended | confidence | as-written member | corrected member |
|---|---|---|---|---|---|---|
| BTree/Tema.cpp:206 | `nodeSearch` stops at slot `i` when `data[i] == val`, even when `i == degree`, where the slot holds no key | order 3: insert -3, -2, -1; then insert 0. The root holds -2 with a stale 0 after it. The search for 0 stops at slot 1 of the internal root, and `insertInto` stores 0 there, leaving a node with two keys and two children. | compare only while `i < degree` (as `search` and `remove` do) | not executed | BTreeFindings.StaleRootStop | BTrees.BTree.NodeSearch |
| BTree/Tema.cpp:604-613 | `printRange` keeps the start slot when `*it == l_bound`, even when `it.pos == degree`, where the slot holds no key | order 3: insert -1; `printRange(0, 5)`. The root leaf holds -1 with a stale 0 after it, and 0 is printed. | move past a slot at `degree` regardless of its stale content | not executed | BTreeFindings.StaleRangeStart | BTrees.BTree.RangeStart |
