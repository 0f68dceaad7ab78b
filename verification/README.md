# Red-black tree of `src/rbtree.c`, modelled in Dafny

`src/rbtree.c` is a red-black tree of `int` keys with duplicates allowed.
A single black sentinel stands for every missing child and for the root's
parent. It offers creation, insertion with fixup, lookup, subtree minimum
and maximum, erasure with fixup, and an in-order export into a
caller-supplied buffer of capacity `n`.

The model is functional:

- A tree is a value `Leaf | Node(color, left, key, right)`. `Leaf` is the
  sentinel, and `ColorOf(Leaf)` is black.
- A node pointer is a `Path` of left and right turns from the root.
- A rotation returns the rotated subtree. The parent link and the
  `t->root` field follow from where that value is placed.
- The in-order key sequence `Keys` is the abstract content of a tree.
  `SortedSeqs` holds the reference operations on sequences:
  - `SortedInsert` inserts after the leading run of elements `<=` the key,
    which for a sorted sequence is after the last element `<=` the key;
  - `RemoveAt` deletes one position.

The modules are:

- `Trees`: the data model, the invariants and `new_rbtree`.
  - `SearchOrdered` means the in-order keys are sorted.
  - `RedBlack` means the root is black, no red node has a red child, and
    both children of every node have equal black-height.
- `Rotations`: `left_rotate` and `right_rotate`.
- `Insertion`: `rbtree_insert` and `rbtree_insert_fixup`.
  - The descent is a recursion.
  - One pass of the fixup loop runs at the grandparent on the way back up.
- `Search`:
  - `rbtree_find`, as a loop that returns the path it walked;
  - `rbtree_subtree_min` and `rbtree_subtree_max`;
  - `rbtree_min` and `rbtree_max`, which are the subtree functions applied
    to the root.
- `Erasure`: `rbtree_erase`, `transplant` and `rbtree_erase_fixup`.
  - The recursion returns a flag saying whether the rebuilt subtree still
    owes one black, which is the loop's `ex_node`.
  - The parent runs the loop pass.
- `Export`: `set_rbtree_node_to_array` and `rbtree_to_array`.
  - The buffer is a sequence at least `n` long.
  - Every write is an indexed update whose bound the verifier checks.
- `BlackPaths`: shows that the black-height predicate used throughout is
  the path-wise invariant: equal black counts on every path from a node to
  a sentinel.
- `Scenarios`: concrete insertion sequences and the insert/erase round trip.

Two concrete runs of the code:

- Inserting 10, 20 and 30 into an empty tree gives black 20 with red 10 and
  red 30 (`Scenarios.AscendingThree`).
- Inserting 1 to 7 in order leaves 2 at the root. The tree is
  `B2(B1, R4(B3, B6(R5, R7)))` and its black-height is 2
  (`Scenarios.AscendingSeven`).

## Model

| member | source | states |
|---|---|---|
| Trees.NewTree | src/rbtree.c:18-29 | a new tree holds no keys, its root is the black sentinel, and it satisfies every invariant |
| Rotations.RotateLeft | src/rbtree.c:50-66 | the pivot's right child becomes the subtree root and the pivot its left child; the child's left subtree moves under the pivot; colours stay with their nodes; the in-order keys are unchanged |
| Rotations.RotateRight | src/rbtree.c:68-84 | mirror image of the left rotation, with the in-order keys unchanged |
| Rotations.RotationsInverse | src/rbtree.c:50-84 | a right rotation undoes a left rotation, and the other way round |
| Insertion.FixLeft | src/rbtree.c:88-102 | one fixup pass with the parent on the grandparent's left (recolour, or one or two rotations) keeps the in-order keys |
| Insertion.FixRight | src/rbtree.c:103-118 | the mirror pass with the parent on the right keeps the in-order keys |
| Insertion.FixLeftRedBlack | src/rbtree.c:88-102 | the pass keeps the black-height. Below a black grandparent it removes a red-red edge; below a red one, at most a red root with one red child remains for the next pass |
| Insertion.FixRightRedBlack | src/rbtree.c:103-118 | the same for the mirror pass |
| Insertion.Ins | src/rbtree.c:86-155 | the descent with ties going right, the new red node at the sentinel reached, and one fixup pass per level on the way back up. Its own contract only promises a real node; its content is stated by `Insertion.InsKeys`, `Insertion.InsMultiset` and `Insertion.InsRedBlack` |
| Insertion.InsKeys | src/rbtree.c:137-153 | on an ordered tree the descent (ties go right) plus fixups puts the key after every equal key: the keys become the reference sorted insertion |
| Insertion.InsOrdered | src/rbtree.c:137-155 | an ordered tree stays ordered after the descent and fixups |
| Insertion.InsNodeKeys | src/rbtree.c:137-155 | at one level of the descent, the fixup pass keeps the node's key between the subtree the key went into and the untouched one |
| Insertion.InsMultiset | src/rbtree.c:123-157 | insertion adds exactly one occurrence of the key and loses nothing |
| Insertion.InsRedBlack | src/rbtree.c:86-121 | the fixup loop keeps black-heights equal; a red-red edge can remain only at a red root, for the level above to repair |
| Insertion.InsKeepsRedBlack | src/rbtree.c:86-121 | below a valid root, insertion leaves a balanced tree with no red-red edge |
| Insertion.Insert | src/rbtree.c:123-157 | inserting changes the in-order sequence by exactly the one key, in its sorted position. Order and the red-black invariants are kept. An empty tree gets a black root |
| Search.MinPath | src/rbtree.c:174-184 | the leftmost walk reaches a real node without a left child, at in-order position 0 |
| Search.MaxPath | src/rbtree.c:190-199 | the rightmost walk reaches a real node without a right child, at the last in-order position |
| Search.SubtreeMin | src/rbtree.c:174-188 | the result is the sentinel exactly for the sentinel; otherwise it is the first in-order key, at most every key of an ordered subtree |
| Search.SubtreeMax | src/rbtree.c:190-203 | the result is the sentinel exactly for the sentinel; otherwise it is the last in-order key, at least every key of an ordered subtree |
| Search.Find | src/rbtree.c:159-172 | a returned node holds the key and is the first such node on the search path. On an ordered tree, a node is returned exactly when the key is present (NULL otherwise) |
| Erasure.BlackSiblingLeft | src/rbtree.c:216-231 | cases 2 to 4 with a black sibling: the in-order keys are kept, the result is balanced, and its black-height plus any deficit passed up equals the parent's black-height once the deficit is paid |
| Erasure.BlackSiblingRight | src/rbtree.c:240-255 | the mirror cases, with the same guarantees |
| Erasure.NearNephewRight | src/rbtree.c:220-225 | case 3: recolouring and a right rotation at the sibling keep its keys and turn it into a black sibling with a red far child, both children one black level below it |
| Erasure.NearNephewLeft | src/rbtree.c:244-249 | the mirror of case 3, with a left rotation at the sibling |
| Erasure.FarNephewLeft | src/rbtree.c:226-230 | case 4: the sibling takes the parent's colour and a left rotation at the parent pays the deficit; keys are kept, the result is balanced, and its black-height is the parent's once paid |
| Erasure.FarNephewRight | src/rbtree.c:250-254 | the mirror of case 4, with a right rotation at the parent |
| Erasure.FixupLeft | src/rbtree.c:208-231 | one full pass, the red-sibling case included: the in-order keys are kept, the result is balanced, and its black-height plus any deficit passed up equals the parent's once the deficit is paid |
| Erasure.FixupRight | src/rbtree.c:232-256 | the mirror pass, with the same guarantees |
| Erasure.RebalanceLeft | src/rbtree.c:205-259 | without a deficit the fixup does not run: the parent is rebuilt around its new left child unchanged and no deficit is passed up. A red `ex_node` fails the loop test and is only painted black, again with no deficit passed up. Otherwise one loop pass runs. In every case the keys are kept and balance is restored up to the returned deficit |
| Erasure.RebalanceRight | src/rbtree.c:205-259 | the mirror for a new right child: no change and no deficit without one, a red `ex_node` only painted black, and otherwise one pass, with keys and balance kept up to the returned deficit |
| Erasure.RebalanceLeftReds | src/rbtree.c:205-259 | a loop pass leaves no red-red edge. A red root is returned only where the parent was red, or as a deficit that painting black resolves |
| Erasure.RebalanceRightReds | src/rbtree.c:205-259 | the mirror of the red-red accounting |
| Erasure.FixupLeftReds | src/rbtree.c:208-231 | a pass with a black `ex_node` on the left, the red-sibling case included, leaves no red-red edge the level above cannot settle |
| Erasure.FixupRightReds | src/rbtree.c:232-256 | the mirror pass keeps the same accounting |
| Erasure.BlackSiblingLeftReds | src/rbtree.c:216-231 | cases 2 to 4 keep the red-red accounting |
| Erasure.BlackSiblingRightReds | src/rbtree.c:240-255 | the mirror cases keep the red-red accounting |
| Erasure.Del | src/rbtree.c:272-302 | removal of the node, with the fixup passes below the point where the deficit stops: the rebuilt subtree is balanced, and its black-height plus the deficit it reports equals the old black-height |
| Erasure.DelSuccessorKeys | src/rbtree.c:281-296 | with two children, the successor's key replaces the node's key and is removed from the front of the right subtree, so exactly the node's position disappears from the in-order sequence |
| Erasure.DelKeys | src/rbtree.c:272-296 | removal deletes exactly the key at the node's in-order position |
| Erasure.DelReds | src/rbtree.c:205-302 | removal plus fixups leave no red-red edge the level above cannot settle |
| Erasure.Erase | src/rbtree.c:272-305 | erasing a node of a valid tree removes exactly its key at its in-order position. It keeps order and the red-black invariants, and the multiset loses one copy of the key |
| Export.FillInOrder | src/rbtree.c:307-328 | writes the in-order keys from `idx` and stops at `n`. It returns `min(n, idx + size)`, or `idx` if already at `n`. No element outside the written range, and none at or past `n`, changes |
| Export.ToArray | src/rbtree.c:330-333 | the buffer's first `min(n, size)` slots hold the smallest in-order keys; the rest of the buffer is unchanged |
| Export.ToArrayContents | src/rbtree.c:330-333 | the whole buffer after the export is the first `min(n, size)` in-order keys followed by the untouched rest |
| BlackPaths.BalancedIffUniform | src/rbtree.c:86-121 | the equal-black-height predicate kept by both fixups is the same as equal black counts on every path from every node down to a sentinel |
| BlackPaths.BalancedCounts | src/rbtree.c:205-259 | in a balanced tree, every path to a sentinel meets exactly black-height black nodes |
| Scenarios.AscendingThreeShape | src/rbtree.c:86-157 | three increasing keys give a black middle key with two red children |
| Scenarios.AscendingTwoShape | src/rbtree.c:123-157 | a second key not below the first hangs red on the right of the black root |
| Scenarios.AscendingThree | src/rbtree.c:86-157 | 10, 20, 30 give black 20 with red children 10 and 30 |
| Scenarios.ExportThree | src/rbtree.c:307-333 | exporting that tree with capacity 3 yields 10, 20, 30; with capacity 2 it yields 10, 20 and leaves the third slot alone |
| Scenarios.AscendingSeven | src/rbtree.c:86-157 | keys 1 to 7 in order give `B2(B1, R4(B3, B6(R5, R7)))`, black-height 2 |
| Scenarios.EraseOnlyNode | src/rbtree.c:159-172 | after inserting one key and erasing the node found for it, a lookup of that key finds nothing |
| Scenarios.InsertEraseRoundTrip | src/rbtree.c:123-305 | on a valid tree, erasing any node that holds the key just inserted gives back the original in-order sequence |

## Left out

- `print_rbtree` (lines 7-16): console output only.
- `delete_rbtree` and `delete_node_recursion` (lines 31-48): they only free memory, and a value model has no memory to release.
- Allocation failure: `malloc` and `calloc` are assumed to succeed.
- The key stored in the sentinel: it is never read as a key.
- Pointer identity: a node is named by its path from the root. Erase takes a path that leads to a real node. That is the code's unchecked precondition that `node` belongs to `t`.
- Parent pointers and the `t->root` field: both follow from the nesting of values. Where the code stores a parent into the sentinel (lines 269 and 286) and reads it back (line 208), the model keeps the deficit's position in its recursion instead.
- The integer width of `key_t` and `size_t`: keys are only compared, so `int` suffices. Indices are `nat` and are bounded by the capacity `n`.
- The constant results of `rbtree_erase` and `rbtree_to_array` (both 0), and the node pointers returned by `rbtree_insert` and the min/max functions. `Search.SubtreeMin` and `Search.SubtreeMax` return the subtree at that node.
- `rbtree_min` and `rbtree_max`: they are `Search.SubtreeMin` and `Search.SubtreeMax` applied to the root, with no member of their own.
- `transplant`: folded into `Erasure.Del`, which puts the replacement subtree where the removed node was.
- `rbtree.h` is not part of this model. The colour enumeration, `node_t` and `rbtree` are taken from their use in `src/rbtree.c`.
