# Binary search tree and AVL tree over integer keys

This project models the tree core of `BSTAndAVLPerformance.java`. That core has two classes:

- `BinarySearchTree`, an unbalanced binary search tree over `int` keys. Insert ignores duplicates. Delete replaces a node that has two children with its in-order successor. The class also has `findMin`, `findMax` and an in-order traversal.
- `AVLTree`, which runs the same recursive descent and then rebalances each node on the way back up. Heights are recomputed on demand. Insert chooses between a single and a double rotation by comparing the inserted key with the heavy child's key. Delete chooses by the heavy child's own balance factor.

Layout:

- `nodes.dfy` (module `Nodes`): the `TreeNode` shape and the views used to state properties: the key set, the in-order sequence, the size and the search-tree ordering. It also holds the read-only operations both classes share: `findMin`, `findMax` and the traversal.
- `bst.dfy` (module `Bst`): `insertRec` and `deleteRec` of the unbalanced tree, plus the `BinarySearchTree` object.
- `avl.dfy` (module `Avl`): `height`, `balanceFactor`, the rotations, the rebalancing `insertRec` and `deleteRec`, plus the `AVLTree` object.

A Java `TreeNode` with its two links is the datatype `Tree = Leaf | Node(left, key, right)`, where `Leaf` stands for `null`. No node is ever shared. Every recursive step returns the new subtree root for its caller to re-link. So `insertRec`, `deleteRec` and the rotations are functions from trees to trees. The in-place key overwrite of a two-child delete becomes a node built with the successor's key.

The tree objects are classes with a `root` field. Their `Insert` and `Delete` re-link `root` and keep the class invariant: ordered for `BinarySearchTree`, ordered and AVL-balanced for `AVLTree`. `findMin` and `findMax` are `while` loops over a cursor, proved against the functions `Leftmost` and `Rightmost`. `inOrderRec` appends to a list passed down the recursion. It is a recursive method that takes the list built so far and returns the extended list.

Keys are Java's 32-bit `int` (the newtype `Key`). They are only compared, so no overflow arises. `findMax` on an empty tree returns `Integer.MIN_VALUE`, exactly as the code does. A tree whose largest key is `Integer.MIN_VALUE` gives the same answer. The model keeps this sentinel rather than an optional result, because the code has no other empty-tree signal.

## Model

| member | source | states |
|---|---|---|
| `Nodes.InOrder` | BSTAndAVLPerformance.java:84-90 | the traversal lists exactly the tree's keys, one entry per node |
| `Nodes.Leftmost` | BSTAndAVLPerformance.java:63-68 | following left links from a non-null node ends at a node with no left child whose key is in the tree |
| `Nodes.Rightmost` | BSTAndAVLPerformance.java:72-74 | following right links ends at a node with no right child whose key is in the tree |
| `Nodes.LeftmostIsMinimum` | BSTAndAVLPerformance.java:63-68 | in an ordered tree the leftmost key is the minimum |
| `Nodes.RightmostIsMaximum` | BSTAndAVLPerformance.java:70-75 | in an ordered tree the rightmost key is the maximum |
| `Nodes.SuccessorSplits` | BSTAndAVLPerformance.java:55-58 | in a two-child node the successor lies above the node's key and the whole left subtree, and below every other key of the right subtree |
| `Nodes.FindMin` | BSTAndAVLPerformance.java:63-68 | the loop returns the leftmost node: no left child, key in the tree, and the minimum key when the tree is ordered |
| `Nodes.FindMax` | BSTAndAVLPerformance.java:70-76 | `Integer.MIN_VALUE` on an empty tree; otherwise the rightmost key, which is a stored key and the maximum when the tree is ordered |
| `Nodes.InOrderRec` | BSTAndAVLPerformance.java:84-90 | appends the subtree's in-order keys to the list built so far |
| `Nodes.TraverseInOrder` | BSTAndAVLPerformance.java:78-82 | for an ordered tree, returns every key exactly once, strictly ascending, one entry per node |
| `Nodes.OrderedIffAscending` | BSTAndAVLPerformance.java:84-90 | a tree is ordered if and only if its in-order traversal is strictly ascending |
| `Nodes.SameInOrderSameOrder` | BSTAndAVLPerformance.java:84-90 | two trees with the same traversal have the same keys and are both ordered or both not |
| `Nodes.OrderedKeysDistinct` | BSTAndAVLPerformance.java:78-90 | an ordered tree holds as many distinct keys as it has nodes |
| `Bst.InsertRec` | BSTAndAVLPerformance.java:27-37 | the result holds the old keys plus the new key and is never empty |
| `Bst.InsertRecOrdered` | BSTAndAVLPerformance.java:27-37 | inserting into an ordered tree gives an ordered tree |
| `Bst.InsertRecSize` | BSTAndAVLPerformance.java:27-37 | on an ordered tree, a present key leaves the tree unchanged and an absent key adds exactly one node |
| `Bst.DeleteRec` | BSTAndAVLPerformance.java:43-61 | removes no key it did not have, adds none, and leaves the tree unchanged when the key is absent |
| `Bst.DeleteRecOrdered` | BSTAndAVLPerformance.java:43-61 | deleting from an ordered tree gives an ordered tree holding the old keys minus the deleted key |
| `Bst.DeleteUndoesInsert` | BSTAndAVLPerformance.java:27-61 | on an ordered tree, inserting an absent key and then deleting it restores the exact tree |
| `Bst.BinarySearchTree.constructor` | BSTAndAVLPerformance.java:19-21 | a new tree is empty |
| `Bst.BinarySearchTree.Insert` | BSTAndAVLPerformance.java:23-25 | root becomes insertRec of the old root; the tree stays ordered, gains the key, and is unchanged on a duplicate |
| `Bst.BinarySearchTree.Delete` | BSTAndAVLPerformance.java:39-41 | root becomes deleteRec of the old root; the tree stays ordered, loses exactly the key, and is unchanged when the key is absent |
| `Bst.BinarySearchTree.FindMax` | BSTAndAVLPerformance.java:70-76 | the maximum key, or `Integer.MIN_VALUE` when empty |
| `Bst.BinarySearchTree.TraverseInOrder` | BSTAndAVLPerformance.java:78-82 | all keys, each once, strictly ascending |
| `Avl.Height` | BSTAndAVLPerformance.java:96-99 | the height is zero exactly for a null link and never exceeds the node count |
| `Avl.BalanceFactor` | BSTAndAVLPerformance.java:101-104 | a positive factor implies a left child and a negative one a right child; the factor is smaller in magnitude than the height |
| `Avl.RotateLeft` | BSTAndAVLPerformance.java:106-111 | preserves the in-order key sequence and the key set |
| `Avl.RotateRight` | BSTAndAVLPerformance.java:113-118 | preserves the in-order key sequence and the key set |
| `Avl.RotationsAreInverse` | BSTAndAVLPerformance.java:106-118 | a right rotation undoes a left rotation and vice versa |
| `Avl.RotationsKeepOrder` | BSTAndAVLPerformance.java:106-118 | a rotation of an ordered tree is ordered |
| `Avl.RebalanceInsert` | BSTAndAVLPerformance.java:135-152 | the insert-time balance step preserves the in-order sequence and leaves a node with factor in {-1, 0, 1} untouched |
| `Avl.RebalanceDelete` | BSTAndAVLPerformance.java:176-193 | the delete-time balance step preserves the in-order sequence and leaves a node with factor in {-1, 0, 1} untouched |
| `Avl.RotateRightRepairs` | BSTAndAVLPerformance.java:137-139 | with the left side two levels deeper and the left child not right-leaning, one right rotation yields a balanced tree that is one level lower, or equally high when the left child was even |
| `Avl.RotateLeftRightRepairs` | BSTAndAVLPerformance.java:140-143 | with the left side two levels deeper and the left child right-leaning, the left child has a right child, and the double rotation yields a balanced tree one level lower |
| `Avl.RotateLeftRepairs` | BSTAndAVLPerformance.java:144-146 | mirror image of RotateRightRepairs |
| `Avl.RotateRightLeftRepairs` | BSTAndAVLPerformance.java:147-150 | mirror image of RotateLeftRightRepairs |
| `Avl.InsertRec` | BSTAndAVLPerformance.java:125-153 | on a balanced tree every child the rotations follow exists, the result is balanced, holds the old keys plus the key, and is at most one level higher; when it grew it leans toward the key |
| `Avl.InsertLeftRebalances` | BSTAndAVLPerformance.java:129-143 | after inserting to the left, comparing the key with the left child's key selects a rotation that exists and repairs the node |
| `Avl.InsertRightRebalances` | BSTAndAVLPerformance.java:131-150 | mirror image of InsertLeftRebalances |
| `Avl.InsertRecOrdered` | BSTAndAVLPerformance.java:125-153 | inserting into an ordered balanced tree gives an ordered tree |
| `Avl.InsertLeftOrdered` | BSTAndAVLPerformance.java:129-130 | the left-descent case of InsertRecOrdered |
| `Avl.InsertRightOrdered` | BSTAndAVLPerformance.java:131-132 | the right-descent case of InsertRecOrdered |
| `Avl.InsertRecExisting` | BSTAndAVLPerformance.java:125-153 | inserting a key already present leaves an ordered balanced tree unchanged |
| `Avl.DeleteRec` | BSTAndAVLPerformance.java:160-194 | defined on every tree; removes no key it did not have and never grows the tree |
| `Avl.RebalanceDeleteRepairs` | BSTAndAVLPerformance.java:176-193 | on a node with balanced children whose heights differ by at most two, the balance step yields a balanced tree at most one level lower |
| `Avl.DeleteLeftRebalances` | BSTAndAVLPerformance.java:163-164 | after a left descent that lowered the left subtree by at most one, the node's balance step restores balance, lowering it by at most one |
| `Avl.DeleteRightRebalances` | BSTAndAVLPerformance.java:165-173 | the same after a right descent, including the successor-removal path |
| `Avl.DeleteRecBalanced` | BSTAndAVLPerformance.java:160-194 | deleting from a balanced tree gives a balanced tree at most one level lower |
| `Avl.DeleteRecOrdered` | BSTAndAVLPerformance.java:160-194 | deleting from an ordered tree gives an ordered tree holding the old keys minus the deleted key |
| `Avl.DeleteLeftOrdered` | BSTAndAVLPerformance.java:163-164 | the left-descent case of DeleteRecOrdered |
| `Avl.DeleteRightOrdered` | BSTAndAVLPerformance.java:165-166 | the right-descent case of DeleteRecOrdered |
| `Avl.DeleteSuccessorOrdered` | BSTAndAVLPerformance.java:171-173 | a two-child node replaced by its successor, followed by the successor's removal from the right subtree, stays ordered and loses only the deleted key |
| `Avl.DeleteRecAbsent` | BSTAndAVLPerformance.java:160-194 | deleting an absent key leaves a balanced tree unchanged |
| `Avl.DeleteUndoesInsertKeys` | BSTAndAVLPerformance.java:125-194 | inserting an absent key and then deleting it restores the key set |
| `Avl.BalancedHasMinNodes` | BSTAndAVLPerformance.java:96-104 | a balanced tree of height h has at least the minimum AVL node count for h |
| `Avl.MinNodesDoubles` | BSTAndAVLPerformance.java:96-99 | that minimum at least doubles every two levels |
| `Avl.HeightIsLogarithmic` | BSTAndAVLPerformance.java:93-104 | a balanced tree of n nodes has height at most about 2 log2(n + 1) |
| `Avl.AVLTree.constructor` | BSTAndAVLPerformance.java:19-21 | a new tree is empty |
| `Avl.AVLTree.Insert` | BSTAndAVLPerformance.java:121-123 | root becomes insertRec of the old root; the tree stays ordered and balanced, gains the key, and is unchanged on a duplicate |
| `Avl.AVLTree.Delete` | BSTAndAVLPerformance.java:156-158 | root becomes deleteRec of the old root; the tree stays ordered and balanced, loses exactly the key, and is unchanged when the key is absent |
| `Avl.AVLTree.FindMax` | BSTAndAVLPerformance.java:70-76 | the inherited findMax: the maximum key, or `Integer.MIN_VALUE` when empty |
| `Avl.AVLTree.TraverseInOrder` | BSTAndAVLPerformance.java:78-82 | the inherited traversal: all keys, each once, strictly ascending |

## Left out

- `BSTAndAVLPerformance.main` (lines 198-237) is benchmark plumbing: random keys, wall-clock timing and printing. It has no behaviour to state. Its bulk insert and bulk delete are repeated calls of `Insert` and `Delete`, whose contracts keep the invariants call after call.
- Running time is not modelled, including the O(height) recomputation of `height` at every balance check. `Height` is the recursive definition only.
- Heap identity and in-place updates of `TreeNode` fields (`node.left = …`, `node.key = …`, the pointer re-linking inside the rotations) are modelled as building new nodes. No node is ever reachable from two places, so no caller can observe the difference.
- `Avl.InsertRec` is defined only on AVL-balanced trees. On some unbalanced trees, which `AVLTree` never holds, the code at line 141 or 148 rotates a child that has no inner grandchild and throws `NullPointerException`. The model does not represent that exception.
- `Nodes.FindMin` requires a non-null node. `findMin(null)` would throw, and the code only calls it on a non-null right child.
- Java's 32-bit overflow of heights and balance factors is not modelled. Heights are `nat`, and no realistic tree comes near 2^31 levels.
- `Avl.HeightIsLogarithmic` proves a height bound of about 2·log2(n + 1) instead of the sharper 1.44·log2(n + 2) of the Fibonacci argument. The weaker bound suffices to show that descents are logarithmic.
