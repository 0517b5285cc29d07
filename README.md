# AVL tree and leaf-depth checker

This project models two pieces of a C++ data-structures homework, `avlbst.h` and
`equal-paths.cpp`, in Dafny and proves properties of the model.

**The AVL layer of `avlbst.h`** (`AVLTree::insert`, `remove`, `nodeSwap`,
`rotateLeft`, `rotateRight`, `insertFix`, `removeFix` and the `AVLNode` balance
accessors) is modelled as the class `AvlTree.AVLTree<V>`.

- The class is an arena of node records, split by field into maps from a node
  index: `link` holds the parent, left and right pointers, and `key`, `value`
  and `balance` hold the rest. Alongside them are the `root` pointer and the
  next free index.
- A ghost field `shape` is the algebraic tree the links describe.
- `Wf` states that the links describe `shape` exactly:
  - every child points back to its parent;
  - the root has no parent;
  - every node occurs once;
  - every record has all of its fields.
- `Ordered` states that keys strictly increase along the in-order sequence.
- `Balanced` states the AVL invariant: each stored balance equals right height
  minus left height and lies in {-1, 0, 1}.
- `Contents` is the key/value map the tree holds.

Every source operation that rewrites pointers is a method that replaces these
maps. Its contract ties the new state to the old one. A method that works on
one node also takes a ghost zipper context (`Shapes.Ctx`). The context locates
the node's subtree inside `shape` and carries no run-time information.

- **Insert**: proved to keep the tree well linked and ordered, to update the
  contents by `k := v`, and to keep a balanced tree balanced.
- **Remove**: proved to keep the tree well linked and ordered, and to remove
  exactly `k` from the contents.
- **removeFix's single-rotation table**: after one rotation, `removeFix` sets
  the pivot's balance to minus the child's old balance, and the child's
  balance to 0 (`avlbst.h:452-453`, `488-489`). These are not the heights that
  result. The model keeps the code as written. The lemmas
  `RemoveSteps.RemoveFixRotateRightTable` and `RemoveFixRotateLeftTable`
  exhibit the mismatch. They prove that the pair the code stores never gives
  correct balances after that rotation, and that the textbook pair always does.
  `RemoveFixLeftSingle` and `RemoveFixRightSingle` carry this into the model:
  from correct subtrees they leave the tree unbalanced. The double rotation's
  table, by contrast, is right: `RemoveFixLeftDouble` and `RemoveFixRightDouble`
  leave the rotated subtree correct.
  Because of the single-rotation table, `Remove` states no balance property.
- **The wrong table also breaks later inserts.** The source behaves as follows:
  - Insert 3, 2, 4 and 1.
  - Remove 4. `removeFix(3, -1)` brings 3 to -2. The single rotation leaves 3 as a leaf that stores 1.
  - Insert 4. 3 is set to 2, and `insertFix` adjusts only 2.
  - Insert 5. `insertFix` sets 3 to 3, which no branch of `insertFix` handles (`avlbst.h:372-381`), so nothing rotates.
  - Root 2 ends with left height 1 and right height 3.

  `Insert` promises balance only from a balanced tree (`old(Balanced()) ==> Balanced()`), so this does not contradict its contract.

**`equal-paths.cpp`** (`getLeafHeight`, `checkEqualPaths`, `equalPaths`) is
modelled as pure functions over a plain binary tree (`LeafPaths`). The main
theorem is that `equalPaths` holds exactly when all leaves lie at one depth.

The base class `bst.h` is not part of this model. The primitives the AVL layer
takes from it are modelled from their use, with their own contracts:

- `internalFind`;
- `predecessor`, for a node with a left child;
- the base `nodeSwap`;
- `empty`;
- `setValue`.

Files:

| file | contents |
|---|---|
| `shapes.dfy` | algebraic trees, zipper contexts, in-order sequence, heights, rotations and renaming |
| `arena.dfy` | link records, the well-formedness invariant, balance correctness, sortedness and contents |
| `avl_rotate.dfy` | how a rotation's pointer rewrites relink the arena |
| `avl_balance.dfy` | the balance cases of `insertFix` |
| `avl_insert.dfy` | the descent and leaf attachment of `insert` |
| `avl_remove.dfy` | swap, unlink, contents and the `removeFix` tables of `remove`; `SwapLinks` is the definition of the base `nodeSwap` on the link records |
| `avl.dfy` | the class and its methods |
| `equal_paths.dfy` | the leaf-depth checker |

## Model

| member | source | states |
|---|---|---|
| AvlTree.AVLTree.constructor | avlbst.h:131 | `AVLTree` declares no constructor of its own; it inherits the base tree's, which starts with a null root. A new tree is empty, valid and balanced, and has no root. |
| AvlTree.AVLTree.Empty | avlbst.h:157 | `empty()` is true exactly when the tree has no nodes. |
| AvlTree.AVLTree.SetBalance | avlbst.h:79-83 | Only the node's balance changes, to the given value; links, keys and values stay. |
| AvlTree.AVLTree.UpdateBalance | avlbst.h:88-92 | The node's balance grows by `d`; nothing else changes. |
| AvlTree.AVLTree.SetValue | avlbst.h:171 | Only the node's value changes; shape, keys and balances stay. |
| AvlTree.AVLTree.RotateLeft | avlbst.h:262-287 | The subtree at `x` becomes `RotL` of itself: the right child is promoted and the root pointer follows. It is unchanged without a right child. The links stay consistent, the in-order sequence is kept, and keys, values and balances are untouched. |
| AvlTree.AVLTree.RotateRight | avlbst.h:289-313 | The mirror image of RotateLeft with `RotR`. |
| Shapes.RotLPreserves | avlbst.h:263-287 | A left rotation keeps the node set and in-order sequence and keeps nodes distinct. The new subtree root is the old right child, or the old root when there is none. |
| Shapes.RotRPreserves | avlbst.h:289-313 | The same for the right rotation and the left child. |
| Shapes.PlugRotInOrder | avlbst.h:263-313 | Rotating any subtree in place keeps the whole tree's in-order sequence. |
| AvlTree.AVLTree.InsertFix | avlbst.h:315-416 | The links stay consistent with the new shape (`Wf`), and the in-order sequence and keys are kept. Entered with the parent leaning towards a subtree that just grew by one level, it leaves every balance correct. |
| InsertBalance.GrowLeft | avlbst.h:323-335 | After the grandparent's -1, its balance lies in {-2, -1, 0}; at -2 its right side is two levels shorter. |
| InsertBalance.GrowLeftStop | avlbst.h:326-327 | A balance of 0 after the -1 leaves the whole tree correct. |
| InsertBalance.GrowLeftUp | avlbst.h:329-333 | A balance of -1 after the -1 puts the grandparent in the same "just grew" state, one level up. |
| InsertBalance.GrowRight | avlbst.h:370-381 | The mirror image of GrowLeft: the balance lies in {0, 1, 2}. |
| InsertBalance.GrowRightStop | avlbst.h:372-373 | The mirror image of GrowLeftStop. |
| InsertBalance.GrowRightUp | avlbst.h:375-379 | The mirror image of GrowLeftUp. |
| AvlTree.AVLTree.RebalanceLeft | avlbst.h:335-367 | The -2 case of insertFix keeps the links consistent (`Wf`) and the in-order sequence; when entered in the grown state, it restores every balance. |
| AvlTree.AVLTree.RebalanceRight | avlbst.h:381-414 | The +2 case of insertFix keeps the links consistent (`Wf`) and the in-order sequence; when entered in the grown state, it restores every balance. |
| InsertBalance.ZigZigLeft | avlbst.h:337-343 | The right rotation at the grandparent, with parent and grandparent set to 0, makes the whole tree correct. |
| InsertBalance.ZigZigRight | avlbst.h:383-389 | The left rotation at the grandparent, with both set to 0, makes the whole tree correct. |
| InsertBalance.ZigZagLeftTable | avlbst.h:349-365 | The table keyed on the node's old balance gives exactly the height differences at parent and grandparent after the double rotation. |
| InsertBalance.ZigZagRightTable | avlbst.h:395-412 | The mirror table gives exactly the height differences after the double rotation. |
| InsertBalance.ZigZagLeft | avlbst.h:344-366 | The left-then-right double rotation with the table's balances, and the node at 0, makes the whole tree correct. |
| InsertBalance.ZigZagRight | avlbst.h:390-413 | The right-then-left double rotation with the table's balances, and the node at 0, makes the whole tree correct. |
| AvlTree.AVLTree.Insert | avlbst.h:153-206 | The tree stays valid and its contents become old contents with `k := v`. A balanced tree stays balanced. An existing key leaves shape, links, keys and balances alone. An empty tree gets a single parentless root with key `k` and balance 0. |
| AvlTree.AVLTree.AttachLeaf | avlbst.h:185-205 | Attaching a new leaf under the last node of the descent keeps the tree valid, adds `k := v` to the contents, and keeps balance. |
| InsertSteps.DescendLeft | avlbst.h:175-178 | Going left at a larger key keeps every key after the hole above `k`. |
| InsertSteps.DescendRight | avlbst.h:179-182 | Going right at a smaller key keeps every key before the hole below `k`. |
| InsertSteps.HoleSide | avlbst.h:190-199 | Where the descent ends, the new key is smaller than the parent's key exactly when the hole is the parent's left slot. |
| InsertSteps.ItemsAbsentAtHole | avlbst.h:167-183 | A descent that reaches null proves the key absent from the contents. |
| InsertSteps.SetValueContents | avlbst.h:169-172 | Overwriting the value of the node with the key updates only that key's entry in the contents. |
| InsertSteps.NewRoot | avlbst.h:157-160 | A fresh root in an empty tree is well formed, ordered and balanced, and holds exactly `k := v`. |
| InsertSteps.AddLeafWf | avlbst.h:186-199 | Linking the new leaf under its parent, with balance 0, keeps the arena well formed. |
| InsertSteps.AddLeafSorted | avlbst.h:186-199 | The new leaf keeps the in-order keys strictly increasing. |
| InsertSteps.AddLeafItems | avlbst.h:186-199 | The new leaf adds exactly `k := v` to the contents. |
| InsertSteps.LeafLeft | avlbst.h:190-205 | After a left leaf and the parent's -1: at 0 the tree is correct; otherwise the parent is in the "just grew" state insertFix expects. |
| InsertSteps.LeafRight | avlbst.h:195-205 | The mirror image for a right leaf and +1. |
| AvlTree.AVLTree.InternalFind | avlbst.h:215 | It yields a node exactly when the key is in the contents, and then the node carries that key. |
| AvlTree.AVLTree.Predecessor | avlbst.h:220 | For a node with a left child, it yields the last node of the left subtree in order, which has no right child. |
| RemoveSteps.SwapLinksInvolution | avlbst.h:256 | Swapping the same two nodes twice restores every link record: the base swap is its own inverse. |
| RemoveSteps.LinkedSwap | avlbst.h:256 | The swapped links describe the tree with the two nodes renamed into each other's places. |
| RemoveSteps.SwapWf | avlbst.h:256 | The base swap keeps the arena well formed, with the root pointer renamed. |
| AvlTree.AVLTree.BaseNodeSwap | avlbst.h:256 | Two nodes trade places in the tree; each keeps its key, value and balance. |
| RemoveSteps.SwapBalOK | avlbst.h:257-259 | Exchanging the two balances along with the positions keeps a correct tree correct. |
| AvlTree.AVLTree.NodeSwap | avlbst.h:253-260 | The base swap plus the balance exchange: shape renamed, balances swapped, and a balanced tree stays balanced. |
| RemoveSteps.SwapInOrder | avlbst.h:219-222 | Swapping a node with its in-order predecessor exchanges just those two entries of the in-order sequence. |
| AvlTree.AVLTree.Remove | avlbst.h:212-251 | The tree stays valid and its contents lose exactly `k`. An absent key leaves the whole state alone: shape, links, root, keys, values, balances and the next index. |
| RemoveSteps.RemoveContents | avlbst.h:224-250 | Dropping a node from a sorted in-order sequence keeps it sorted and removes exactly that node's key from the contents. |
| AvlTree.AVLTree.Detach | avlbst.h:224-250 | The node with at most one child is spliced out: the order of the rest is kept and its record is gone. |
| AvlTree.AVLTree.Unlink | avlbst.h:225-245 | The node's only child, or null, takes its place: the new shape is the old one with the node's subtree replaced by that child's subtree, the root pointer moves to the child exactly when the node was the root, and the node's records are gone. It returns the node's parent and the side the node hung on (1 left, -1 right, 0 root). |
| RemoveSteps.UnlinkWf | avlbst.h:236-245 | The child takes the node's place under its parent, or as root; the result is well formed without the node. |
| RemoveSteps.UnlinkLinkedParts | avlbst.h:236-245 | After splicing, the context above links down to the child and the child links up to the old parent. |
| RemoveSteps.UnlinkIds | avlbst.h:224-250 | The tree after splicing has the old nodes minus the removed one, still distinct. |
| RemoveSteps.UnlinkInOrder | avlbst.h:224-245 | Splicing out the node removes exactly that node from the in-order sequence. |
| AvlTree.AVLTree.RemoveFix | avlbst.h:418-517 | The walk up keeps the links consistent with the new shape (`Wf`), the in-order sequence and the keys. A null node changes nothing (line 421). When the updated balance is -1 or 1 the walk stops there: shape, links and root are untouched and the only balance written is the node's, to its old value plus `diff` (lines 429-441). In the ±2 cases it continues at the parent exactly when `RemoveFixLeft`/`RemoveFixRight` rotated. |
| AvlTree.AVLTree.RemoveFixLeft | avlbst.h:445-480 | The -2 case: with the left child at 0 or below it performs the single right rotation (`t == RotR(s)`) and writes minus the child's balance and 0; with the child at 1 and a grandchild present it performs the double rotation and writes the three-row table. It rotates exactly in those two cases; otherwise (missing child or grandchild) nothing changes. Links stay consistent with the new shape, the in-order sequence and the keys are kept. |
| AvlTree.AVLTree.RemoveFixRight | avlbst.h:481-516 | The mirror image for +2: single left rotation when the right child is at 0 or above, double rotation with the mirror table when it is at -1 and a grandchild is present, no change otherwise. |
| AvlTree.AVLTree.RemoveFixLeftSingle | avlbst.h:449-453 | The subtree becomes `RotR` of itself. Only two balances change: the node gets minus the child's old balance and the child gets 0. When the subtrees were correct, the left one two levels taller and the child at -1 or 0, the tree is left unbalanced. |
| AvlTree.AVLTree.RemoveFixRightSingle | avlbst.h:485-489 | The mirror image with `RotL`; with the child at 0 or 1 the tree is left unbalanced. |
| AvlTree.AVLTree.RemoveFixLeftDouble | avlbst.h:457-477 | The subtree becomes the left-then-right double rotation of itself. Keyed on the grandchild's old balance -1, 0 or other, the node and child get 1 and 0, 0 and 0, or 0 and -1, and the grandchild gets 0; no other balance changes. When the subtrees were correct, the left one two levels taller and the child at 1, the rotated subtree is correct. |
| AvlTree.AVLTree.RemoveFixRightDouble | avlbst.h:493-513 | The mirror image: right-then-left, with -1 and 0, 0 and 0, or 0 and 1 keyed on the grandchild's old balance 1, 0 or other; with the child at -1 the rotated subtree is correct. |
| AvlTree.AVLTree.RemoveFixLeftDoubleTable | avlbst.h:462-477 | The three rows of the -2 table and the grandchild's 0 are the only balance writes; links, shape and keys stay. |
| AvlTree.AVLTree.RemoveFixRightDoubleTable | avlbst.h:498-513 | The three rows of the +2 table and the grandchild's 0 are the only balance writes; links, shape and keys stay. |
| RemoveSteps.RemoveFixRotateRightTable | avlbst.h:449-454 | After the right rotation, with the left child at -1 or 0, correct balances are `-1-cb` for the node and `1+cb` for the child. The code's pair, `-cb` and 0, is never correct. |
| RemoveSteps.RemoveFixRotateLeftTable | avlbst.h:485-490 | After the left rotation, with the right child at 0 or 1, correct balances are `1-cb` and `cb-1`. The code's `-cb` and 0 is never correct. |
| RemoveSteps.RemoveFixLeftSingleBal | avlbst.h:449-453 | With the code's pair stored, the whole tree around the rotated subtree is not balanced. |
| RemoveSteps.RemoveFixRightSingleBal | avlbst.h:485-489 | The mirror image for the left rotation. |
| RemoveSteps.RemoveFixDoubleRightTable | avlbst.h:459-477 | After the left-then-right double rotation, the table's pair for node and child, with the grandchild at 0, gives every node of the rotated subtree its true height difference. |
| RemoveSteps.RemoveFixDoubleLeftTable | avlbst.h:495-513 | The mirror image for the right-then-left double rotation. |
| RemoveSteps.RemoveFixLeftDoubleBal | avlbst.h:457-477 | Each row of the -2 table, applied to the subtree as it stood before the rotations, leaves the rotated subtree correct. |
| RemoveSteps.RemoveFixRightDoubleBal | avlbst.h:493-513 | Each row of the +2 table leaves the rotated subtree correct. |
| LeafPaths.LeafHeight | equal-paths.cpp:13-32 | `getLeafHeight` never exceeds the tree height, and yields 0 on a node only when it has two children. |
| LeafPaths.CheckEqualPathsMeaning | equal-paths.cpp:35-48 | `checkEqualPaths` holds exactly when every leaf below sits at the target depth. |
| LeafPaths.LeafHeightUniform | equal-paths.cpp:13-32 | When all leaves sit at depth `d`, `getLeafHeight` reports exactly that depth. |
| LeafPaths.EqualPathsCorrect | equal-paths.cpp:50-61 | `equalPaths` is true exactly when all leaves share one depth, the empty tree included. |
| LeafPaths.EqualPathsExamples | equal-paths.cpp:50-61 | A single node, a root with one child and the empty tree are accepted; leaves at depths 2 and 3 are rejected. |

## Left out

- Memory management: `new` and `delete` and the empty destructor. Allocation takes the next arena index, and release drops a node's records.
- AvlTree.AVLTree.Detach: releases the removed node's record before `removeFix` runs, not after as the source does. `removeFix` never reaches that node, so nothing observable differs.
- The `static_cast` getter overrides: they carry no logic. `getBalance` is a direct read of the `balance` map.
- Keys are `int` and compared by `<`; the key type of the template is not modelled generically. Values are generic.
- Balances are unbounded integers rather than `int8_t`, so 8-bit wrap-around is not modelled. After a remove, stored balances can leave [-2, 2] (see the sequence above). They would wrap only past 127, which takes that many uncorrected fix-up passes through one node.
- `bst.h` is not part of this model. `internalFind`, `predecessor`, the base `nodeSwap`, `empty` and `setValue` are modelled from how the AVL layer uses them. Its iterators, printing, base insert/remove and `clear` are not modelled.
- AvlTree.AVLTree.Predecessor: modelled only for a node with a left child, the only way `remove` calls it. The general case climbs through parents.
- AvlTree.AVLTree.RemoveFix: beyond the null and ±1 cases, its contract is structural only (links, order, keys), because the single-rotation balance table does not restore correct balances. That the 0 case and every rotation case continue at the parent is in the body (lines 432-436, 454, 478, 490, 514) but is not stated in an `ensures`; which rotation the ±2 cases perform, and its effects, are stated by `RemoveFixLeft`, `RemoveFixRight` and the methods they call.
- AvlTree.AVLTree.Remove: states no balance property, for the same reason.
- AvlTree.AVLTree.RemoveFixLeft and RemoveFixRight: when the stored balance is ±2 but the child or grandchild that the rotation needs is missing, the source dereferences null. These methods change nothing and report no rotation, and `RemoveFix` ends the walk there. This can happen once the table above has stored wrong balances.
- The ghost context parameters (`Ctx`, `Tree`) of the methods are proof-only and have no counterpart in the source.
- `AttachLeaf`, `RebalanceLeft`/`RebalanceRight`, `Detach`, `Unlink`, `RemoveFixLeft`/`RemoveFixRight` with their `Single`, `Double` and `DoubleTable` parts are parts of `insert`, `insertFix`, `remove` and `removeFix` split into methods of their own. They perform the same steps in the same order.
- The logarithmic height bound of AVL trees is not stated. The code's contracts do not depend on it.
- The node payload of `equal-paths.cpp` trees is not modelled, because the checker never reads it.
