# AVL and red-black insertion, in Dafny

`Arvores.py` holds two ordered-key containers: an AVL tree (`AVLNode`,
`AVLTree`) and a red-black tree (`RBNode`, `RedBlackTree`). This project models
insertion and in-order traversal for both and proves that insertion does what
each structure promises.

- `sorted_seq.dfy` (module `SortedSeq`) gives tree-free reference definitions
  for insertion into a sorted sequence. `InsertUnique` drops a key that is
  already present, as the AVL tree does. `InsertAfterEqual` keeps duplicates
  and puts the new key after every equal key, as the red-black tree does.
- `avl.dfy` (module `Avl`) models the AVL tree. The tree is an immutable
  datatype with a cached `height` field. `Depth` is the real height, computed
  from the shape, and `HeightsCorrect` says every cached height equals it.
  `Insert` returns the new subtree root, as `insert(root, key)` does.
  Rebalancing (lines 69-87) is the helper `Rebalance`.
- `red_black.dfy` (module `RedBlack`) models the red-black tree. The source
  keeps parent back-links. Here they are a zipper: the focus subtree (`z`)
  plus the chain of its ancestors, with `path[0]` as `z.parent`.
  - Each `z = z.parent` step (lines 142, 145, 157 and 160) is `Up`: it rebuilds
    the parent node from `path[0]` with the focus hung back in its slot. Its
    partners are `DownLeft` and `DownRight`, whose contracts state that `Up`
    undoes them.
  - A rotation rotates the focused subtree, which the parent slot or the root
    reference then holds again.
  - `Descend` is the search loop of `_insert`.
  - `Step` is one iteration of the `_insert_fixup` loop.
    `RecolorUp`, `RotateLeftCase` and `RotateRightCase` are its branches.
    The source first asks which side of the grandparent the parent is on and
    then whether the uncle is red. Both sides recolour alike (lines 137-142
    and 152-157), so `Step` asks about the uncle first and leaves the side to
    `RotateCase`.
  - `FixUp` runs the loop and paints the root black.
- `red_black_order.dfy` (module `RedBlackOrder`) proves that the fix-up
  never moves a key. It also proves that insertion lands the key right after
  every key at most equal to it.
- `red_black_colors.dfy` (module `RedBlackColors`) defines the colour rules.
  These are: the root is black, no red node has a red child, and every path
  meets the same number of black nodes. The module proves that insertion
  keeps all three rules.

## Model

| member | source | states |
|---|---|---|
| Avl.InOrder | Arvores.py:89-95 | the traversal lists every node exactly once (its length is the node count `Size`), and a key appears in it exactly when some node stores it (`Holds`); it is the reference sequence of `InsertInOrder` and `InsertSearchTree` |
| Avl.NewNode | Arvores.py:5-10 | a fresh node is an AVL tree of height 1 holding exactly its key |
| Avl.Height | Arvores.py:16-19 | the cached height is 0 for the empty tree and equals the real height when heights are correct |
| Avl.BalanceFactor | Arvores.py:21-24 | left height minus right height, measured on the real shape; 0 for the empty tree |
| Avl.UpdateHeight | Arvores.py:26-28 | recomputing the root's height keeps the keys and children, and makes the node's height correct when the children's are |
| Avl.RotateRight | Arvores.py:30-40 | the left child is promoted to root with the old root as its right child; the in-order keys are unchanged; correct heights stay correct because the lower node is updated first |
| Avl.RotateLeft | Arvores.py:46-56 | mirror of RotateRight |
| Avl.RotateRightLeft | Arvores.py:30-56 | a left rotation undoes a right rotation on a tree with correct heights |
| Avl.RotateLeftRight | Arvores.py:30-56 | a right rotation undoes a left rotation |
| Avl.HeightRecurrence | Arvores.py:26-28 | in a tree with correct heights every cached height is 1 + the larger child height |
| Avl.Rebalance | Arvores.py:69-87 | whichever rotation the inserted key selects, the in-order keys are unchanged |
| Avl.SingleRightBalanced | Arvores.py:73-75 | a right rotation of a left-left heavy node gives an AVL tree two levels above the right subtree |
| Avl.SingleLeftBalanced | Arvores.py:80-82 | mirror of SingleRightBalanced |
| Avl.DoubleRightBalanced | Arvores.py:76-78 | the left-right double rotation of a left-right heavy node gives an AVL tree two levels above the right subtree |
| Avl.DoubleLeftBalanced | Arvores.py:83-85 | mirror of DoubleRightBalanced |
| Avl.InsertedLeft | Arvores.py:62-79 | after the key goes into the left subtree, the rotations it selects find their children present, and the level is again AVL and grew by at most one |
| Avl.InsertedRight | Arvores.py:64-87 | mirror of InsertedLeft |
| Avl.Insert | Arvores.py:58-87 | insertion into an AVL tree gives an AVL tree whose height is the old height or one more; if it grew, the root is unchanged and leans toward the side the key went |
| Avl.InsertUnfold | Arvores.py:62-67 | one level of insertion, seen through the in-order keys; an equal key returns the node itself |
| Avl.InsertInOrder | Arvores.py:58-95 | the in-order keys after insertion into a search tree are the old sorted keys with the key put in its place, or left out when already present |
| Avl.InsertSearchTree | Arvores.py:58-95 | the result is still strictly increasing in order; its multiset gains the key exactly when it was absent |
| Avl.InsertPresent | Arvores.py:62-67 | inserting a key already present returns the very same tree, cached heights included |
| RedBlack.AppendInOrder | Arvores.py:209-213 | the accumulating traversal appends exactly the in-order keys to the list it is given |
| RedBlack.InOrderTraversal | Arvores.py:204-207 | the traversal from an empty list is the in-order key sequence |
| RedBlack.Paint | Arvores.py:167 | recolouring a node keeps its keys and children |
| RedBlack.LeftRotate | Arvores.py:169-184 | the right child takes the node's place and the node becomes its left child; colours travel with their nodes; in-order keys unchanged |
| RedBlack.RightRotate | Arvores.py:186-201 | mirror of LeftRotate |
| RedBlack.DownLeft | Arvores.py:124-128 | a node hung as a left child has the node above it as its parent: going up again gives back the same position |
| RedBlack.DownRight | Arvores.py:124-130 | the same for a right child |
| RedBlack.Root | Arvores.py:105-107 | `self.root`, as set at lines 115, 126, 167, 177 and 194, is what the zipper describes once every ancestor is rebuilt; the whole tree's in-order keys are the ancestors' left contributions, the focus's keys, then the ancestors' right contributions |
| RedBlack.Descend | Arvores.py:113-123 | the search ends at an empty slot of the same tree, below the starting path; the slot's topmost ancestor is the old root |
| RedBlack.LeftRotateAt | Arvores.py:169-184 | the rotated subtree keeps the old parent slot, and the root when it had none; the old node is the left child of its old right child; the subtree that moved across now hangs from the old node |
| RedBlack.RightRotateAt | Arvores.py:186-201 | mirror of LeftRotateAt |
| RedBlack.RecolorUp | Arvores.py:137-142 | the red-uncle case, for a left parent here and for a right parent at lines 152-157 alike, moves `z` two levels up to the grandparent, now red |
| RedBlack.RecolorForRotation | Arvores.py:148-149 | the parent becomes black and the grandparent red; nothing else changes |
| RedBlack.RotateLeftCase | Arvores.py:143-150 | the rotation case leaves `z` one level below a black node that took the grandparent's place |
| RedBlack.RotateRightCase | Arvores.py:158-165 | mirror of RotateLeftCase |
| RedBlack.RotateCase | Arvores.py:143-165 | with a black uncle, the rotation on the parent's side leaves `z` one level below a black node and keeps every ancestor above the grandparent |
| RedBlack.Step | Arvores.py:135-165 | one loop iteration with a red parent keeps a node in focus and a black root, and moves `z` strictly up |
| RedBlack.FixUp | Arvores.py:134-167 | the fix-up terminates with a black root |
| RedBlack.Insert | Arvores.py:109-132 | insertion into a tree with a non-red root gives a tree with a black root |
| RedBlack.InsertIntoEmpty | Arvores.py:124-167 | the first key becomes the root (line 126) and is painted black (line 167) |
| RedBlack.InsertLargerSecond | Arvores.py:117-135 | a second key at least the root's goes right of it, red, and the loop does not run under a black parent |
| RedBlack.InsertRightRight | Arvores.py:152-165 | a third key at least both, below a red right child with no uncle, triggers one left rotation at the root: the middle key ends black over two red leaves |
| RedBlack.AscendingThree | Arvores.py:109-201 | inserting 10, 20, 30 gives 20 black with red children 10 and 30 |
| RedBlackOrder.RecolorUpKeepsOrder | Arvores.py:137-142 | the red-uncle recolouring and the climb to the grandparent move no key in the in-order sequence |
| RedBlackOrder.RecolorForRotationKeepsOrder | Arvores.py:148-149 | repainting parent and grandparent before the rotation moves no key |
| RedBlackOrder.RecolorKeepsOrder | Arvores.py:139-149 | recolouring moves no key in the in-order sequence |
| RedBlackOrder.MovesKeepOrder | Arvores.py:169-201 | moving along a parent link, or rotating at the focus, leaves the whole tree's in-order keys unchanged |
| RedBlackOrder.RotateLeftCaseKeepsOrder | Arvores.py:143-150 | the left rotation case moves no key |
| RedBlackOrder.RotateRightCaseKeepsOrder | Arvores.py:158-165 | the right rotation case moves no key |
| RedBlackOrder.StepKeepsOrder | Arvores.py:135-165 | one fix-up iteration moves no key |
| RedBlackOrder.FixUpKeepsOrder | Arvores.py:134-167 | the whole fix-up, root painting included, moves no key |
| RedBlackOrder.DescendSplits | Arvores.py:117-122 | descending through a sorted subtree keeps every key before the slot at most the new key, and the first key after the slot greater than it |
| RedBlackOrder.SlotSplits | Arvores.py:113-123 | the empty slot splits the tree's in-order keys into what lies before and after it |
| RedBlackOrder.InsertFrames | Arvores.py:109-132 | the new key appears exactly at the slot, between those two parts |
| RedBlackOrder.InsertInOrder | Arvores.py:113-130 | in a tree with non-decreasing in-order keys, the new key goes after every key at most equal to it; duplicates are kept |
| RedBlackOrder.InsertSorted | Arvores.py:109-132 | the in-order keys stay non-decreasing and gain exactly one occurrence of the key |
| RedBlackColors.RotateLeftCaseShape | Arvores.py:143-150 | the left rotation case is the textbook restructuring: after a left-left or left-right shape, the middle key is black over two red children |
| RedBlackColors.RotateRightCaseShape | Arvores.py:158-165 | mirror of RotateLeftCaseShape |
| RedBlackColors.PlugValid | Arvores.py:124-130 | a subtree that keeps the colour rules, hung under ancestors that keep them, gives a whole tree that keeps them |
| RedBlackColors.PaintBlack | Arvores.py:167 | painting the root black keeps "no red child of a red node" and adds one black node to every path if the root was red |
| RedBlackColors.RecolorValid | Arvores.py:137-142 | the red-uncle case moves the only violation two levels up, with one more black node on every path below `z` |
| RedBlackColors.RotateLeftCaseValid | Arvores.py:143-150 | the left rotation case repairs the violation: every rule holds and the loop stops |
| RedBlackColors.RotateRightCaseValid | Arvores.py:158-165 | mirror of RotateLeftCaseValid |
| RedBlackColors.FixUpValid | Arvores.py:134-167 | the fix-up turns a tree whose only fault is a red `z` under a red parent into a red-black tree |
| RedBlackColors.DescendPathOk | Arvores.py:113-123 | the search through a red-black tree ends at a slot whose ancestors keep the rules, at black height 0 |
| RedBlackColors.InsertValid | Arvores.py:109-167 | insertion keeps a red-black tree a red-black tree: black root, no red child of a red node, equal black count on every path |

## Left out

- `read_data_from_file`: file I/O and literal parsing.
- The module-level script and `fill_trees_with_file_data`: wall-clock timing and printing around repeated insertion.
- `random_operations`: it uses randomness and calls `delete` and `count_occurrences`, which the repository never defines.
- Deletion: neither tree has it.
- The AVL height bound (about 1.44 log2 n): it is a real-valued estimate, not computed by the code.
- Object identity and in-place mutation: the model rebuilds immutable values, and the red-black parent links are a zipper.
- Keys are `int`; the source compares any Python values with `<`.
- Avl.Insert: requires an AVL tree (correct cached heights, balance within one). Both double-rotation branches dereference a grandchild that exists only under that invariant, and `insert` is only ever applied to trees it built.
- RedBlack.Insert: requires a root that is not red. With a red root, the source can fail at line 136: when `z` is a child of the root, because the new key's slot is there or because the fix-up climbs to it, the grandparent it looks up does not exist. A red root does not always lead there, for instance when its children are black and the key lands deeper. Every tree `insert` builds has a black root (line 167), so the precondition excludes no tree the class can hold.
- Avl.Rebalance: its own contract states only that no key moves. The balance and height facts for each branch are in `Avl.InsertedLeft`, `Avl.InsertedRight` and the four rotation lemmas.
