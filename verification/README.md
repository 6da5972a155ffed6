# B-tree with three mutation paths

This project models `BTree.java`, a B-tree of comparable keys whose nodes hold
between `minKeySize` and `maxKeySize = 2 * minKeySize + 1` keys (the root may
hold fewer). The class offers three ways to change the tree:

- a single-pass, top-down insertion (`insert`, `insertNonFull`,
  `splitChild`) after section 18.2 of Cormen et al., *Introduction to
  Algorithms*, and its two-pass variant (`insert2pass`, which splits a full
  leaf and its run of full ancestors only when the key reaches it);
- a top-down deletion that repairs every child before entering it
  (`delete`: predecessor or successor swap, `shift_from_left` /
  `shift_from_right`, `merge_left` / `merge_right`);
- a bottom-up pair: `add`, which splits an overflowing node around its
  median and cascades upward, and `remove`, which replaces an internal key by
  the greatest key below it and mends a short node with `combined` (borrow
  right, borrow left, merge right, merge left).

It also models the search behind `contains` (`getNode`), the structural check
`validate`, `size` and `clear`, and the node primitives (`addKey`,
`removeKey`, `indexOf`, `get_closest_child_to_target`, `getChild`,
`addChild`).

A node is the immutable `Nodes.Node(keys: seq<int>, children: seq<Node>)`,
and keys are `int`. `Nodes.InOrder` is the in-order key sequence of a
subtree. `Nodes.Shape(n, t, h, lo)` says that `n` is a B-tree node of height
`h` with minimum key count `t` (`minKeySize`):

- it holds between `lo` and `2t + 1` keys;
- it is a leaf exactly at height 0;
- an internal node has one child more than it has keys, and each child is a
  node of height `h - 1` with at least `t` keys.

The tree object `Trees.BTree` is an optional root, the `size` counter and
`t`. `Trees.Valid` ties the counter to the number of stored keys.

Every operation is a pure function over these values. Its partners are:

- a shape lemma: the result is again a B-tree, with the height change the
  algorithm allows;
- a content lemma: the in-order sequence gains or loses exactly the key, in
  sorted position;
- where the code does a step its own way (appending and then sorting,
  finding a separator by value), a lemma proving that step equal to a
  reference definition: positional insertion, a rotation, a merge.

The insertion paths accept duplicate keys, as the code does. Their contents
are stated over sequences sorted non-strictly, for split halves placed at the
split child's position. With repeated keys the code can place a half
elsewhere and leave the tree out of order (see "Findings"). Deletion and
removal are proved for distinct keys (see "Left out").

Source files are cited relative to the repository root.

## Model

| member | source | states |
|---|---|---|
| Trees.New | BTree.java:7-33 | The constructor of order `order` gives minimum key count `order - 1` and room for `2 * order - 1` keys per node; the new tree is empty and valid. |
| Seqs.AddKey | BTree.java:1024-1027 | `addKey` adds exactly one copy of the value: one key more, same multiset plus the value. |
| Seqs.AddKeyOrdered | BTree.java:1024-1027 | Sorted insertion keeps a sorted key list sorted, strictly when the value was absent. |
| Seqs.AddKeyPosition | BTree.java:1024-1027 | Append-then-sort on a sorted list equals inserting the value just after every key not above it. |
| Seqs.RemoveKey | BTree.java:1029-1047 | `removeKey(value)` leaves the list unchanged when the value is absent and otherwise removes exactly one key. |
| Seqs.RemoveKeyContent | BTree.java:1029-1047 | Removal by value takes exactly one copy of the value out of the key multiset. |
| Seqs.AddThenRemoveKey | BTree.java:1024-1047 | On a sorted list, removing a just-added value gives back the original list. |
| Seqs.RemoveThenAddKey | BTree.java:1024-1047 | On a sorted list holding the value, adding back a just-removed value gives back the original list. |
| Seqs.RemoveKeyAt | BTree.java:1049-1060 | `removeKey(index)` removes one key for an index in range and changes nothing past the end. |
| Seqs.RemoveKeyAtContent | BTree.java:1049-1060 | Removal by index takes exactly the key at that index out of the multiset. |
| Seqs.IndexOf | BTree.java:1017-1022 | `indexOf` gives -1 exactly when the value is absent, and otherwise the position of its first occurrence. |
| Seqs.IndexOfFirst | BTree.java:1017-1022 | Any position holding the value with no earlier occurrence is the one `indexOf` returns. |
| Seqs.ClosestChild | BTree.java:1104-1111 | `get_closest_child_to_target` returns the first index whose key is strictly above the target, every earlier key being at most the target. |
| Seqs.ClosestChildAt | BTree.java:1104-1111 | Any index with all keys before it at most the target and the key at it above the target is the one returned. |
| Seqs.LowerBound | BTree.java:84-86 | The backward routing scan stops after the last key below the value: every key from there on is not below it. |
| Seqs.LowerBoundOrdered | BTree.java:84-86 | On sorted keys every key before the routing index is strictly below the value, so equal keys send the value left. |
| ChildSort.SortSorted | BTree.java:1113-1120 | `addChild` sorts the child list stably by first key; a list already in that order is left as it is. |
| Delete.Take | BTree.java:1089-1093 | Reading the children at positions below `k` yields them in order: the first `k`, or all of them when `k` runs past the end, as `getChild` gives null there. |
| Search.ScanOrdered | BTree.java:695-712 | On sorted keys spanning the value, the key scan hits exactly when the value is a key, and otherwise descends into the child left of the first larger key. |
| Search.WhereOrdered | BTree.java:672-715 | At a sorted node the search stops there exactly when the value is a key, goes into the closest child otherwise, and ends at a leaf without the value. |
| Search.ContainsIff | BTree.java:660-715 | In a B-tree with sorted in-order keys, `contains` holds exactly when the value is stored. |
| Insert.SplitChild | BTree.java:100-142 | Splitting a full child gives it and its new sibling `t` keys each; the parent gains one key, the child's middle key, at the child's index, and one child. |
| Insert.SplitChildInOrder | BTree.java:100-142 | The corrected `splitChild`, which puts the new right half just after the split child, leaves the in-order key sequence of the parent unchanged. |
| Insert.SplitChildShape | BTree.java:100-142 | Splitting a full child of a non-full B-tree node gives a B-tree node of the same height. |
| Insert.InsertNonFullShape | BTree.java:65-98 | `insertNonFull` on a node with room keeps it a B-tree node with the same bounds: a full child is split before it is entered, so no leaf overflows. |
| Insert.InsertNonFullContent | BTree.java:65-98 | `insertNonFull` adds the key to the subtree's sorted key sequence at its sorted position. |
| Insert.GrowRootShape | BTree.java:47-53 | A full root under a new empty root, split, is a B-tree one level higher. |
| Insert.GrowRootContent | BTree.java:47-53 | Growing the root changes no key or its order. |
| Insert.InsertRootShape | BTree.java:36-63 | `insert` keeps the root a valid B-tree root and raises the height by one exactly when the root was full. |
| Insert.InsertRootContent | BTree.java:36-63 | `insert` adds the key to the tree's sorted key sequence at its sorted position. |
| Insert2Pass.Leaf2Content | BTree.java:373-392 | A leaf, split first when full, takes the key in sorted position across its halves and the median. |
| Insert2Pass.Absorb2Content | BTree.java:407-470 | A parent taking in its child's insertion outcome, split first when full, adds the key to its sorted sequence. |
| Insert2Pass.Insert2Shape | BTree.java:373-425 | Two-pass insertion below a B-tree node gives a node of the same height, or two halves of it and a median, and only a full node splits. |
| Insert2Pass.Insert2Content | BTree.java:373-425 | Two-pass insertion adds the key at its sorted position, whether or not the node split. |
| Insert2Pass.Insert2RootShape | BTree.java:354-425 | `insert2pass` keeps a valid root; the height grows by exactly one when the root split and stays the same otherwise. |
| Insert2Pass.Insert2RootContent | BTree.java:354-371 | `insert2pass` adds the key to the tree's sorted key sequence at its sorted position. |
| Add.AddRouteLowerBound | BTree.java:495-518 | `add` descends on sorted keys into the same child the top-down insertion routes to. |
| Add.OverflowHalves | BTree.java:533-559 | An overflowing node splits at median index `numberOfKeys / 2`: the keys below go left, the keys above go right and the median goes up. |
| Add.OverflowInOrder | BTree.java:533-559 | A median split keeps every key and its order. |
| Add.AddRecShape | BTree.java:475-580 | Bottom-up insertion below a B-tree node gives a node of the same height, or two halves and a median, with the split cascading while the parent overflows. |
| Add.AddRecContent | BTree.java:475-580 | Bottom-up insertion adds the key at its sorted position. |
| Add.AddRootShape | BTree.java:475-580 | `add` keeps a valid root; the height grows by one exactly when the split reached the root. |
| Add.AddRootContent | BTree.java:475-525 | `add` adds the key to the tree's sorted key sequence at its sorted position. |
| Grow.NewRootShape | BTree.java:561-569 | A split that reaches the root yields a new one-key root over the two halves, a valid root one level higher. |
| Delete.FixShape | BTree.java:232-351 | `fix_node_size_delete` either leaves the parent with the entered child holding more than `t` keys, or collapses a one-key root into the merged child. |
| DeleteContent.FixContent | BTree.java:232-351 | Borrowing or merging before the descent keeps the parent's in-order sequence, and the value still lies between the separators around the entered child. |
| DeleteContent.ShiftFromLeftRotates | BTree.java:341-351 | `shift_from_left` on sorted siblings is a right rotation through the parent. |
| DeleteContent.ShiftFromRightRotates | BTree.java:319-329 | `shift_from_right` on sorted siblings is a left rotation through the parent. |
| DeleteContent.MergeLeftMerges | BTree.java:251-287 | `merge_left` of two equal-sized siblings is the merge of them with their separator. |
| DeleteContent.MergeRightInOrder | BTree.java:251-294 | The corrected `merge_right` keeps the parent's in-order sequence. |
| DeleteContent.MergeRightAgrees | BTree.java:276-294 | On strictly sorted parent keys, `merge_right` as written equals the corrected one. |
| DeleteContent.GreatestContent | BTree.java:194-204 | The greatest key of a subtree is the last of its in-order sequence, and putting a larger value in its place reads as that sequence with the value as its last element (the shape is stated by `Delete.PutGreatest`). |
| DeleteContent.LeastContent | BTree.java:219-229 | The least key of a subtree is the first of its in-order sequence, and putting a smaller value in its place reads as that sequence with the value as its first element (the shape is stated by `Delete.PutLeast`). |
| Delete.PutGreatest | BTree.java:181-192 | Putting a value in place of the greatest key below a node, as the predecessor swap does, leaves a B-tree node of the same height with as many keys at its top as before. |
| Delete.PutLeast | BTree.java:206-217 | Putting a value in place of the least key below a node, as the successor swap does, leaves a B-tree node of the same height with as many keys at its top as before. |
| DeleteContent.PredSwapFacts | BTree.java:181-204 | The predecessor swap exchanges the value with the last key of the left child's subtree; that subtree now ends with the value. |
| DeleteContent.SuccSwapFacts | BTree.java:206-229 | The successor swap exchanges the value with the first key of the right child's subtree; that subtree now starts with the value. |
| DeleteContent.DelContent | BTree.java:144-179 | The `delete` loop removes the value once from the sorted sequence and reports it found exactly when it was present. |
| DeleteShape.DelShape | BTree.java:144-179 | The `delete` loop keeps a B-tree node of the same height, or leaves the collapsed child one level lower. |
| DeleteRoot.DeleteAtShape | BTree.java:144-287 | `delete` keeps a valid root; the height drops by one only when a one-key root was merged away. |
| DeleteRoot.DeleteAtContent | BTree.java:144-179 | `delete` removes the value once and reports it found exactly when it was stored. |
| Remove.PreviousIndex | BTree.java:857-864 | `getIndexOfPreviousValue` returns the index before the first key, from position 1 on, that is not below the value, or the last index. |
| Remove.NextIndex | BTree.java:875-882 | `getIndexOfNextValue` returns the index of the first key not below the value, or the last index. |
| Remove.Plan | BTree.java:748-846 | `combined` borrows from the right when that sibling has more than `t` keys, else from the left, else merges right, else merges left; it does nothing only when the parent has no key. |
| Remove.MendTakesRight | BTree.java:762-772 | A short child with a rich right sibling borrows from it through the separator `combined` finds. |
| Remove.MendTakesLeft | BTree.java:781-791 | A short child with a rich left sibling and no rich right one borrows from the left. |
| Remove.MendJoinsRight | BTree.java:792-816 | A short child with no rich sibling and a right sibling merges with it. |
| Remove.MendJoinsLeft | BTree.java:817-841 | A short last child with no rich sibling merges with its left sibling. |
| RemoveContent.SeparatorOnRight | BTree.java:857-864 | Searched from the right sibling's first key, the separator found is the one between the child and that sibling. |
| RemoveContent.SeparatorOnLeft | BTree.java:875-882 | Searched from the left sibling's last key, the separator found is the one between that sibling and the child. |
| RemoveContent.BorrowRightContent | BTree.java:762-772 | Borrowing from the right sibling keeps the parent's in-order sequence. |
| RemoveContent.BorrowLeftContent | BTree.java:781-791 | Borrowing from the left sibling keeps the parent's in-order sequence. |
| RemoveContent.CombineRightContent | BTree.java:792-816 | Merging with the right sibling keeps the parent's in-order sequence. |
| RemoveContent.CombineLeftContent | BTree.java:817-841 | Merging with the left sibling keeps the parent's in-order sequence. |
| RemoveContent.MendContent | BTree.java:748-846 | Mending a short child keeps the parent's in-order sequence. |
| RemoveShape.MendShape | BTree.java:748-846 | Mending a child one key short gives a B-tree node that may itself be one key short. |
| RemoveContent.RemoveGreatestContent | BTree.java:641-730 | `getGreatestNode` and `removeGreatestValue` take exactly the last key off the subtree's sequence. |
| RemoveShape.RemoveGreatestShape | BTree.java:641-730 | Removing the greatest key with mending leaves a B-tree node with at most one key fewer than required. |
| RemoveContent.ReplaceContent | BTree.java:616-627 | Replacing an internal key by the greatest key below it removes exactly that key from the sequence. |
| RemoveShape.ReplaceShape | BTree.java:616-627 | Replacing an internal key keeps the node's height and at most one key short. |
| RemoveContent.RemoveInContent | BTree.java:601-632 | `remove` along the search path removes the value once from the sorted sequence. |
| RemoveShape.RemoveInShape | BTree.java:601-632 | `remove` along the search path keeps the height, leaving the node at most one key short. |
| RemoveContent.RemoveRootContent | BTree.java:585-632 | An absent value leaves the root as it was; otherwise the value is removed once, and the tree empties exactly when it was the only key. |
| RemoveShape.RemoveRootShape | BTree.java:601-846 | `remove` keeps a valid root; the height drops by one only when a one-key root was merged away; the tree empties only from a one-key leaf root. |
| Validate.ValidateTree | BTree.java:894-897 | `validate` accepts the empty tree; an accepted root has sorted keys within the maximum. |
| Validate.ValidateNode | BTree.java:906-980 | `validateNode` rejects unsorted keys, a key count out of range, a root with one child, a non-root with the wrong child count or too many children. |
| Validate.ValidTreeIff | BTree.java:906-980 | The corrected check with separator bounds and leaf depth accepts exactly the B-trees with sorted in-order keys. |
| Validate.ValidateAccepts | BTree.java:894-980 | `validate` as written accepts every B-tree with sorted in-order keys. |
| Validate.ValidateThrowsKeyless | BTree.java:951-955 | A keyless root with children makes `validate` read a missing key, an exception rather than an answer. |
| Trees.InsertValue | BTree.java:36-63 | `insert` raises `size` by one and leaves a root. |
| Trees.Insert2PassValue | BTree.java:354-371 | `insert2pass` raises `size` by one and leaves a root. |
| Trees.AddValue | BTree.java:475-525 | `add` raises `size` by one and leaves a root. |
| Trees.DeleteValue | BTree.java:144-179 | `delete` lowers `size` by one exactly when it returns the value, and leaves it unchanged otherwise. |
| Trees.RemoveValue | BTree.java:585-632 | `remove` that finds nothing returns null and leaves the tree and `size` unchanged; a removal lowers `size` by one. |
| Trees.Clear | BTree.java:652-655 | `clear` leaves an empty, valid tree of size 0. |
| Trees.HasIff | BTree.java:660-663 | `contains` on a valid tree holds exactly when the value is stored. |
| Trees.InsertValid | BTree.java:36-63 | After `insert` the tree is valid and sorted, holds the value in sorted position, counts it, and `contains` finds it. |
| Trees.Insert2PassValid | BTree.java:354-371 | After `insert2pass` the tree is valid and sorted, holds the value in sorted position, counts it, and `contains` finds it. |
| Trees.AddValid | BTree.java:475-525 | After `add` the tree is valid and sorted, holds the value in sorted position, counts it, and `contains` finds it. |
| Trees.DeleteValid | BTree.java:144-179 | After `delete` the tree is valid, the value is removed once, and it is returned exactly when it was stored. |
| Trees.RemoveValid | BTree.java:585-632 | After `remove` the tree is valid, the value is removed once, it is returned exactly when it was stored, and the tree is empty exactly when it held only that value. |
| Trees.ValidatesValid | BTree.java:894-897 | `validate` accepts every valid tree with sorted keys whose root has no parent link, the empty tree included. |
| ChildSort.SplitChildAsWritten | BTree.java:100-142 | `splitChild` as written places the new half by a stable sort on first keys; it gains one key and one child. |
| ChildSort.SplitChildTie | BTree.java:132 | With `t = 2`, splitting the leaf 5, 5, 5, 5, 7 under a new root as written gives the in-order sequence 5, 7, 5, 5, 5, which is not sorted. |
| ChildSort.SplitChildAgrees | BTree.java:123-132 | When the halves' first keys differ and the children end up sorted by first key, the code's split equals the positional one. |
| DeleteContent.MergeRightLosesKey | BTree.java:276-294 | With two equal separators, `merge_right` as written removes the separator twice, so the parent keeps no key for three children. |
| Validate.ValidateMissesDisorder | BTree.java:951-970 | `validate` accepts a well-shaped tree whose in-order sequence is not sorted. |
| Validate.ValidateMissesDepth | BTree.java:906-980 | `validate` accepts a tree whose leaves lie at different depths. |
| AddAsWritten.OverflowAsWritten | BTree.java:533-560 | `split` as written cuts an overfull node around key `numberOfKeys / 2`: the left half keeps that many keys, the halves together keep all but the median, and an internal node's halves each get one child more than keys. |
| AddAsWritten.AbsorbAsWritten | BTree.java:570-576 | `split`'s parent branch as written takes in the median and replaces the split child by two halves: one key and one child more. |
| AddAsWritten.NewRootAsWritten | BTree.java:561-569 | A split root gets a new root holding only the median, above the two halves. |
| AddAsWritten.AddRecAsWritten | BTree.java:475-580 | `add` below a node as written: a node handed back whole never holds more than the maximum key count. |
| AddAsWritten.AddRootAsWritten | BTree.java:475-525 | `add` at a root as written leaves a root with at least one key. |
| AddAsWritten.TieReachedSplit | BTree.java:561-569 | With order 2, adding 5 to the root leaf 5, 5, 5 splits it under a new root 5 with the halves 5, 5 and 5 in that order. |
| AddAsWritten.TieParent | BTree.java:572-576 | The halves 5, 5 and 5 of a split first child both sort after its sibling 5, 9, which starts with the same key. |
| AddAsWritten.AddTie | BTree.java:572-576 | With order 2, adding 5 to the sorted tree 5 over (5, 5, 5) and (5, 9) as written gives 5, 5 over (5, 9), (5, 5), (5): it reads 5, 9, 5, 5, 5, 5, 5, is not sorted, and `contains(9)` is false. |
| Links.DeleteLinked | BTree.java:251-287 | `delete` changes the tree as the model's deletion does; the root's parent link becomes set only when a one-key internal root collapsed, and stays set. |
| Links.InsertLinked | BTree.java:36-62 | `insert` changes the tree as the model's insertion does; a set link is cleared exactly when the tree grew a level. |
| Links.ValidateLinked | BTree.java:894-950 | `validate` agrees with the model's check while the root's link is clear; under a set link a root with fewer than `t` keys is rejected. |
| Links.RemoveLinked | BTree.java:601-632 | `remove` agrees with the model's removal while the root's link is clear; under a set link the link stays, the count is the same, and the root is never dropped. |
| Links.RemoveLinkedContents | BTree.java:601-632 | With the root's link set or not, `remove` leaves the same keys in the same order. |
| Links.StaleCollapse | BTree.java:251-287 | With order 2, deleting 1 from 2 over (1) and (3) makes the leaf 2, 3 the root with its parent link set. |
| Links.StaleValidate | BTree.java:906-937 | A keyless root leaf passes `validate` as a root and fails it as an inner node. |
| Links.StaleRemove | BTree.java:601-613 | Removing the only key of a root leaf empties the tree when the root has no parent, and leaves a keyless root when it has one. |
| Links.StaleRoot | BTree.java:251-287 | With order 2, after deleting 1, 2 and 3 from 2 over (1) and (3), `validate` rejects the keyless root the model accepts; removing 3 instead of deleting it leaves a keyless root where the model empties the tree. |

## Left out

- Parent back-pointers below the root, reference identity of nodes
  (`indexOf(Node)`, `removeChild(Node)`) and the fixed-capacity arrays are
  not modelled. A node's children are a sequence, and `removeChild` becomes
  taking an element out of it. The root's parent link is modelled by `Links`,
  because `validate` and `remove` read it.
- Generic keys: the model uses `int` keys compared with `<`.
- `toString`, `TreePrinter` and the unused `getSmallestNode` are left out,
  because they only render text or are never called.
- `addKey` and `addChild` append and then sort. They are modelled as
  insertion at the sorted position, which equals the code on a sorted list
  (`Seqs.AddKeyPosition`, `ChildSort.SortSorted`). For `addChild` the two
  differ when a split half and a sibling start with the same key. `splitChild`
  and `splitChild2Pass` meet that case, and so does `split` in `add`; both are
  findings below (`ChildSort`, `AddAsWritten`).
- Add.AddRecContent: proved for split halves placed at the split child's
  position. The code's stable sort can put a half after a sibling with the
  same first key, and then the in-order sequence is no longer sorted
  (`AddAsWritten.AddTie`).
- Add.AddRootContent: the same placement as `Add.AddRecContent`, for the
  same reason.
- Trees.AddValid: the same placement as `Add.AddRecContent`. With repeated
  keys the code's tree can lose its order and `contains` can miss a stored
  value (`AddAsWritten.AddTie`).
- Insert.SplitChildInOrder: proved for the new right half placed just after
  the split child. The code writes it there and then stably sorts the children
  by first key (BTree.java:129-132). When both halves start with the same key
  the sort keeps the right half first, and the in-order sequence is no longer
  sorted (`ChildSort.SplitChildTie`).
- Insert.InsertNonFullContent: proved for split halves placed at the split
  child's position. `insertNonFull` splits through `splitChild`, whose sort at
  BTree.java:132 can put the right half first when first keys tie
  (`ChildSort.SplitChildTie`).
- Insert.GrowRootContent: the same placement as `Insert.SplitChildInOrder`.
  Splitting a full root 5, 5, 5, 5, 7 with `t = 2` reads 5, 7, 5, 5, 5 in the
  code (`ChildSort.SplitChildTie`).
- Insert.InsertRootContent: the same placement as
  `Insert.InsertNonFullContent`, for the same reason.
- Trees.InsertValid: the same placement as `Insert.InsertNonFullContent`. With
  repeated keys the code's tree can lose its order and `contains` can miss a
  stored value: with order 3, inserting 5, 5, 5, 5, 7 and then 9 leaves 5 over
  (5, 7) and (5, 5, 9), and `contains(7)` is false.
- Insert2Pass.Absorb2Content: proved for split halves placed at the split
  child's position. `splitChild2Pass` writes the right half there and stably
  sorts the children by first key (BTree.java:458-461), which can put the
  right half first when first keys tie, as in `ChildSort.SplitChildTie`.
- Insert2Pass.Insert2Content: the same placement as
  `Insert2Pass.Absorb2Content`, for the same reason.
- Insert2Pass.Insert2RootContent: the same placement as
  `Insert2Pass.Absorb2Content`, for the same reason.
- Trees.Insert2PassValid: the same placement as `Insert2Pass.Absorb2Content`.
  With repeated keys the code's tree can lose its order and `contains` can
  miss a stored value.
- Deletion and removal are proved only for distinct keys. With equal keys, the `delete` loop can swap a value with an equal predecessor and never finish, and the separator search of `combined` assumes that keys differ. The following members therefore require a strictly sorted in-order sequence:
- Trees.DeleteValid: requires distinct keys, for the reason above.
- Trees.RemoveValid: requires distinct keys, for the reason above.
- DeleteRoot.DeleteAtContent: requires distinct keys, for the reason above.
- DeleteContent.DelContent: requires distinct keys, for the reason above.
- RemoveContent.RemoveInContent: requires distinct keys, for the reason above.
- RemoveContent.RemoveRootContent: requires distinct keys, for the reason above.
- `removeKey(value)` is modelled as removing one copy. The code does the
  same on a sorted list, where equal keys are adjacent.
- Trees.DeleteValue: on an empty tree, or for a value that is not stored, the code throws a NullPointerException. The model instead reports that nothing was removed and keeps `size`, returning the tree as repaired along the search path.
- A `delete` that removes the last key of a leaf root leaves a keyless root
  in the code. The model keeps that root. `Search.Where` treats a keyless
  root as holding nothing, where the code's `getNode` would throw.
- `getNode` loops forever on a node whose keys are not sorted. The model
  ends that search as not found, and on sorted keys it never arises
  (`Search.ScanOrdered`).
- Order 1 (minimum key count 0) is left out: every operation requires a
  minimum key count of at least 1. The constructor does not check its
  argument.
- The `split(greatest)` call inside `remove` is not modelled, because it is
  applied to a leaf that has just lost a key and so never splits.
- The default constructor gives `maxKeySize` 3, not the 2 its comment
  states. The model follows the code (`Trees.New` with order 2).
- `merge_two_nodes` walks the right node using the left node's key count.
  `Delete.MergeTwo` does the same and is only applied to siblings of equal
  size, which the repair before each merge guarantees.
- `combined` clears the parent of a node it makes the root. In the model
  that is simply the root returned by `Remove.RemoveRoot`. `delete` does not
  clear it (see "Findings").
- Trees.ValidatesValid: assumes the root's parent link is clear. After a
  `delete` that shortened the tree the code leaves it set, and `validate`
  then rejects a root with fewer than `t` keys (`Links.StaleRoot`).
- Trees.RemoveValid: assumes the root's parent link is clear. Once it is
  set, `remove` keeps a root that lost its last key, instead of emptying the
  tree or handing the root to its only child. The stored keys are the same
  (`Links.RemoveLinkedContents`), but the tree is no longer valid.
- `add` and `insert2pass` on a tree whose root kept its parent link are not
  modelled. Both read that link to decide whether a split makes a new root,
  and they fail in different ways:
  - `add`: when the root overflows, `split` puts the median and both halves
    into the discarded node and leaves the overfull root in place
    (BTree.java:572-576).
  - `insert2pass`: when the split reaches the root, that is, when the leaf and
    every node above it are full, `splitNode2Pass` looks the root up among the
    discarded node's children. There are none, so `indexOf` gives -1, and
    `getChild(-1)` throws ArrayIndexOutOfBoundsException (BTree.java:408-412,
    1089-1100).

## Findings

| source | as written | input that shows it | evidently intended | confidence | as-written member | corrected member |
|---|---|---|---|---|---|---|
| BTree.java:132 | `splitChild` places the new right half by stably sorting the children on their first key; `splitChild2Pass` does the same at line 461 | `t = 2`, a full leaf 5, 5, 5, 5, 7 split under a new root: both halves start with 5, the right half stays first, and the in-order sequence reads 5, 7, 5, 5, 5 | the right half goes just after the split child | not executed | ChildSort.SplitChildTie | Insert.SplitChildInOrder |
| BTree.java:951-970 | `validateNode` compares a child's end keys only with its parent's separators | root 10 over (5 over 1, 12) and (20 over 15, 25), minimum key count 1: 12 lies left of 10, yet every check passes | the keys of a whole subtree lie between the separators above it | not executed | Validate.ValidateMissesDisorder | Validate.ValidTreeIff |
| BTree.java:906-980 | `validateNode` never compares leaf depths | root 10 over the leaf 5 and the subtree 20 (15, 25), minimum key count 1 | every leaf lies at the same depth | not executed | Validate.ValidateMissesDepth | Validate.ValidTreeIff |
| BTree.java:289-294 | `merge_right` removes the separator by index, and `perform_merge_and_update_tree` removes it again by value | minimum key count 1, parent keys 5, 5 over leaves 3, 5, 7, merging the first two children: the parent loses both 5s | the separator is removed once | not executed; only reachable with duplicate keys, which `delete` does not support | DeleteContent.MergeRightLosesKey | DeleteContent.MergeRightInOrder |
| BTree.java:572-576 | `split` puts the median into the parent, removes the split child and appends each half, stably sorting the children by first key after each append | order 2, adding 5, 5, 5, 5, 9, 5, 5 to an empty tree: the last 5 splits the leaf 5, 5, 5, 5 into 5, 5 and 5, which both sort after the sibling 5, 9; the tree reads 5, 9, 5, 5, 5, 5, 5 and `contains(9)` is false | the halves take the split child's place | not executed | AddAsWritten.AddTie | Add.AddRecContent |
| BTree.java:251-287 | `merge_two_nodes` gives the merged node the left node's parent, and `perform_merge_and_update_tree` makes it the root without clearing that parent, so `validate` and `remove` treat the root as an inner node | order 2, the tree 2 over (1) and (3): deleting 1 merges the root and both leaves into 1, 2, 3, which becomes the root with its parent set, and removing 1 leaves the root 2, 3; after deleting 2 and 3 `validate` rejects the keyless root, and removing 3 from the root leaf 3 leaves a keyless root instead of an empty tree | the new root's parent is cleared, as `combined` does at lines 811-815 | not executed | Links.StaleRoot | Trees.ValidatesValid |
