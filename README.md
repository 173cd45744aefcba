# In-memory B-tree of strings

A Dafny model of the B-tree in `utils/btree.c`. It stores C strings, ordered
by `strcmp`, with duplicates allowed. The tree has minimum degree
`t = ORDER = 3`: a node holds at most `2t-1 = 5` keys and, except for the
root, at least `t-1 = 2`. Insertion splits full nodes on the way down
(`split_child`, `insert_non_full`, `insert_key`). Deletion makes sure that
every child it descends into can spare a key, by borrowing from a sibling or
merging with one (`borrow_from_prev`, `borrow_from_next`, `merge_children`,
`fill_child`). A key found in an internal node is replaced by its predecessor
or its successor, or the two children around it are merged
(`delete_from_non_leaf`). `remove_key` drops a root that is left without
keys. The tree keeps `node_count`, the number of nodes it holds.

The model is in two layers.

- **Specification, on values.** `BTreeSpec` has the node datatype `Tree`.
  It defines the B-tree shape invariant `Wf` (capacity, `t-1` keys in every
  non-root node, one more child than keys, all leaves at the same depth) and
  the whole-tree invariant `IsBTree` (also: the listing is sorted and an
  internal root holds a key). It also defines the in-order listing `Listing`
  and the node count `NodeCount`. `InsertSpec` and `DeleteSpec` define each C
  routine as a function on `Tree` values, with the same branches, the same
  scans and the same constants, and prove the properties below about them.
- **The C routines.** `Trees.BTree` is a class holding the tree object's
  `root` and `nodeCount` fields. The modules `Insertion` and `Deletion` hold
  one method per C routine, with the routine's loops: the element-by-element
  shifts and copies in the key and child arrays, the scans for a slot, and
  the descents to the predecessor and the successor. Each method is proved to
  compute the function of the same name and to keep `nodeCount` equal to the
  number of nodes. `InsertKey` and `RemoveKey` update the tree object in
  place and keep `BTree.Valid()`, which says `IsBTree(root)` and
  `nodeCount == NodeCount(root)`.

`KeyOrder` models `strcmp` as a comparison of whole strings, which agrees
with `strcmp` on the NUL-free keys a C string can hold, and proves that it
is a total order. `KeySeq` defines the two list operations the tree implements:
`Insert`, which puts a key after every equal key, and `Remove`, which drops
the first occurrence of a key. `RoundTrip` relates insertion and deletion.

Two facts about `node_count` that follow from the code:

- **Deleting an absent key can lower `node_count`.** `delete_key` calls
  `fill_child` on its way down before it knows the key is missing, which
  can merge two children, and `remove_key` can then drop the emptied root.
  The listing stays the same, but the node count falls.
  `RoundTrip.AbsentKeyMerges` shows a tree of three nodes that ends up with
  one.
- **A root split raises `node_count` by at least two.** The new root and
  the split each add one node (`insert_key`, `split_child`). The rise is
  exactly two only when the insertion below the new root splits nothing
  further.

## Model

| member | source | states |
|---|---|---|
| KeyOrder.Strcmp | utils/btree.c:97 | the sign `strcmp` answers with: -1, 0 or 1, and 0 exactly when the two strings are equal |
| KeyOrder.StrcmpAntisymmetric | utils/btree.c:246 | swapping the strings flips the sign of `strcmp` |
| KeyOrder.LessTransitive | utils/btree.c:97 | "sorts before" under `strcmp` is transitive |
| KeyOrder.LessTrichotomy | utils/btree.c:246-248 | for any two keys exactly one holds: the first sorts before, they are equal, or the second sorts before |
| KeySeq.InsertSorted | utils/btree.c:97-101 | putting a key after the equal and smaller keys of a sorted listing keeps it sorted |
| KeySeq.InsertMultiset | utils/btree.c:101 | insertion adds exactly one copy of the key and lengthens the listing by one |
| KeySeq.RemoveMultiset | utils/btree.c:244-263 | deletion takes away one copy of the key if there is one, and otherwise leaves the length alone |
| KeySeq.RemoveAbsent | utils/btree.c:254 | deleting a key that is absent leaves the listing as it was |
| KeySeq.RemoveAtSorted | utils/btree.c:218-224 | in a sorted listing, dropping the slot that holds a key is the same as removing the key's first occurrence |
| KeySeq.RemoveSorted | utils/btree.c:244-263 | removing a key keeps a sorted listing sorted |
| KeySeq.InsertThenRemove | utils/btree.c:265-280 | in a sorted listing, removing a key right after inserting it gives back the listing |
| Trees.CreateNode | utils/btree.c:32-39 | a new node has the given leaf flag, no keys and one node; a new leaf is a B-tree of height 0 with an empty listing |
| Trees.BTree.constructor | utils/btree.c:41-46 | a new tree is valid: its root is an empty leaf, it lists nothing, and `node_count` is 1 |
| InsertSpec.InsertIndexSorted | utils/btree.c:97-105 | in sorted keys, the scans stop past every key that does not sort after the new key, so equal keys stay in front of it |
| InsertSpec.LeafInsert | utils/btree.c:96-102 | in a sorted leaf, the shift puts the key where `Insert` puts it |
| Insertion.ShiftInsert | utils/btree.c:95-101 | the leaf loop gives the keys with the new key in the slot the scan stops at, every later key one slot up |
| Insertion.FindChild | utils/btree.c:104-105 | the internal scan stops at the first slot from which every key sorts strictly after the new key |
| InsertSpec.HalvesWf | utils/btree.c:71-82 | both halves of a full node are well formed, have `t-1` keys each and keep the node's height |
| InsertSpec.HalvesListing | utils/btree.c:71-90 | the full child's listing is the lower half's, then the median, then the upper half's |
| InsertSpec.HalvesCount | utils/btree.c:68-69 | splitting creates exactly one node |
| Insertion.MoveUpperHalf | utils/btree.c:68-81 | the copy loops give a new node with the same leaf flag holding the child's keys and children from slot `t` on |
| Insertion.OpenGap | utils/btree.c:84-89 | the shift loop opens slot `index` in the keys and slot `index + 1` in the children and puts the median and the new node there |
| Insertion.SplitChild | utils/btree.c:66-92 | the method computes `InsertSpec.SplitChild` and counts one more node |
| InsertSpec.SplitChildValid | utils/btree.c:66-92 | after a split the parent is well formed, keeps its height and listing, gains one key (the child's median, at `index`) and one node, and both halves hold `t-1` keys |
| InsertSpec.InsertNonFullValid | utils/btree.c:94-112 | inserting into a non-full node keeps it well formed with the same height and leaf flag; it gains at most one key and never loses nodes; it gains no key when the child it descends into has room |
| InsertSpec.InsertNonFullListing | utils/btree.c:94-112 | inserting into a non-full node lists the key after all equal keys: the listing becomes `Insert(listing, key)` |
| InsertSpec.SplitThenInsertListing | utils/btree.c:106-110 | after splitting a full child, stepping right exactly when the key sorts after the median still inserts in the right place |
| Insertion.InsertNonFull | utils/btree.c:94-112 | the method computes `InsertSpec.InsertNonFull`, and `node_count` rises by exactly the nodes the splits created |
| Insertion.InsertInChild | utils/btree.c:110 | the recursive call replaces the child at `i` by the child with the key inserted, counting its new nodes |
| InsertSpec.NewRoot | utils/btree.c:116-120 | an empty internal root over the full root is well formed, one level higher, lists the same keys and adds one node |
| InsertSpec.InsertKeyValid | utils/btree.c:114-126 | insertion keeps a B-tree a B-tree, lists `Insert(listing, key)` and adds one copy of the key; a full root makes the tree one level taller with a one-key root and at least two more nodes; otherwise the height stays the same |
| InsertSpec.InsertKeyPosition | utils/btree.c:114-126 | the key lands after every key that does not sort after it and before every key that does |
| Insertion.InsertKey | utils/btree.c:114-126 | the tree stays valid, its keys become `Insert(keys, key)` and gain one copy of the key; a full root makes the tree one level taller with a one-key root and `node_count` up by at least two; otherwise the height stays the same |
| DeleteSpec.PredecessorLast | utils/btree.c:129-133 | the key at the bottom of the rightmost path is the last key of the subtree's listing |
| Deletion.GetPredecessor | utils/btree.c:129-133 | the loop returns the predecessor: the last key of the listing |
| DeleteSpec.SuccessorFirst | utils/btree.c:135-139 | the key at the bottom of the leftmost path is the first key of the subtree's listing |
| Deletion.GetSuccessor | utils/btree.c:135-139 | the loop returns the successor: the first key of the listing |
| DeleteSpec.BorrowFromPrevValid | utils/btree.c:141-157 | rotating a key from the left sibling through the parent keeps the node well formed, with the same height, listing, node count and number of keys; the child gains a key and the sibling loses one |
| DeleteSpec.BorrowFromPrevCount | utils/btree.c:141-157 | borrowing from the left changes neither the number of nodes nor the parent's number of keys |
| Deletion.BorrowFromPrev | utils/btree.c:141-157 | the shift and move steps compute `DeleteSpec.BorrowFromPrev` |
| DeleteSpec.BorrowFromNextValid | utils/btree.c:159-174 | rotating a key from the right sibling keeps the node well formed, with the same height, listing, node count and number of keys; the child gains a key and the sibling loses one |
| DeleteSpec.BorrowFromNextCount | utils/btree.c:159-174 | borrowing from the right changes neither the number of nodes nor the parent's number of keys |
| Deletion.BorrowFromNext | utils/btree.c:159-174 | the move and shift steps compute `DeleteSpec.BorrowFromNext` |
| DeleteSpec.MergeChildrenValid | utils/btree.c:176-203 | merging two children around their separator keeps the node well formed with the same height and listing; it has one key and one node fewer, and the merged child lists left, separator, right |
| DeleteSpec.MergeChildrenCount | utils/btree.c:176-203 | a merge removes exactly one node and one key of the parent |
| Deletion.CloseGap | utils/btree.c:192-198 | the closing loop drops key `idx` and child `idx + 1` and keeps the rest in order |
| Deletion.MergeChildren | utils/btree.c:176-203 | the method computes `DeleteSpec.MergeChildren`, and `node_count` falls by one |
| DeleteSpec.FillChildValid | utils/btree.c:205-216 | after `fill_child` the node keeps its shape, height and listing, and the child the deletion then descends into holds at least `t` keys |
| DeleteSpec.FillChildCount | utils/btree.c:205-216 | `fill_child` borrows, keeping the node and key counts, exactly when a neighbour has more than `t-1` keys; otherwise it merges, with one node and one key fewer |
| DeleteSpec.FillRedirect | utils/btree.c:255-261 | the deletion goes on in the left neighbour exactly when the slot was the last one and its left neighbour had only `t-1` keys (so the two merged); otherwise it goes on at the same slot |
| Deletion.FillChild | utils/btree.c:205-216 | the method computes `DeleteSpec.FillChild` and keeps `node_count` equal to the number of nodes |
| Deletion.DeleteFromLeaf | utils/btree.c:218-224 | the leaf loses the key at slot `idx`, and the keys after it move down one slot |
| DeleteSpec.DeleteIndexSorted | utils/btree.c:245-248 | in sorted keys the scan finds the key exactly when it is present; when it is absent, the slot is bracketed by the keys around it |
| Deletion.FindKey | utils/btree.c:245-247 | the scan stops at the first slot whose key does not sort before the key |
| DeleteSpec.MakeRoomValid | utils/btree.c:254-257 | before descending past a key it did not find, the node keeps its shape, height and listing and loses at most one key and gains no nodes, and the child it descends into holds at least `t` keys |
| DeleteSpec.PredecessorListing | utils/btree.c:228-232 | replacing the separator by its predecessor and deleting that from the left child removes the separator from the listing |
| DeleteSpec.SuccessorListing | utils/btree.c:233-237 | replacing the separator by its successor and deleting that from the right child removes the separator from the listing |
| DeleteSpec.MergeDeleteListing | utils/btree.c:238-241 | merging the two thin children and deleting the separator from the merged child removes it from the listing |
| DeleteSpec.DeleteFromNonLeafValid | utils/btree.c:226-242 | deleting a separator keeps the node well formed, internal and of the same height, with at most one key and no nodes gained |
| DeleteSpec.DeleteFromNonLeafListing | utils/btree.c:226-242 | deleting the separator at `idx` removes that key from the listing |
| Deletion.DeleteFromNonLeaf | utils/btree.c:226-242 | the method computes `DeleteSpec.DeleteFromNonLeaf` and keeps `node_count` equal to the number of nodes |
| DeleteSpec.MissListing | utils/btree.c:253-262 | in an internal node that does not hold the key, making room and descending removes the key's first occurrence from the listing, if there is one |
| DeleteSpec.DeleteKeyValid | utils/btree.c:244-263 | deletion keeps a subtree well formed with the same height and leaf flag, loses at most one key of its root, and never gains nodes |
| DeleteSpec.DeleteKeyListing | utils/btree.c:244-263 | deletion turns a sorted listing into `Remove(listing, key)`: exactly one occurrence goes if there is one, and nothing else changes |
| Deletion.DeleteKey | utils/btree.c:244-263 | the method computes `DeleteSpec.DeleteKey` and keeps `node_count` equal to the number of nodes |
| Deletion.DeleteInChild | utils/btree.c:257-261 | the recursive call replaces child `j` by the child with the key deleted, counting the nodes it merges away |
| DeleteSpec.RootCollapse | utils/btree.c:272-278 | an internal root with no keys has a child that lists the same keys, is one level lower and has one node fewer |
| Deletion.ShrinkRoot | utils/btree.c:267-279 | a root without keys is replaced by a fresh leaf or by its only child, and `node_count` still counts the nodes |
| DeleteSpec.RemoveKeyValid | utils/btree.c:265-280 | removal keeps a B-tree a B-tree and lists `Remove(listing, key)`; the listing loses one copy of the key if present and is unchanged if absent; the node count never rises and a leaf root keeps it; the height stays or falls by one, only from a one-key internal root |
| Deletion.RemoveKey | utils/btree.c:265-280 | the tree stays valid, its keys become `Remove(keys, key)` with one copy fewer if present and unchanged if absent, `node_count` never rises, a leaf root stays a leaf with the same count, and the height falls by at most one, only when a one-key root collapses |
| RoundTrip.InsertThenRemoveKey | utils/btree.c:265-280 | removing a key right after inserting it gives back the listing the tree had before the insertion |
| RoundTrip.Drained | utils/btree.c:265-280 | a B-tree that lists no keys is a single empty leaf, so a tree drained of all its keys has `node_count` 1 |
| RoundTrip.EmptyRoundTrip | utils/btree.c:265-280 | inserting a key into an empty tree and removing it gives back the empty leaf: nothing listed and `node_count` 1 |
| RoundTrip.AbsentKeyMerges | utils/btree.c:253-278 | for a concrete three-node tree, removing an absent key leaves the listing alone but merges the two leaves and drops the root, so the node count falls by two |

## Left out

- Nodes are values. The C routines update nodes in place, reaching them by address. Here each node, with everything below it, is a `Tree` value, and a routine returns the new value. So the model does not capture aliasing between nodes or the in-place update of a node's arrays. Only the tree object's `root` and `node_count` fields are updated in place, on `Trees.BTree`.
- Memory management is not modelled: `malloc`, `calloc`, `free`, `free_node` and `free_btree`. A node freed by `merge_children` or `remove_key` shows only as the decrement of `node_count`.
- Key ownership is not modelled. `strdup` copies and `free` of key strings become key values.
- Slots past `num_keys` are not modelled. The arrays are sequences of live slots, so the NULLing of vacated slots has nothing to act on. The capacities (`MAX_KEYS` keys, `MAX_KEYS + 1` children) are the bound in `Wf`.
- `int` counters are unbounded integers. `num_keys` cannot overflow, because it stays at most 5. `node_count` could only overflow past about 2^31 nodes, which the model does not consider.
- `strcmp` is modelled as a comparison of whole strings of `char`, by character code. That agrees with C's `unsigned char` comparison on the NUL-free byte strings C keys are. The model does not rule out a `'\0'` inside a key, which C cannot store.
- `create_file` and `main` (file reading, tokenising, timing, CSV logging) are not part of this model. They only feed keys to the core and log `node_count`. The Python plotting script `graficos/gerador_graficos.py` is not part of this model either.
- Insertion.InsertKey: states that a root split raises `node_count` by at least two, not exactly two, because splits further down add more nodes.
- InsertSpec.InsertKeyValid: states the node count after a root split as at least two more, for the same reason.
- DeleteSpec.DeleteKeyValid: states that the node count does not rise, not its exact change, because the number of merges depends on the path.
