# GenUtils containers in Dafny

GenUtils is a small C library of generic containers. The model covers five of them:

- the string-keyed binary search tree (`src/lib/GenUtils/BinaryTree.c`);
- the circular singly linked list, in two copies (`src/lib/GenUtils/CSLL.c` and `src/lib/Utils/Utils_CSLL.c`);
- the circular doubly linked list, in two copies (`src/lib/GenUtils/CDLL.c` and `src/lib/Utils/CDLL.c`);
- the stacks built on the doubly linked list (`src/lib/GenUtils/Stack.c` and `src/lib/Utils/Stack.c`);
- the two list drivers (`src/tests/CSLL.c` and `src/tests/CDLL.c`).

How the model is laid out:

- **Heap.** Each container object is a Dafny `class` whose fields are the C struct's fields. Its nodes live in an arena, the field `nodes: seq<…>`.
  - A node pointer is a `Link`: `Nil` for NULL, or `Ref(i)` for the node at place `i` of the arena.
  - `malloc` appends a record. `free` leaves the record in place, so the heap never shrinks.
- **Lists.** A ghost `order` lists the node indices from the head to the tail. `Valid()` says three things:
  - the links close that order into a ring: `nextNode`, or `second` forward and `first` back;
  - `head`, `tail` and `size` agree with the order;
  - no node appears twice.
- **Contents.** `Contents()` is the user data along the order. Every operation is specified by what it does to `Contents()`, through the sequence edits `InsertAt` and `RemoveAt` of module `Sequences`.
- **Tree.** The tree keeps a ghost shape, a `Tree<nat>` of node indices that the links represent. Its contents are the `Tree<KeyValue>` that this shape holds.
- **User data and keys.** User data are opaque pointers (`Ptr`: `Null` or an address). Keys are NUL-free byte strings, compared by the sign of `strcmp` (`CTypes.Strcmp`).
- **Handles and visitors.** API functions take handles that may be NULL, so their parameters have type `C?`. A function-pointer visitor is modelled by whether it is NULL, and a traversal by the sequence of records it passes to the visitor.

The `Utils_*` copies of the lists share the splicing code of the `GenUtils_*` ones under other names, and the doubly linked nodes call their links `prevNode` and `nextNode`. They differ in their API in three ways:
- The Utils pops return `bool`, whether a node was removed (`src/lib/Utils/Utils_CSLL.c:279-295`, `src/lib/Utils/CDLL.c:239-255`). The GenUtils pops `GenUtils_CSLLPopBack`, `GenUtils_CSLLPopFront` and `GenUtils_CDLLPopBack` return the removed data (`src/lib/GenUtils/CSLL.c:288-320`, `src/lib/GenUtils/CDLL.c:248-256`). The Utils pops are therefore modelled by the `PopBackBool`, `PopFrontBool` and `PopFront` members of the GenUtils modules.
- `Utils_CSLL.c` has no `Iterate`, so `UtilsCSLL` has none; `Utils/CDLL.c` has one, and so does `UtilsCDLL`.
- `Utils/CDLL.c` has no `PopBackBool` beside its `bool` `PopBack`.

The modules `UtilsCSLL` and `UtilsCDLL` therefore work on the classes of `GenUtilsCSLL` and `GenUtilsCDLL`, and state each function's contract over them. The two list drivers are modelled phase by phase as methods whose contracts give the list after each phase, ending with the seven elements the drivers print at the end.

## Model

| member | source | states |
|---|---|---|
| CTypes.Strcmp | src/lib/GenUtils/BinaryTree.c:323 | the sign of `strcmp`: -1, 0 or 1, and 0 exactly when the two keys are equal |
| CTypes.StrcmpAntisymmetric | src/lib/GenUtils/BinaryTree.c:240 | swapping the arguments of `strcmp` (as `Insert` does compared with `Remove`) negates the sign |
| CTypes.StrcmpTransitive | src/lib/GenUtils/BinaryTree.c:323 | the key order used by every descent is transitive |
| CTypes.LessTrichotomy | src/lib/GenUtils/BinaryTree.c:323-338 | exactly one of less, equal or greater holds, so every descent step takes one branch |
| Trees.InOrderVisitsEveryNodeOnce | src/lib/GenUtils/BinaryTree.c:697-711 | an in-order walk lists every stored value once: same multiset, length = node count |
| Trees.PreOrderVisitsEveryNodeOnce | src/lib/GenUtils/BinaryTree.c:680-694 | a preorder walk lists every stored value once |
| Trees.PostOrderVisitsEveryNodeOnce | src/lib/GenUtils/BinaryTree.c:714-728 | a postorder walk lists every stored value once |
| Trees.DropLastInOrder | src/lib/GenUtils/BinaryTree.c:383-388 | the replacement node (the last one reached by `second` steps) is the last of the in-order sequence; removing it drops exactly that element and one node |
| Trees.LastAlongSecondPath | src/lib/GenUtils/BinaryTree.c:383-388 | following `second` links to a node without a `second` child reaches the in-order last node, and cutting it leaves its `first` subtree in its place |
| BinaryTreeSpec.KeysOfInOrder | src/lib/GenUtils/BinaryTree.c:541-560 | the in-order array lists exactly the keys of the tree |
| BinaryTreeSpec.OrderedInsInOrderDescending | src/lib/GenUtils/BinaryTree.c:541-560 | on a tree built by `Insert` (greater keys under `first`), `ToArray` lists the keys strictly decreasing |
| BinaryTreeSpec.OrderedStdInOrderAscending | src/lib/GenUtils/BinaryTree.c:541-560 | on a tree ordered the way `Set`/`Remove` search it, `ToArray` lists the keys strictly increasing |
| BinaryTreeSpec.FindInsFindsStoredRecord | src/lib/GenUtils/BinaryTree.c:139-172 | a record found by the descent of `Exist`/`Get` carries the searched key and is stored in the tree |
| BinaryTreeSpec.FindInsComplete | src/lib/GenUtils/BinaryTree.c:103-136 | on a tree built by `Insert`, `Exist` finds a key if and only if the tree holds it |
| BinaryTreeSpec.FindStdFindsStoredRecord | src/lib/GenUtils/BinaryTree.c:175-209 | a record found by the descent of `Set`/`Remove` carries the searched key and is stored in the tree |
| BinaryTreeSpec.FindStdComplete | src/lib/GenUtils/BinaryTree.c:318-340 | on a tree ordered for `Set`/`Remove`, their descent finds a key if and only if the tree holds it |
| BinaryTreeSpec.InsertInsRefusesFoundKey | src/lib/GenUtils/BinaryTree.c:240-245 | inserting a key that is already there changes nothing |
| BinaryTreeSpec.InsertInsInOrder | src/lib/GenUtils/BinaryTree.c:235-293 | otherwise the in-order sequence gains the new record at one position and is otherwise unchanged |
| BinaryTreeSpec.InsertInsAddsOneRecord | src/lib/GenUtils/BinaryTree.c:246-291 | otherwise the tree gains one node and exactly the new record |
| BinaryTreeSpec.InsertInsKeys | src/lib/GenUtils/BinaryTree.c:223-296 | after an insertion the key set is the old one plus the new key |
| BinaryTreeSpec.InsertInsKeepsOrder | src/lib/GenUtils/BinaryTree.c:235-293 | insertion keeps the tree ordered for its own descent, and that descent then finds the new record |
| BinaryTreeSpec.SetStdKeepsKeys | src/lib/GenUtils/BinaryTree.c:175-209 | `Set` changes values only: every key stays in its place |
| BinaryTreeSpec.SetStdIgnoresMissingKey | src/lib/GenUtils/BinaryTree.c:175-209 | `Set` of a key its descent does not find leaves the tree unchanged |
| BinaryTreeSpec.SetStdOverwritesOneValue | src/lib/GenUtils/BinaryTree.c:175-209 | `Set` of a found key replaces the value at the found record's in-order position and nowhere else |
| BinaryTreeSpec.SetStdThenFind | src/lib/GenUtils/BinaryTree.c:175-209 | after `Set`, the same descent finds the record with the new value |
| BinaryTreeSpec.RemoveStdIgnoresMissingKey | src/lib/GenUtils/BinaryTree.c:342-345 | removal of a key the descent does not find leaves the tree unchanged |
| BinaryTreeSpec.RemoveRootInOrder | src/lib/GenUtils/BinaryTree.c:347-412 | removing a node leaves the in-order sequence of its two subtrees, joined, in its place |
| BinaryTreeSpec.RemoveStdInOrder | src/lib/GenUtils/BinaryTree.c:299-417 | removing a found record deletes exactly its position from the in-order sequence |
| BinaryTreeSpec.RemoveStdDropsOneRecord | src/lib/GenUtils/BinaryTree.c:299-417 | removing a found record: one node fewer, exactly that record leaves the multiset |
| BinaryTreeSpec.RemoveRootKeepsOrder | src/lib/GenUtils/BinaryTree.c:380-412 | promoting the in-order predecessor keeps the tree ordered and removes just the key |
| BinaryTreeSpec.RemoveStdKeepsOrder | src/lib/GenUtils/BinaryTree.c:299-417 | on an ordered tree, removal keeps the order and the key set loses exactly the key |
| BinaryTreeSpec.InsertAllSucceedsIffDistinct | src/lib/GenUtils/BinaryTree.c:563-579 | `FromArray` succeeds if and only if the keys are distinct from each other and from the tree's |
| BinaryTreeSpec.InsertAllOrdered | src/lib/GenUtils/BinaryTree.c:563-579 | a tree built by `FromArray` is ordered for `Insert`'s descent |
| BinaryTreeSpec.InsertAllContents | src/lib/GenUtils/BinaryTree.c:563-579 | a tree built by `FromArray` holds the old records plus the array's, one node each |
| BinaryTreeSpec.InsertInsExtendsChain | src/lib/GenUtils/BinaryTree.c:246-291 | a key smaller than all keys of a `second`-only chain is appended at its end |
| BinaryTreeSpec.InsertAllIntoChain | src/lib/GenUtils/BinaryTree.c:563-579 | inserting keys in descending order keeps a chain |
| BinaryTreeSpec.ChainInOrder | src/lib/GenUtils/BinaryTree.c:582-605 | such a chain lists its records in order and has height equal to its length |
| BinaryTreeSpec.RebuildIsChain | src/lib/GenUtils/BinaryTree.c:582-605 | `Balance` (rebuild from the in-order array) of an `Insert`-built tree gives a chain of height = size, so it does not balance |
| BinaryTreeSpec.SetAndRemoveMissSecondInsert | src/lib/GenUtils/BinaryTree.c:223-296 | `Insert` and `Set`/`Remove` descend in opposite directions: after two insertions, `Exist` finds the second key but `Set` and `Remove` do not |
| BinaryTreeHeap.RedirectParent | src/lib/GenUtils/BinaryTree.c:362-375 | the parent update writes only the parent (or the root pointer) and keeps the heap's size |
| BinaryTreeHeap.RedirectIsRetarget | src/lib/GenUtils/BinaryTree.c:366-375 | the test `current == previous->first` picks the link the descent came through |
| BinaryTreeHeap.ParentLink | src/lib/GenUtils/BinaryTree.c:366-375 | a parent's `first` points at the subtree exactly when the descent went to `first` |
| BinaryTreeHeap.RelinkFrame | src/lib/GenUtils/BinaryTree.c:405-411 | the repaired relinking writes only the promoted node and the node before it, and moves no record |
| BinaryTreeHeap.PromoteChild | src/lib/GenUtils/BinaryTree.c:405-411 | promoting the removed node's immediate `first` child gives a well-formed tree |
| BinaryTreeHeap.CutLast | src/lib/GenUtils/BinaryTree.c:409 | unlinking the end of a `second` chain hangs its `first` subtree in its place |
| BinaryTreeHeap.PromoteDeep | src/lib/GenUtils/BinaryTree.c:405-411 | promoting a node reached by `second` steps gives a well-formed tree |
| BinaryTreeHeap.PromoteLast | src/lib/GenUtils/BinaryTree.c:383-411 | in both cases the promoted node takes the removed node's place; no other node changes |
| GenUtilsBinaryTree.BinaryTree.constructor | src/lib/GenUtils/BinaryTree.c:45-56 | a new tree: no root, size 0, empty contents |
| GenUtilsBinaryTree.WasInit | src/lib/GenUtils/BinaryTree.c:69-77 | true exactly for a non-NULL handle |
| GenUtilsBinaryTree.GetSize | src/lib/GenUtils/BinaryTree.c:80-88 | the number of stored records; 0 for NULL |
| GenUtilsBinaryTree.IsEmpty | src/lib/GenUtils/BinaryTree.c:91-100 | true exactly for an initialized tree without records (false for NULL) |
| GenUtilsBinaryTree.RootOf | src/lib/GenUtils/BinaryTree.c:212-220 | the root node, NULL exactly for NULL or an empty tree |
| GenUtilsBinaryTree.Get | src/lib/GenUtils/BinaryTree.c:139-172 | the record `Insert`'s descent finds for the key, or none |
| GenUtilsBinaryTree.Exist | src/lib/GenUtils/BinaryTree.c:103-136 | true exactly when that descent finds the key |
| GenUtilsBinaryTree.SetAtNode | src/lib/GenUtils/BinaryTree.c:196-200 | writing the value of one node changes exactly that record of the contents, and keeps the shape |
| GenUtilsBinaryTree.Set | src/lib/GenUtils/BinaryTree.c:175-209 | the contents become `SetStd`: the found record gets the new value; true exactly when found; shape, root and size unchanged |
| GenUtilsBinaryTree.AttachLeafShape | src/lib/GenUtils/BinaryTree.c:249-262 | a new node hung from an empty child slot is represented in that place; the rest of the path is unchanged |
| GenUtilsBinaryTree.AttachLeaf | src/lib/GenUtils/BinaryTree.c:246-291 | that new leaf holding the record makes the contents `InsertIns`, with one node more and the same root |
| GenUtilsBinaryTree.NewRootLeaf | src/lib/GenUtils/BinaryTree.c:228-235 | a new single node holding the record is the insertion into an empty tree |
| GenUtilsBinaryTree.InsDescend | src/lib/GenUtils/BinaryTree.c:240-292 | following `first` when the node's key is below the new key and `second` when above leaves the lookup, the insertion and the contents those of that child's subtree in its place |
| GenUtilsBinaryTree.InsAtLeaf | src/lib/GenUtils/BinaryTree.c:246-283 | when the slot on the comparison's side is empty, the key is absent and the insertion is a new leaf in that slot |
| GenUtilsBinaryTree.HangLeaf | src/lib/GenUtils/BinaryTree.c:249-262 | a node holding the record hung from the empty `first` or `second` slot keeps the tree well formed and its root, adds one to the size, and puts the record in that place of the contents |
| GenUtilsBinaryTree.Insert | src/lib/GenUtils/BinaryTree.c:223-296 | the contents become `InsertIns`; true exactly when the key was absent (also for an empty tree); size grows by one iff true; unchanged otherwise |
| GenUtilsBinaryTree.UnlinkOneChild | src/lib/GenUtils/BinaryTree.c:362-375 | redirecting the parent (or the root) to the only child keeps the tree well formed, one node fewer |
| GenUtilsBinaryTree.RemoveOneChild | src/lib/GenUtils/BinaryTree.c:347-359 | for a node with at most one child, that child is what removal leaves |
| GenUtilsBinaryTree.PromoteInPlace | src/lib/GenUtils/BinaryTree.c:390-411 | in the repaired two-child case the tree stays well formed, the path above is unchanged, and no record moves |
| GenUtilsBinaryTree.PromoteContents | src/lib/GenUtils/BinaryTree.c:380-416 | the two-child case leaves `RemoveStd`'s contents, one node fewer and the right root |
| GenUtilsBinaryTree.Search | src/lib/GenUtils/BinaryTree.c:318-340 | the search loop stops at the node the `Set`/`Remove` descent finds (or NULL) with its parent; removing there is removing in the whole tree |
| GenUtilsBinaryTree.FindReplacement | src/lib/GenUtils/BinaryTree.c:383-388 | the inner loop reaches the last node of the `first` subtree along `second` links, and the node before it |
| GenUtilsBinaryTree.UnlinkSingle | src/lib/GenUtils/BinaryTree.c:347-378 | the one-child case: the tree stays valid, size drops by one, and the contents lose the key |
| GenUtilsBinaryTree.UnlinkDouble | src/lib/GenUtils/BinaryTree.c:380-412 | the repaired two-child case has the same effect |
| GenUtilsBinaryTree.Delete | src/lib/GenUtils/BinaryTree.c:299-417 | the contents become `RemoveStd`; the removed record is what the descent finds; size drops by one iff found; unchanged otherwise |
| GenUtilsBinaryTree.Remove | src/lib/GenUtils/BinaryTree.c:299-417 | `Delete`, returning the removed value or NULL |
| GenUtilsBinaryTree.RemoveBool | src/lib/GenUtils/BinaryTree.c:420-538 | `Delete`, returning true exactly when a record was removed |
| GenUtilsBinaryTree.PreorderFrom | src/lib/GenUtils/BinaryTree.c:680-694 | the repaired helper visits the subtree's records in preorder; none for a NULL visitor |
| GenUtilsBinaryTree.InorderFrom | src/lib/GenUtils/BinaryTree.c:697-711 | the repaired helper visits them in order |
| GenUtilsBinaryTree.PostorderFrom | src/lib/GenUtils/BinaryTree.c:714-728 | the repaired helper visits them in postorder |
| GenUtilsBinaryTree.Preorder | src/lib/GenUtils/BinaryTree.c:620-628 | the visitor sees the tree's records in preorder; nothing for NULL tree or visitor |
| GenUtilsBinaryTree.Inorder | src/lib/GenUtils/BinaryTree.c:631-639 | the visitor sees the records in order |
| GenUtilsBinaryTree.Postorder | src/lib/GenUtils/BinaryTree.c:642-650 | the visitor sees the records in postorder |
| GenUtilsBinaryTree.TraversalsVisitEveryRecordOnce | src/lib/GenUtils/BinaryTree.c:620-650 | each traversal calls the visitor once per stored record |
| GenUtilsBinaryTree.ToArray | src/lib/GenUtils/BinaryTree.c:541-560 | a fresh array of `GetSize` records holding the in-order sequence |
| GenUtilsBinaryTree.FromArray | src/lib/GenUtils/BinaryTree.c:563-579 | a new tree with the records inserted front to back, or NULL exactly when an insertion is refused |
| GenUtilsBinaryTree.Balance | src/lib/GenUtils/BinaryTree.c:582-605 | the old tree is cleared; the result is `FromArray` of its in-order array, which for an `Insert`-built tree is a chain of height = size |
| GenUtilsBinaryTree.ClearFrom | src/lib/GenUtils/BinaryTree.c:666-677 | the nodes freed from a node on, in postorder |
| GenUtilsBinaryTree.ClearFreesEveryNodeOnce | src/lib/GenUtils/BinaryTree.c:666-677 | clearing frees every node of the tree exactly once |
| GenUtilsBinaryTree.Clear | src/lib/GenUtils/BinaryTree.c:608-617 | afterwards: no root, size 0, empty contents |
| BinaryTreeAsWritten.InsertAsWrittenSucceeds | src/lib/GenUtils/BinaryTree.c:223-296 | as written, `Insert` returns true exactly when the tree is non-empty and the key absent; a refused insertion changes nothing |
| BinaryTreeAsWritten.InsertAsWrittenShape | src/lib/GenUtils/BinaryTree.c:246-291 | as written, a successful insertion adds a node in the place the repaired one would |
| BinaryTreeAsWritten.InsertAsWrittenLeavesLeafBlank | src/lib/GenUtils/BinaryTree.c:249-262 | ... but the new node holds no record: the multiset of records gains a missing one |
| BinaryTreeAsWritten.InsertIntoEmptyTreeRefused | src/lib/GenUtils/BinaryTree.c:235-295 | as written, insertion into an empty tree is refused, although the intended insertion makes a single-node tree |
| BinaryTreeAsWritten.RelinkAsWritten | src/lib/GenUtils/BinaryTree.c:405-411 | the relinking as written keeps the heap's size |
| BinaryTreeAsWritten.RelinkAsWrittenAfterSecondSteps | src/lib/GenUtils/BinaryTree.c:405-411 | when at least one `second` step was taken, the code as written equals the repaired relinking |
| BinaryTreeAsWritten.ImmediatePredecessorSelfLoop | src/lib/GenUtils/BinaryTree.c:405-410 | when the predecessor is the immediate `first` child, the code as written makes it its own `first` child, so no tree contains it, and its own `first` subtree is lost |
| BinaryTreeAsWritten.ThreeNodesSelfLoop | src/lib/GenUtils/BinaryTree.c:383-411 | removing the root of the tree "b" with children "a" and "c" self-loops "a" as written; the repaired relinking gives the tree "a" with child "c" |
| BinaryTreeAsWritten.Calls | src/lib/GenUtils/BinaryTree.c:620-650 | the calls a traversal should make: `visitor(record, extradata)` per record, none for a NULL visitor |
| BinaryTreeAsWritten.NullExtradataVisitsOnlyRoot | src/lib/GenUtils/BinaryTree.c:680-728 | as written, with NULL extradata every helper visits only the root |
| BinaryTreeAsWritten.ExtradataCalledAsFunction | src/lib/GenUtils/BinaryTree.c:680-728 | as written, with non-NULL extradata the helpers call the extradata as if it were the visitor |
| BinaryTreeAsWritten.TraversalHelpersDiverge | src/lib/GenUtils/BinaryTree.c:680-728 | for any tree of two or more nodes, none of the three helpers as written makes the call sequence the header documents |
| Sequences.RemoveWhatWasInserted | src/lib/GenUtils/CSLL.c:87-228 | `Remove` undoes `Insert`: deleting what was inserted at a place gives the old contents back |
| Sequences.InsertAtMultiset | src/lib/GenUtils/CSLL.c:87-185 | an insertion adds one occurrence of the new data and keeps every other |
| Sequences.RemoveAtMultiset | src/lib/GenUtils/CSLL.c:188-269 | a removal takes away one occurrence of the removed data and keeps every other |
| Rings.EndsAfterInsert | src/lib/GenUtils/CSLL.c:178-182 | an insertion after a node keeps the head, and the new node becomes the tail exactly when it follows the tail |
| Rings.Visits | src/lib/GenUtils/CSLL.c:332-352 | the visitor gets one call per element, in list order, each with the caller's extradata |
| GenUtilsCSLL.CSLL.constructor | src/lib/GenUtils/CSLL.c:7-22 | a new list: no head, no tail, size 0 |
| GenUtilsCSLL.RingInsert | src/lib/GenUtils/CSLL.c:117-133 | splicing a new node in after place `p` keeps the ring closed and duplicate-free |
| GenUtilsCSLL.RingRemove | src/lib/GenUtils/CSLL.c:208-226 | linking the predecessor to the successor closes the ring without the node |
| GenUtilsCSLL.DataInsertAfter | src/lib/GenUtils/CSLL.c:175-177 | a new node holding `d` after place `p` puts `d` after the `p`-th element |
| GenUtilsCSLL.DataInsertBefore | src/lib/GenUtils/CSLL.c:124-127 | a new node after place `p` that takes over that node's data, the old node getting `d`, puts `d` before the `p`-th element |
| GenUtilsCSLL.DataRemove | src/lib/GenUtils/CSLL.c:223-226 | unlinking moves no data: the contents lose exactly that element |
| GenUtilsCSLL.OneNodeRing | src/lib/GenUtils/CSLL.c:110-114 | a node linked to itself is a ring of one |
| GenUtilsCSLL.NextOfHeld | src/lib/GenUtils/CSLL.c:254-255 | a list node's `nextNode` is the node at the next place on the ring |
| GenUtilsCSLL.EndsOfHeld | src/lib/GenUtils/CSLL.c:215-222 | a node is the head exactly at place 0 and the tail exactly at the last place |
| GenUtilsCSLL.HeldHasSuccessor | src/lib/GenUtils/CSLL.c:194-195 | a list node never has a NULL `nextNode`, so that guard only refuses NULL and foreign nodes |
| GenUtilsCSLL.TailLinksToHead | src/lib/GenUtils/CSLL.c:210-214 | the tail's `nextNode` is the head, so the walk from `End` starts right before the head |
| GenUtilsCSLL.WasInit | src/lib/GenUtils/CSLL.c:54-62 | true exactly for a non-NULL handle |
| GenUtilsCSLL.GetSize | src/lib/GenUtils/CSLL.c:32-40 | the number of elements; 0 for NULL |
| GenUtilsCSLL.IsEmpty | src/lib/GenUtils/CSLL.c:43-51 | true exactly for an initialized list without elements (false for NULL) |
| GenUtilsCSLL.Begin | src/lib/GenUtils/CSLL.c:65-73 | the node at place 0; NULL exactly for NULL or an empty list |
| GenUtilsCSLL.End | src/lib/GenUtils/CSLL.c:76-84 | the node at the last place; NULL exactly for NULL or an empty list |
| GenUtilsCSLL.InsertFirst | src/lib/GenUtils/CSLL.c:103-115 | the empty case: one new node, linked to itself, both head and tail, holding `d` |
| GenUtilsCSLL.LinkBefore | src/lib/GenUtils/CSLL.c:117-133 | inserting at a node: contents `InsertAt(p, d)`; the tail moves to the new node iff the node was the tail |
| GenUtilsCSLL.LinkAfter | src/lib/GenUtils/CSLL.c:168-183 | inserting after a node: contents `InsertAt(p + 1, d)`; the tail moves iff the node was the tail |
| GenUtilsCSLL.Insert | src/lib/GenUtils/CSLL.c:87-135 | true exactly for an initialized list that is empty or given a node; then `d` takes the node's place and the size grows by one; unchanged when false |
| GenUtilsCSLL.InsertAfter | src/lib/GenUtils/CSLL.c:139-185 | the same guard; then `d` follows the node |
| GenUtilsCSLL.Reset | src/lib/GenUtils/CSLL.c:199-206 | removing the only element leaves an empty list with NULL head and tail |
| GenUtilsCSLL.Unlink | src/lib/GenUtils/CSLL.c:223-225 | linking the predecessor past the node removes place `p` from the order and the contents |
| GenUtilsCSLL.FindPredecessor | src/lib/GenUtils/CSLL.c:210-214 | the walk from the tail stops at the node before `node` on the ring |
| GenUtilsCSLL.Remove | src/lib/GenUtils/CSLL.c:188-228 | true exactly for an initialized list and a non-NULL node; the contents lose the node's element; the head moves on iff it was removed; the tail moves back iff it was removed; unchanged when false |
| GenUtilsCSLL.RemoveAfter | src/lib/GenUtils/CSLL.c:231-269 | the same guard; the element after the node leaves (the node itself in a list of one), with the same head and tail rules |
| GenUtilsCSLL.PushBack | src/lib/GenUtils/CSLL.c:272-277 | true exactly for a non-NULL list; then the contents gain `d` at the end |
| GenUtilsCSLL.PushFront | src/lib/GenUtils/CSLL.c:280-285 | true exactly for a non-NULL list; then the contents gain `d` at the front |
| GenUtilsCSLL.PopBack | src/lib/GenUtils/CSLL.c:288-296 | returns the last element's data (NULL for NULL or empty) and drops the last element |
| GenUtilsCSLL.PopBackBool | src/lib/GenUtils/CSLL.c:299-302 | drops the last element; true exactly when there was one |
| GenUtilsCSLL.PopFront | src/lib/GenUtils/CSLL.c:305-313 | returns the first element's data (NULL for NULL or empty) and drops it |
| GenUtilsCSLL.PopFrontBool | src/lib/GenUtils/CSLL.c:316-320 | drops the first element; true exactly when there was one |
| GenUtilsCSLL.Clear | src/lib/GenUtils/CSLL.c:323-329 | afterwards the list is empty, with NULL head and tail |
| GenUtilsCSLL.Iterate | src/lib/GenUtils/CSLL.c:332-352 | the visitor gets the elements' data in list order; no call for a NULL list or visitor |
| UtilsCSLL.WasInit | src/lib/Utils/Utils_CSLL.c:54-62 | true exactly for a non-NULL handle |
| UtilsCSLL.GetSize | src/lib/Utils/Utils_CSLL.c:32-40 | the number of elements; 0 for NULL |
| UtilsCSLL.IsEmpty | src/lib/Utils/Utils_CSLL.c:43-51 | true exactly for an initialized list without elements |
| UtilsCSLL.Begin | src/lib/Utils/Utils_CSLL.c:65-73 | the node at place 0; NULL for NULL or an empty list |
| UtilsCSLL.End | src/lib/Utils/Utils_CSLL.c:76-84 | the node at the last place; NULL for NULL or an empty list |
| UtilsCSLL.Insert | src/lib/Utils/Utils_CSLL.c:87-135 | the contract of `GenUtilsCSLL.Insert`: refused on a NULL handle or node; an empty list becomes one self-linked node holding `d`; otherwise `d` takes the node's place, the node order gains the new node after it, the head is kept and the tail moves to the new node iff the node was the tail |
| UtilsCSLL.InsertAfter | src/lib/Utils/Utils_CSLL.c:139-185 | the contract of `GenUtilsCSLL.InsertAfter`: refused on a NULL handle or node; an empty list becomes one self-linked node holding `d`; otherwise `d` and its node follow the node in the contents and the order, the head is kept and the tail moves iff the node was the tail |
| UtilsCSLL.Remove | src/lib/Utils/Utils_CSLL.c:188-228 | the contract of `GenUtilsCSLL.Remove`: refused unchanged on a NULL handle or node; otherwise the node leaves the order and its element the contents; a list of one is reset; the head advances iff the node was the head, and the tail moves to the predecessor iff it was the tail |
| UtilsCSLL.RemoveAfter | src/lib/Utils/Utils_CSLL.c:231-269 | the contract of `GenUtilsCSLL.RemoveAfter`: refused unchanged on a NULL handle or node; otherwise the successor leaves the order and the contents; a list of one is reset; the head advances iff the node was the tail, and the tail becomes the node iff the successor was the tail |
| UtilsCSLL.PushBack | src/lib/Utils/Utils_CSLL.c:272-276 | the contents gain `d` at the end |
| UtilsCSLL.PushFront | src/lib/Utils/Utils_CSLL.c:285-289 | the contents gain `d` at the front |
| UtilsCSLL.PopBack | src/lib/Utils/Utils_CSLL.c:279-282 | drops the last element; true exactly when there was one |
| UtilsCSLL.PopFront | src/lib/Utils/Utils_CSLL.c:292-295 | drops the first element; true exactly when there was one |
| UtilsCSLL.Clear | src/lib/Utils/Utils_CSLL.c:298-304 | afterwards the list is empty |
| UtilsCSLL.PushFrontPhase | src/tests/CSLL.c:24-51 | five pushes at the front of an empty list all succeed and leave elements 4 down to 0 |
| UtilsCSLL.PushBackPhase | src/tests/CSLL.c:53-80 | five pushes at the back all succeed and append elements 5 up to 9 |
| UtilsCSLL.InsertAfterHeadStep | src/tests/CSLL.c:82-110 | the insertion of `array[3 + i]` after the head succeeds and puts it in front of the ones inserted before it |
| UtilsCSLL.InsertAfterHeadPhase | src/tests/CSLL.c:82-110 | five insertions after the head put elements 7 down to 3 right after it |
| UtilsCSLL.PopFrontPhase | src/tests/CSLL.c:112-141 | three pops at the front succeed and drop the first three elements |
| UtilsCSLL.PopBackPhase | src/tests/CSLL.c:143-171 | three pops at the back succeed and drop the last three elements |
| UtilsCSLL.RemoveAfterHeadStep | src/tests/CSLL.c:173-201 | one removal after the head succeeds and drops the second element |
| UtilsCSLL.RemoveAfterHeadPhase | src/tests/CSLL.c:173-201 | two removals after the head drop the second and third elements |
| UtilsCSLL.DriverRun | src/tests/CSLL.c:8-205 | the whole driver passes every check and ends with the elements 5, 3, 2, 1, 0, 5, 6 |
| DriverStages.AfterPushFrontValue | src/tests/CSLL.c:24-51 | after the first phase the list is 4, 3, 2, 1, 0 |
| DriverStages.AfterPushBackValue | src/tests/CSLL.c:53-80 | after the second phase: 4, 3, 2, 1, 0, 5, 6, 7, 8, 9 |
| DriverStages.AfterInsertAfterHeadValue | src/tests/CSLL.c:82-110 | after the third phase: 4, 7, 6, 5, 4, 3, 3, 2, 1, 0, 5, 6, 7, 8, 9 |
| DriverStages.AfterPopsValue | src/tests/CSLL.c:112-171 | after the pops: 5, 4, 3, 3, 2, 1, 0, 5, 6 |
| DriverStages.AfterRemoveAfterHeadValue | src/tests/CSLL.c:173-201 | at the end: 5, 3, 2, 1, 0, 5, 6 |
| GenUtilsCDLL.SecondsAfterInsert | src/lib/GenUtils/CDLL.c:124-128 | after a splice at place `i`, every node's `second` points at the next place |
| GenUtilsCDLL.FirstsAfterInsert | src/lib/GenUtils/CDLL.c:124-128 | after a splice at place `i`, every node's `first` points at the previous place |
| GenUtilsCDLL.RingInsert | src/lib/GenUtils/CDLL.c:124-128 | splicing a new node in between two neighbours keeps the doubly linked ring closed and duplicate-free |
| GenUtilsCDLL.SecondsAfterRemove | src/lib/GenUtils/CDLL.c:211-212 | after unlinking place `p`, every `second` points at the next remaining place |
| GenUtilsCDLL.FirstsAfterRemove | src/lib/GenUtils/CDLL.c:211-212 | after unlinking place `p`, every `first` points at the previous remaining place |
| GenUtilsCDLL.RingRemove | src/lib/GenUtils/CDLL.c:211-212 | linking the neighbours to each other closes the ring without the node |
| GenUtilsCDLL.DataInsert | src/lib/GenUtils/CDLL.c:124 | a new node holding `d` at place `i` puts `d` at index `i` of the contents |
| GenUtilsCDLL.DataRemove | src/lib/GenUtils/CDLL.c:211-214 | unlinking moves no data: the contents lose exactly that element |
| GenUtilsCDLL.OneNodeRing | src/lib/GenUtils/CDLL.c:110-113 | a node linked to itself both ways is a ring of one |
| GenUtilsCDLL.CDLL.constructor | src/lib/GenUtils/CDLL.c:7-21 | a new list: no head, size 0 |
| GenUtilsCDLL.LinksOfHeld | src/lib/GenUtils/CDLL.c:125-128 | a list node's `second` is the next place's node and its `first` the previous place's |
| GenUtilsCDLL.DoublyLinked | src/lib/GenUtils/CDLL.c:211-212 | from any node, going forward then back, or back then forward, returns to it |
| GenUtilsCDLL.HeldHasSuccessor | src/lib/GenUtils/CDLL.c:192-193 | a list node never has a NULL `second`, so that guard only refuses NULL and foreign nodes |
| GenUtilsCDLL.HeadOfHeld | src/lib/GenUtils/CDLL.c:207-210 | a node is the head exactly at place 0 |
| GenUtilsCDLL.WasInit | src/lib/GenUtils/CDLL.c:53-61 | true exactly for a non-NULL handle |
| GenUtilsCDLL.GetSize | src/lib/GenUtils/CDLL.c:31-39 | the number of elements; 0 for NULL |
| GenUtilsCDLL.IsEmpty | src/lib/GenUtils/CDLL.c:42-50 | true exactly for an initialized list without elements (false for NULL) |
| GenUtilsCDLL.Begin | src/lib/GenUtils/CDLL.c:64-72 | the node at place 0; NULL exactly for NULL or an empty list |
| GenUtilsCDLL.End | src/lib/GenUtils/CDLL.c:75-84 | the head's `first` is the node at the last place; NULL exactly for NULL or an empty list |
| GenUtilsCDLL.InsertFirst | src/lib/GenUtils/CDLL.c:103-115 | the empty case: one new node, linked to itself both ways, the head, holding `d` |
| GenUtilsCDLL.LinkBefore | src/lib/GenUtils/CDLL.c:117-134 | inserting before the node at place `p`: contents `InsertAt(p, d)`; the new node becomes the head iff the node was the head |
| GenUtilsCDLL.LinkAfter | src/lib/GenUtils/CDLL.c:170-183 | inserting after the node at place `p`: contents `InsertAt(p + 1, d)`; the head is unchanged |
| GenUtilsCDLL.Insert | src/lib/GenUtils/CDLL.c:87-136 | true exactly for an initialized list that is empty or given a node; then `d` goes before the node and the size grows by one; unchanged when false |
| GenUtilsCDLL.InsertAfter | src/lib/GenUtils/CDLL.c:140-185 | the same guard; then `d` follows the node |
| GenUtilsCDLL.Reset | src/lib/GenUtils/CDLL.c:198-203 | removing the only element leaves an empty list with a NULL head |
| GenUtilsCDLL.Unlink | src/lib/GenUtils/CDLL.c:211-214 | linking the node's neighbours to each other removes place `p` from the order and the contents |
| GenUtilsCDLL.Remove | src/lib/GenUtils/CDLL.c:188-217 | true exactly for an initialized list and a non-NULL node; the contents lose the node's element; the head moves to its `second` iff it was removed; unchanged when false |
| GenUtilsCDLL.RemoveAfter | src/lib/GenUtils/CDLL.c:220-229 | the same guard; the node's `second` leaves (the node itself in a list of one), with the same head rule |
| GenUtilsCDLL.PushBack | src/lib/GenUtils/CDLL.c:232-237 | true exactly for a non-NULL list; then the contents gain `d` at the end |
| GenUtilsCDLL.PushFront | src/lib/GenUtils/CDLL.c:240-245 | true exactly for a non-NULL list; then `d` is the new first element |
| GenUtilsCDLL.PopBack | src/lib/GenUtils/CDLL.c:248-256 | returns the last element's data (NULL for NULL or empty) and drops the last element |
| GenUtilsCDLL.PopBackBool | src/lib/GenUtils/CDLL.c:259-262 | drops the last element; true exactly when there was one |
| GenUtilsCDLL.PopFront | src/lib/GenUtils/CDLL.c:265-269 | drops the first element; true exactly when there was one |
| GenUtilsCDLL.Clear | src/lib/GenUtils/CDLL.c:272-278 | afterwards the list is empty with a NULL head |
| GenUtilsCDLL.Iterate | src/lib/GenUtils/CDLL.c:281-301 | the visitor gets the elements' data in list order; no call for a NULL list or visitor |
| UtilsCDLL.WasInit | src/lib/Utils/CDLL.c:53-61 | true exactly for a non-NULL handle |
| UtilsCDLL.GetSize | src/lib/Utils/CDLL.c:31-39 | the number of elements; 0 for NULL |
| UtilsCDLL.IsEmpty | src/lib/Utils/CDLL.c:42-50 | true exactly for an initialized list without elements |
| UtilsCDLL.Begin | src/lib/Utils/CDLL.c:64-72 | the node at place 0; NULL for NULL or an empty list |
| UtilsCDLL.End | src/lib/Utils/CDLL.c:75-84 | the head's `prevNode`, the node at the last place; NULL for NULL or an empty list |
| UtilsCDLL.Insert | src/lib/Utils/CDLL.c:87-136 | the contract of `GenUtilsCDLL.Insert`: refused on a NULL handle or node; an empty list gets one node holding `d` as head; otherwise `d` and its node go before the node in the contents and the order, and the new node is the head iff the node was |
| UtilsCDLL.InsertAfter | src/lib/Utils/CDLL.c:140-185 | the contract of `GenUtilsCDLL.InsertAfter`: refused on a NULL handle or node; an empty list gets one node holding `d` as head; otherwise `d` and its node follow the node in the contents and the order, and the head is kept |
| UtilsCDLL.Remove | src/lib/Utils/CDLL.c:188-217 | the contract of `GenUtilsCDLL.Remove`: refused unchanged on a NULL handle or node; otherwise the node leaves the order and its element the contents; a list of one gets a NULL head; the head advances iff the node was the head |
| UtilsCDLL.RemoveAfter | src/lib/Utils/CDLL.c:220-229 | the contract of `GenUtilsCDLL.RemoveAfter`: refused unchanged on a NULL handle or node; otherwise the `nextNode` leaves the order and the contents; a list of one gets a NULL head; the head advances iff the removed node was the head |
| UtilsCDLL.PushBack | src/lib/Utils/CDLL.c:232-236 | the contents gain `d` at the end |
| UtilsCDLL.PopBack | src/lib/Utils/CDLL.c:239-242 | drops the last element; true exactly when there was one |
| UtilsCDLL.PushFront | src/lib/Utils/CDLL.c:245-249 | the contents gain `d` at the front |
| UtilsCDLL.PopFront | src/lib/Utils/CDLL.c:252-255 | drops the first element; true exactly when there was one |
| UtilsCDLL.Clear | src/lib/Utils/CDLL.c:258-264 | afterwards the list is empty |
| UtilsCDLL.Iterate | src/lib/Utils/CDLL.c:267-286 | the visitor gets the elements' data in list order |
| UtilsCDLL.PushFrontPhase | src/tests/CDLL.c:24-51 | five pushes at the front of an empty list all succeed and leave elements 4 down to 0 |
| UtilsCDLL.PushBackPhase | src/tests/CDLL.c:53-80 | five pushes at the back all succeed and append elements 5 up to 9 |
| UtilsCDLL.InsertAfterHeadStep | src/tests/CDLL.c:82-110 | the insertion of `array[3 + i]` after the head succeeds and puts it in front of the ones inserted before it |
| UtilsCDLL.InsertAfterHeadPhase | src/tests/CDLL.c:82-110 | five insertions after the head put elements 7 down to 3 right after it |
| UtilsCDLL.PopFrontPhase | src/tests/CDLL.c:112-141 | three pops at the front succeed and drop the first three elements |
| UtilsCDLL.PopBackPhase | src/tests/CDLL.c:143-171 | three pops at the back succeed and drop the last three elements |
| UtilsCDLL.RemoveAfterHeadStep | src/tests/CDLL.c:173-201 | one removal after the head succeeds and drops the second element |
| UtilsCDLL.RemoveAfterHeadPhase | src/tests/CDLL.c:173-201 | two removals after the head drop the second and third elements |
| UtilsCDLL.DriverRun | src/tests/CDLL.c:8-205 | the whole driver passes every check and ends with the elements 5, 3, 2, 1, 0, 5, 6 |
| GenUtilsStack.Create | src/lib/GenUtils/Stack.c:8-11 | a new, empty stack |
| GenUtilsStack.WasInit | src/lib/GenUtils/Stack.c:14-17 | true exactly for a non-NULL handle |
| GenUtilsStack.GetSize | src/lib/GenUtils/Stack.c:26-29 | the number of elements; 0 for NULL |
| GenUtilsStack.IsEmpty | src/lib/GenUtils/Stack.c:32-35 | true exactly for an initialized stack without elements |
| GenUtilsStack.Push | src/lib/GenUtils/Stack.c:38-42 | `d` becomes the top; true exactly for a non-NULL stack |
| GenUtilsStack.Pop | src/lib/GenUtils/Stack.c:45-48 | as written: the top is dropped, but the result is true only when the dropped data was not NULL |
| GenUtilsStack.PopBool | src/lib/GenUtils/Stack.c:51-54 | the top is dropped; true exactly when there was one |
| GenUtilsStack.Top | src/lib/GenUtils/Stack.c:57-65 | the data of the last element; NULL for NULL or an empty stack |
| GenUtilsStack.Clear | src/lib/GenUtils/Stack.c:68-71 | afterwards the stack is empty |
| GenUtilsStack.PushThenPop | src/lib/GenUtils/Stack.c:38-65 | last in, first out: after a push the top is the pushed data, and a pop restores the stack |
| GenUtilsStack.PopOfNullTop | src/lib/GenUtils/Stack.c:45-48 | popping a stack whose only element is NULL empties it yet returns false |
| GenUtilsStack.PopBoolOfNullTop | src/lib/GenUtils/Stack.c:51-54 | the same pop through `PopBool` empties the stack and returns true |
| UtilsStack.Create | src/lib/Utils/Stack.c:8-11 | a new, empty stack |
| UtilsStack.WasInit | src/lib/Utils/Stack.c:14-17 | true exactly for a non-NULL handle |
| UtilsStack.GetSize | src/lib/Utils/Stack.c:26-29 | the number of elements; 0 for NULL |
| UtilsStack.IsEmpty | src/lib/Utils/Stack.c:32-35 | true exactly for an initialized stack without elements |
| UtilsStack.Push | src/lib/Utils/Stack.c:38-41 | `d` becomes the top; true exactly for a non-NULL stack |
| UtilsStack.Pop | src/lib/Utils/Stack.c:44-47 | the top is dropped; true exactly when there was one |
| UtilsStack.Top | src/lib/Utils/Stack.c:50-57 | the data of the last element; NULL for NULL or an empty stack |
| UtilsStack.Clear | src/lib/Utils/Stack.c:60-63 | afterwards the stack is empty |
| UtilsStack.PushTwicePopTwice | src/lib/Utils/Stack.c:38-57 | last in, first out: pushing `a` then `b` gives back `b` then `a`, and the stack is restored |

## Left out

- Allocation failure: `malloc` never returns NULL in the model, so the `return false`/NULL paths taken when it does are absent.
- Freeing: `free` is not modelled. A removed node's record stays in the arena but is no longer on the list's order or the tree's shape, so it is never reached again.
- The difference in ownership of the removed record between the tree's `Remove` and `RemoveBool` is not modelled; both return what the same removal finds.
- Node handles that are not NULL and not nodes of the given list are excluded by the `requires` of `Insert`, `InsertAfter`, `Remove` and `RemoveAfter`. C cannot check this. On such a node the singly linked `Remove` walk never ends.
- `Destroy` (all containers) is `Clear` followed by `free` of the handle. Beyond `Clear`, it only frees memory, so it is not modelled separately.
- Visitors are function pointers. The model keeps only whether the pointer is NULL, and returns the sequence of calls (record or data, plus extradata) it would receive. What the visitor does is outside the model.
- `printf`/`puts` output of the drivers is not modelled. In the last phase the driver announces the head's data (`End(list)->nextNode`) as the removed integer, although it removes the head's successor. The contracts state what is actually removed.
- The driver's `main` returns early on a failed check. The model instead proves that no check fails, so the early exits are unreachable.
- Header declarations that the code does not implement are not modelled:
  - `src/include/GenUtils/CDLL.h:120` declares `PopFront` as returning `void *`, but the code returns `bool`; the code's form is modelled.
  - `src/include/GenUtils/CDLL.h:125` declares a `PopFrontBool` that has no definition.
  - `src/include/Utils/CSLL.h:126` declares a `Utils_CSLLIterate` that `Utils_CSLL.c` does not define.
- `GenUtils_CDLLPopBack` reads the tail's user data through a `GenUtils_SingleNode *` (`src/lib/GenUtils/CDLL.c:251`). This is harmless because `userdata` is the first field of both node types, so the model reads the data directly.
- `GenUtils_BinaryTreeToArray` calls `malloc(0)` for an empty tree. The model returns an empty array, as when `malloc(0)` gives a non-NULL pointer.
- `GenUtils_BinaryTreeClear(NULL)` and `GenUtils_BinaryTreeBalance(NULL)` dereference NULL in C, and so does `GenUtils_BinaryTreeFromArray` given a NULL array with a non-zero size. The model requires non-NULL arguments there, and so also leaves out a NULL array with size 0, which C turns into an empty tree.
- `GenUtils_BinaryTreeInternalClear` also frees each node's key/value record. Records are not modelled as separate allocations, so only the freed nodes are.
- `GenUtils_BinaryTreeGet` returns the whole key/value record, although the header says the value. The model returns the record, as the code does, but as a copy: the C pointer aliases the stored record, so a caller can overwrite its value through it as `Set` does, and the model does not capture that aliasing.
- Integer widths: `size_t` sizes and indices are unbounded `nat`. No container here can reach a size where wrap-around matters.
- GenUtilsBinaryTree.FromArray: stated for the repaired `Insert`. With `Insert` as written, the first insertion into the new, empty tree is refused, so `FromArray` returns NULL for every non-empty array (first finding).
- GenUtilsBinaryTree.Balance: stated for the repaired `Insert` and the repaired in-order traversal, through `ToArray` and `FromArray`.
- GenUtilsBinaryTree.ToArray: stated for the repaired in-order traversal. As written, the in-order helper passes the array-info pointer where the visitor goes, and calls it as a function (fourth finding, `BinaryTreeAsWritten.ExtradataCalledAsFunction`).
- BinaryTreeAsWritten.RelinkAsWritten: its own contract states only that the heap keeps its size. Its effect is given by `RelinkAsWrittenAfterSecondSteps`, `ImmediatePredecessorSelfLoop` and `ThreeNodesSelfLoop`.

## Findings

| source | as written | input that shows it | evidently intended | confidence | as-written member | corrected member |
|---|---|---|---|---|---|---|
| src/lib/GenUtils/BinaryTree.c:235-295 | the insertion loop is skipped for an empty tree, and the function returns false | any record inserted into a new tree | a new tree's first insertion makes the record the root and returns true | high, not executed | BinaryTreeAsWritten.InsertIntoEmptyTreeRefused | GenUtilsBinaryTree.Insert |
| src/lib/GenUtils/BinaryTree.c:249-262 | the new leaf's `userdata` is never set to the inserted record | inserting "b" into the tree holding only "a" | the new leaf holds the inserted key/value record | high, not executed | BinaryTreeAsWritten.InsertAsWrittenLeavesLeafBlank | GenUtilsBinaryTree.AttachLeaf |
| src/lib/GenUtils/BinaryTree.c:405-410 | with no `second` step, `previousReplaceNode` becomes the replacement node itself, whose `first` is then set to itself | removing "b" from the tree "b" with children "a" and "c" | the promoted node takes the removed node's children | high, not executed | BinaryTreeAsWritten.ThreeNodesSelfLoop | GenUtilsBinaryTree.UnlinkDouble |
| src/lib/GenUtils/BinaryTree.c:680-728 | the traversal helpers recurse through the preorder helper with `extradata` and `visitor` swapped | any tree of two or more nodes with a non-NULL visitor | each helper visits the whole subtree in its own order, calling `visitor(record, extradata)` | high, not executed | BinaryTreeAsWritten.TraversalHelpersDiverge | GenUtilsBinaryTree.InorderFrom |
| src/lib/GenUtils/Stack.c:45-48 | `GenUtils_StackPop` returns the `void *` of `GenUtils_CDLLPopBack` as a `bool` | a stack holding one NULL element: it is emptied, but the pop returns false | true on success, as `src/include/GenUtils/Stack.h:46-51` documents | high, not executed | GenUtilsStack.PopOfNullTop | GenUtilsStack.PopBool |
