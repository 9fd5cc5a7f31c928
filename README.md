# localSync core in Dafny

This project models the core of localSync, a client-side record store. It has three parts.

- **An AVL tree** (`avltree.js`): a height-balanced binary search tree. Its nodes carry parent links, a `height` and a `weight` (the size of their subtree).
- **A skip list** (`SkipList.js`): a multi-level forward-linked list with a level-0 back link, a `count` and a current `level`.
- **`LocalStore`** (`LocalStore.js`): records kept in a key/value storage under `prefix + ":" + id`.
  - Named skip-list indexes run over the records' fields.
  - A `sync` operation reconciles the stored records with an incoming list.

## How the model is built

**AVL tree** (`AvlTrees.AvlTree`)
- The class holds a node arena (`nodes`, with handles as indices and `Nil` as -1) and a `root` handle.
- A ghost `shape` holds the tree of handles that the links lay out.
- `Valid()` says the following:
  - the links lay out a balanced shape without repeated handles;
  - every node's `height` and `weight` are those of its subtree;
  - the in-order values are sorted by the tree's less-than.
- The pure shape functions `RotL`, `RotR` and `RebalanceShape` (module `AvlShapes`) carry the AVL arithmetic.
- The relinking methods (module `AvlRebalance`) are proved to lay out those shapes.

**Skip list** (`SkipLists.SkipList`)
- The class holds the header's forward array (`head`), a node arena, `count`, `level`, and the ghost level-0 order of handles `elems`.
- Its invariant (`SkipLevels.Wf`) says:
  - every level's chain is the sub-sequence of level 0 made of the nodes tall enough for it;
  - `prev` is the level-0 predecessor;
  - the keys are sorted;
  - `level` is the highest level the header links;
  - `count` is the length.

**Store** (`LocalStores.LocalStore`)
- The class holds a `storage: map<string, Record>` and `indexes: map<string, SkipListIndex>`.
- Its invariant: each index holds exactly one `(transform(value), storage key)` entry per stored record of the store that owns the indexed field (`StoreSpecs.SyncedWith`).
- Records are maps from field names to strings.

**Inputs made explicit**
- The random level of a skip-list insert is a parameter: `lvl`, or `draw` for the store's operations.
- The storage engine is the `storage` field.

## Behaviour kept as the code has it

- `init` refuses a prefix or key field that is non-empty and all white space. An empty string passes, because `isEmpty("")` is falsy (LocalStore.js:15-17). The error message nevertheless says the prefix "must not be empty".
- `storageEach` selects keys that start with the bare prefix, without the colon (LocalStore.js:571). A key `"pre2:x"` therefore belongs to store `"pre"`.

## Model

| member | source | states |
|---|---|---|
| `Common.ComparatorIsStrictWeakOrder` | SkipList.js:72-96 | a three-way comparison meeting the comparator contract stands for a strict weak order whose "equal" is "neither is less" |
| `AvlTrees.DerivedComparators` | avltree.js:53-86 | under a strict weak order, the derived equality is an equivalence, `<=` is "not greater" and `>=` is `<=` flipped |
| `AvlTrees.InsertSortedSorted` | avltree.js:114-143 | inserting after the equal values keeps the in-order sequence sorted and adds exactly the one value |
| `AvlTrees.FirstMatch` | avltree.js:145-163 | the position returned holds a value equal to `v` that `pred` accepts, and no earlier position does; `None` means no position does |
| `AvlTrees.RemoveAsWrittenDeletesUnequal` | avltree.js:145-163 | as written, `remove(1, n => n.value == 2)` (the value predicate `x => x == 2`) on the tree {1, 2} deletes 2, which is not equal to 1 |
| `AvlTrees.ScanFindsFirstMatch` | avltree.js:151-163 | the successor scan from the lower bound, with the equality check, stops exactly at `FirstMatch` |
| `AvlTrees.Walk` | avltree.js:250-257 | the recursive walk yields the values of the in-order sequence of the shape |
| `AvlTrees.RankFrom` | avltree.js:258-275 | rank k in 1..size gives the k-th in-order value, a larger rank `None`, and an empty subtree or a rank below 1 an error |
| `AvlTrees.FirstRootHeightAsWritten` | avltree.js:114-117 | as written, the first root records height 0, while `_update_metadata` gives the same lone node height 1 |
| `AvlTrees.AvlTree.constructor` | avltree.js:88-98 | a new tree is valid and empty |
| `AvlTrees.AvlTree.GetHeight` | avltree.js:544-547 | the height of the balanced shape |
| `AvlTrees.AvlTree.GetLength` | avltree.js:548-551 | the number of stored values |
| `AvlTrees.AvlTree.FindByRank` | avltree.js:202-205 | the rank-th value in order; `None` beyond the last; an error on an empty tree or a rank below 1 |
| `AvlTrees.AvlTree.ForEach` | avltree.js:246-249 | the values handed to `proc` are the stored values in sorted in-order |
| `AvlTrees.AvlTree.Clear` | avltree.js:206-209 | the tree is valid and holds no value |
| `AvlTrees.AvlTree.LowerBound` | avltree.js:170-185 | the node at the first in-order position whose value is not less than `v`, `Nil` if there is none |
| `AvlTrees.AvlTree.LowerBoundIn` | avltree.js:170-185 | the descent loop of `lower_bound` on the arena finds that position |
| `AvlTrees.AvlTree.UpperBound` | avltree.js:186-201 | the node at the first in-order position whose value is greater than `v`, `Nil` if there is none |
| `AvlTrees.AvlTree.UpperBoundIn` | avltree.js:186-201 | the descent loop of `upper_bound` on the arena finds that position |
| `AvlTrees.AvlTree.FindNode` | avltree.js:430-438 | the lower bound when it is equal to `v`, else `Nil`; `Nil` exactly when no stored value equals `v` |
| `AvlTrees.AvlTree.Find` | avltree.js:165-169 | `Nil` exactly when no stored value equals `v`, otherwise a node holding an equal value |
| `AvlTrees.AvlTree.Successor` | avltree.js:332-348 | the node after `h` in in-order, `Nil` after the last |
| `AvlTrees.AvlTree.SuccessorIn` | avltree.js:332-348 | the same on the arena: the leftmost node of the right subtree, or the parent where the climb leaves a left child |
| `AvlTrees.AvlTree.Leftmost` | avltree.js:333-338 | the descent reaches the first in-order node of the subtree |
| `AvlTrees.AvlTree.ClimbRight` | avltree.js:339-346 | the climb reaches the node after the subtree in in-order, `Nil` at the end |
| `AvlTrees.AvlTree.Predecessor` | avltree.js:349-365 | the node before `h` in in-order, `Nil` before the first |
| `AvlTrees.AvlTree.PredecessorIn` | avltree.js:349-365 | the same on the arena |
| `AvlTrees.AvlTree.Rightmost` | avltree.js:350-355 | the descent reaches the last in-order node of the subtree |
| `AvlTrees.AvlTree.ClimbLeft` | avltree.js:356-363 | the climb reaches the node before the subtree in in-order, `Nil` at the start |
| `AvlTrees.AvlTree.Insert` | avltree.js:114-144 | the tree stays valid (balanced, metadata right, sorted), and the values become the old ones with `v` inserted after its equals |
| `AvlTrees.AvlTree.InsertIn` | avltree.js:114-144 | the same on the arena: the result lays out a balanced, ordered shape whose values are `InsertSorted` of the old ones |
| `AvlTrees.AvlTree.InsertDescend` | avltree.js:119-129 | the descent ends at the leaf position after every value not greater than `v`, on the side `lt(v, prev.value)` chooses |
| `AvlTrees.AvlTree.AttachLeaf` | avltree.js:131-139 | the new node is appended to the arena with value `v` and hung at that leaf position; other values are unchanged |
| `AvlTrees.AvlTree.InsertValues` | avltree.js:114-144 | after the climb the in-order values are the old ones with `v` at its upper bound, and they are sorted |
| `AvlTrees.AvlTree.Remove` | avltree.js:145-164 | deletes the first value equal to `v` that `pred` accepts and returns true; with no such value it returns false and the values are unchanged; the tree stays valid |
| `AvlTrees.AvlTree.SkipRejected` | avltree.js:153-155 | the scan passes exactly the equal values `pred` rejects and stops at the first value that is not equal or is accepted |
| `AvlTrees.AvlTree.RemoveNode` | avltree.js:276-331 | `_remove` drops exactly the value at in-order position `i`, and the tree stays valid |
| `AvlTrees.AvlTree.RemoveNodeIn` | avltree.js:276-331 | the same on the arena; with at most one child no stored value moves; with two children the successor's value takes the node's place |
| `AvlTrees.AvlTree.Unlink` | avltree.js:281-318 | a node with at most one child is replaced by that child, and the tree is rebalanced to a balanced shape missing exactly that handle |
| `AvlTrees.AvlTree.Splice` | avltree.js:281-316 | the parent's link, or the root, now holds the child, which points up to the parent; nothing else changes |
| `AvlTrees.AvlTree.ReplaceValue` | avltree.js:319-329 | once the successor is removed, copying its value into the node leaves the in-order values without position `i` |
| `AvlShapes.RotLPreserves` | avltree.js:439-467 | a left rotation keeps the in-order sequence, the handles and distinctness, and a right rotation undoes it |
| `AvlShapes.RotRPreserves` | avltree.js:468-496 | a right rotation keeps the in-order sequence, the handles and distinctness, and a left rotation undoes it |
| `AvlShapes.RebalanceShapeCorrect` | avltree.js:516-543 | from balanced subtrees differing in height by at most two, `_rebalance` gives a balanced tree with the same in-order sequence, unchanged when already balanced |
| `AvlShapes.LeftLeftCase` | avltree.js:521-528 | balance factor 2 with a left child that does not lean right: one right rotation balances |
| `AvlShapes.LeftRightCase` | avltree.js:521-528 | balance factor 2 with a left child that leans right: the double rotation balances and lowers the height by one |
| `AvlShapes.RightRightCase` | avltree.js:529-536 | balance factor -2 with a right child that does not lean left: one left rotation balances |
| `AvlShapes.RightLeftCase` | avltree.js:529-536 | balance factor -2 with a right child that leans left: the double rotation balances and lowers the height by one |
| `AvlShapes.ParentHeightWithinOne` | avltree.js:509-515 | a subtree whose height changed by at most one leaves its parent rebalanceable, with a height within one of the old |
| `AvlArena.BalanceFactorOfShape` | avltree.js:497-508 | after `_update_metadata`, the recorded balance factor is the height difference of the node's subtrees |
| `AvlRebalance.UpdateMetadataLays` | avltree.js:382-404 | `_update_metadata` sets a node's height to one more than its taller child and its weight to the children's weights plus one |
| `AvlRebalance.UpdateMetadataLaid` | avltree.js:382-404 | on a node whose metadata is already right, `_update_metadata` changes nothing |
| `AvlRebalance.Reattach` | avltree.js:443-454 | the child takes the rotated node's place under its parent, or becomes the root; nothing else changes |
| `AvlRebalance.RotateLeft` | avltree.js:439-467 | the arena lays out the left-rotated shape at the same place with fresh metadata, values unchanged, and the root follows a rotation at the top; no other cell changes, the subtree that moves across only gets its parent link and the parent only its child link |
| `AvlRebalance.RotateRight` | avltree.js:468-496 | the mirror image of `RotateLeft`, with the same frame |
| `AvlRebalance.Rebalance` | avltree.js:516-543 | the arena lays out `RebalanceShape` of the node with values unchanged; the node stays on top exactly when its balance factor is within one |
| `AvlRebalance.LeftHeavy` | avltree.js:521-528 | the left-heavy case lays out `RebalanceShape`, moving the node below its new parent |
| `AvlRebalance.StraightenLeft` | avltree.js:523-526 | a left child that leans right is rotated left first |
| `AvlRebalance.RightHeavy` | avltree.js:529-536 | the right-heavy case lays out `RebalanceShape`, moving the node below its new parent |
| `AvlRebalance.StraightenRight` | avltree.js:531-534 | a right child that leans left is rotated right first |
| `AvlRebalance.RebalanceToRoot` | avltree.js:509-515 | climbing from a node to the root leaves a balanced shape with the same in-order handles and no value changed |
| `SkipLevels.WalkLevel` | SkipList.js:150-152 | on one level, the walk stops at the last node before the first key not less than `k` that reaches that level |
| `SkipLevels.FindPreds` | SkipList.js:172-177 | `update[i]` is, at every level, the last node before the first key not less than `k` that reaches level `i` |
| `SkipLists.InRangeSame` | SkipList.js:317-324 | the range from `k` to `k` is exactly the values whose key equals `k` |
| `SkipLists.RangeSlice` | SkipList.js:289-316 | the values walked from the lower bound of `a` up to the first key above `b` are the range `a`..`b` |
| `SkipLists.FirstKeyMatch` | SkipList.js:204-260 | the position returned has a key equal to `k` and a value `p` accepts, and no earlier position does; `None` means no position does |
| `SkipLists.ScanFindsKeyMatch` | SkipList.js:226-258 | the scan from the lower bound past rejected equal keys stops at `FirstKeyMatch` |
| `SkipLists.RandomLevel` | SkipList.js:127-139 | the level is at most 6 and counts the leading successful flips |
| `SkipLists.DefaultCompareIsComparator` | SkipList.js:88-96 | the default compare is a comparator that says "equal" only of equal keys |
| `SkipLists.SkipList.constructor` | SkipList.js:72-126 | a new list is valid and empty, with `count` and `level` 0 |
| `SkipLists.SkipList.Contains` | SkipList.js:140-161 | true exactly when some key compares equal to `k` |
| `SkipLists.SkipList.GetFirst` | SkipList.js:261-288 | the value of the first pair whose key equals `k`; `None` exactly when no key does |
| `SkipLists.SkipList.Add` | SkipList.js:162-203 | the list stays valid (sorted, levels are sub-sequences of level 0, `prev` mirrors level 0); the pair goes right before the first key not less than `k`; `count` grows by one; `level` becomes the larger of old and drawn |
| `SkipLists.SkipList.AddIn` | SkipList.js:162-203 | the same on the fields' values |
| `SkipLists.SkipList.AddAt` | SkipList.js:179-200 | splicing after `update` at each drawn level inserts the pair at the lower bound and keeps the invariant |
| `SkipLists.SkipList.LinkBack` | SkipList.js:194-198 | the new node's `prev` is `update[0]` and its successor's `prev` is the new node |
| `SkipLists.SkipList.Splice` | SkipList.js:188-192 | at each level the new node takes over `update[i]`'s link, which then points to it |
| `SkipLists.SkipList.Remove` | SkipList.js:204-260 | removes the first pair with key `k` that `pred` accepts and decrements `count`; otherwise nothing changes; `level` never grows; the list stays valid |
| `SkipLists.SkipList.RemoveIn` | SkipList.js:204-260 | the same on the fields' values |
| `SkipLists.SkipList.Locate` | SkipList.js:218-258 | the node the search stops at is the one to remove exactly when its key equals `k` |
| `SkipLists.SkipList.SkipRejected` | SkipList.js:226-258 | the scan passes exactly the equal keys whose values `p` rejects, keeping `update` the predecessors at each level |
| `SkipLists.SkipList.Advance` | SkipList.js:251-257 | moving past a node makes `update` the predecessors of the next position |
| `SkipLists.SkipList.Unlink` | SkipList.js:230-244 | taking the node out drops exactly its pair and keeps the invariant, with `level` lowered past empty header links |
| `SkipLists.SkipList.Unsplice` | SkipList.js:230-235 | every predecessor linking to the node takes over its link |
| `SkipLists.SkipList.GetRange` | SkipList.js:289-316 | the values whose keys lie between `a` and `b`, both included, in level-0 order |
| `SkipLists.SkipList.RangeIn` | SkipList.js:289-316 | the same on the fields' values |
| `SkipLists.SkipList.CollectUpTo` | SkipList.js:308-313 | the loop collects the consecutive values up to the first key greater than `b` |
| `SkipLists.SkipList.GetAll` | SkipList.js:317-324 | the values whose key equals `k`, in order |
| `SkipLists.SkipList.ForEach` | SkipList.js:325-335 | every value in level-0 order |
| `SkipLists.SkipList.WalkAll` | SkipList.js:328-334 | the level-0 walk visits every node's value in order |
| `StoreBasics.BinarySearch` | LocalStore.js:4-13 | the least index such that every earlier element compares below `v` and no later one does |
| `StoreBasics.StringLtIsTotalOrder` | SkipList.js:88-96 | string `<` is a strict total order |
| `StoreBasics.StringCompareIsComparator` | SkipList.js:88-96 | the default compare on strings is a comparator that says "equal" only of equal strings |
| `StoreBasics.CmpLtIsTotalOrder` | LocalStore.js:108-117 | `cmpLt` is a strict total order on (key, id) entries |
| `StoreBasics.GenerateKey` | LocalStore.js:331-333 | the key is the prefix, a colon, then the id |
| `StoreBasics.GenerateKeyInjective` | LocalStore.js:331-333 | two ids get the same storage key exactly when they are equal |
| `StoreBasics.GeneratedVisible` | LocalStore.js:571 | a generated key passes `storageEach`'s prefix test |
| `StoreBasics.SyncPartition` | LocalStore.js:36-40 | local-only, shared and incoming-only ids: pairwise disjoint and together all ids |
| `StoreIndexes.ListSorted` | LocalStore.js:207-214 | an index's skip list yields its entries in key order |
| `StoreIndexes.SkipListIndex.constructor` | LocalStore.js:190-205 | an empty index on the field; the transform defaults to the identity and the comparison to the default compare |
| `StoreIndexes.SkipListIndex.Insert` | LocalStore.js:207-214 | an error exactly for an empty key or value, leaving the list unchanged; otherwise the transformed pair joins at its lower bound |
| `StoreIndexes.SkipListIndex.Remove` | LocalStore.js:216-223 | an error exactly for an empty key; otherwise the first entry with the transformed key that `pred` accepts leaves the list, if there is one |
| `StoreIndexes.SkipListIndex.Find` | LocalStore.js:225-228 | the value of the first entry with the transformed key; `None` exactly when there is none |
| `StoreIndexes.SkipListIndex.GetRange` | LocalStore.js:230-237 | the values of the entries between the transformed bounds |
| `StoreIndexes.SkipListIndex.ForEach` | LocalStore.js:239-247 | every value in list order |
| `StoreIndexes.SkipListIndex.Clear` | LocalStore.js:249-254 | a fresh, empty list |
| `StoreSpecs.ExpectedPut` | LocalStore.js:350-362 | storing a record under a new key adds its index entry exactly when it owns the field |
| `StoreSpecs.ExpectedDelete` | LocalStore.js:370-391 | deleting a key removes its index entry, if it had one |
| `StoreSpecs.SyncedEntries` | LocalStore.js:355-362 | an index in step holds one entry per visible record that owns the field, with its transformed value and storage key |
| `StoreSpecs.SyncedValues` | LocalStore.js:462-474 | the values of an index in step are exactly the storage keys of the visible records that own the field |
| `StoreSpecs.SyncedPut` | LocalStore.js:355-362 | inserting the record's entry keeps the index in step with the storage holding the record |
| `StoreSpecs.SyncedUnlink` | LocalStore.js:380-391 | the removal `removeByKey` asks for finds exactly the record's entry and keeps the index in step without the key |
| `StoreSpecs.SyncedDeleteOther` | LocalStore.js:380-391 | deleting a record that does not own the field leaves the index in step |
| `StoreSpecs.SyncedListing` | LocalStore.js:619-639 | the values of a sorted index in step are the keys of the records owning the field, each once, ordered by transformed value |
| `StoreSpecs.SyncedRange` | LocalStore.js:504-533 | the range values of such an index are the keys of the records whose transformed value lies in the range, each once, in order |
| `StoreSpecs.ByIdKeys` | LocalStore.js:653-654 | every record's id is a key of the by-id map, and each key maps to a record with that id |
| `StoreSpecs.ByIdLast` | LocalStore.js:653-654 | the last record with a given id is the one kept |
| `StoreSpecs.SyncSummary` | LocalStore.js:640-681 | deleted: local-only ids that `shouldDelete` accepts; updated: shared ids that `isUpdated` tells apart; created: incoming-only ids; with their records; pairwise disjoint |
| `StoreSpecs.PhasesSummary` | LocalStore.js:34-89 | the three phases, each filtering its part of the partition, record exactly `SyncSummary` |
| `StoreSpecs.CollectedLocal` | LocalStore.js:651-652 | the records `storageEach` visits, keyed by id, cover every stored record's id with a stored record |
| `StoreSpecs.SyncIdempotent` | LocalStore.js:640-681 | with ids as the key field, a store whose records sit under their ids' keys, and an `isUpdated` that never tells a record from itself, a second `sync` of the same items creates and updates nothing, and the storage stays keyed by id |
| `StoreSpecs.SyncKeepsKeyed` | LocalStore.js:640-681 | such a `sync` keeps every record of the store under its own id's key |
| `StoreSpecs.SyncLeavesIncoming` | LocalStore.js:640-681 | after such a `sync`, each incoming id's key holds a record with that id that `isUpdated` does not tell from the incoming one |
| `StoreSpecs.NothingToWrite` | LocalStore.js:34-83 | when every incoming id is local and `isUpdated` tells none apart, the summary creates and updates nothing |
| `StoreSpecs.OutsideSyncKeys` | LocalStore.js:349-355 | the key of an id the summary neither deletes nor writes is not among the keys the sync touches |
| `StoreSpecs.LocalUnderKey` | LocalStore.js:650-652 | on a storage keyed by id, the store's record for an id is the one under that id's key |
| `StoreSpecs.PhasesApplied` | LocalStore.js:640-681 | when ids are the key field, the phases leave the deleted ids' keys absent and the updated and created records under their keys |
| `LocalStores.LocalStore.constructor` | LocalStore.js:257-295 | a store over the given storage, with no index |
| `LocalStores.LocalStore.Init` | LocalStore.js:296-338 | an error exactly for a missing or blank prefix or key field or a missing storage, with the source's messages; otherwise a valid store with no index |
| `LocalStores.LocalStore.StorageEach` | LocalStore.js:558-578 | every stored pair whose key starts with the prefix, each key once |
| `LocalStores.LocalStore.RemoveByKey` | LocalStore.js:365-392 | the id's key leaves the storage (nothing changes if absent), and every index stays in step |
| `LocalStores.LocalStore.UnlinkFrom` | LocalStore.js:374-389 | one index loses the record's entry and is in step with the storage without the key |
| `LocalStores.LocalStore.Remove` | LocalStore.js:393-399 | `removeByKey` of the item's id |
| `LocalStores.LocalStore.AddOrUpdate` | LocalStore.js:339-364 | nothing for a missing item; otherwise the item is stored under its key, replacing a former version, and every index stays in step |
| `LocalStores.LocalStore.Put` | LocalStore.js:350-362 | the record is written under a new key and every index stays in step |
| `LocalStores.LocalStore.LinkInto` | LocalStore.js:355-362 | one index gets the record's entry, if it owns the field, and is in step with the storage holding it |
| `LocalStores.LocalStore.Clear` | LocalStore.js:400-424 | every key starting with the prefix is deleted, other keys stay, and every index is empty |
| `LocalStores.LocalStore.DeleteVisible` | LocalStore.js:405-417 | the keys `storageEach` visits leave the storage, the rest stays |
| `LocalStores.LocalStore.ClearIndexes` | LocalStore.js:419-423 | every index gets an empty list, in step with a storage holding none of the store's keys |
| `LocalStores.LocalStore.AddIndex` | LocalStore.js:446-475 | the new index replaces any of that name, others are untouched, and it holds the storage key of exactly the visible records owning the field |
| `LocalStores.LocalStore.NewIndex` | LocalStore.js:460-474 | a fresh index on the field, in step with the storage |
| `LocalStores.LocalStore.Register` | LocalStore.js:463 | the index is entered under its name and the store stays valid |
| `LocalStores.LocalStore.Fill` | LocalStore.js:466-474 | after the filling loop the index is in step with the storage |
| `LocalStores.LocalStore.RemoveIndex` | LocalStore.js:476-482 | the name leaves the index map; the storage is unchanged |
| `LocalStores.LocalStore.GetRangeByIndex` | LocalStore.js:504-533 | no records for an unknown index; otherwise the records whose transformed field lies between the bounds, each once, in index order |
| `LocalStores.LocalStore.Lookup` | LocalStore.js:523-528 | the record stored under each key, in order |
| `LocalStores.LocalStore.ForEachByIndex` | LocalStore.js:619-639 | nothing for an unknown index; otherwise every record owning the field, each once, in order of its transformed value |
| `LocalStores.LocalStore.Fetch` | LocalStore.js:632-637 | each value paired with the record stored under it |
| `LocalStores.LocalStore.Sync` | LocalStore.js:640-681 | records the `SyncSummary` of the store's records and the incoming ones; the storage changes only under the summary's keys and, when ids are the key field, shows the summary; only the incoming records it may write need non-empty indexed values |
| `LocalStores.LocalStore.Gather` | LocalStore.js:650-655 | the store's records and the incoming ones, each keyed by id |
| `LocalStores.LocalStore.RunPhases` | LocalStore.js:34-89 | the delete, update and create phases together record `SyncSummary` and change only its keys |
| `LocalStores.LocalStore.Collect` | LocalStore.js:653-655 | the records keyed by id, a later one replacing an earlier one |
| `LocalStores.LocalStore.DeletePhase` | LocalStore.js:44-55 | exactly the ids whose local record `shouldDelete` accepts are recorded, and their keys leave the storage; nothing else changes |
| `LocalStores.LocalStore.WritePhase` | LocalStore.js:56-83 | exactly the ids `keep` accepts are recorded and stored with `addOrUpdate`; only their keys change |

## Left out

- JSON encoding and decoding of records (LocalStore.js:355, 378, 574): the storage holds records directly, which amounts to an encoding that round-trips.
- The asynchronous control flow of `sync` (`async.parallel` and `async.forEach`, LocalStore.js:42-88). The actions call back synchronously, so the phases run one after another: delete, update, create. Each runs over a set of ids in an unspecified order, and the final callback's argument is the returned summary.
- `Math.random` in `randomLevel` (SkipList.js:134): the flips are an input of `RandomLevel`, and the store's operations take the drawn level as `draw`.
- `toGraphviz`, `items`, `print` and the user hooks of `_update_metadata` (avltree.js:210-244, 399-401; SkipList.js:336-342): output helpers and foreign callbacks.
- The node `metadata` argument of `insert` (avltree.js:114): it only reaches the hooks.
- `getMin`, `getMax` and the property getters (avltree.js:552-576): they depend on JavaScript getter definitions.
- `get`, `contains`, `getFirstByIndex`, `getAllByIndex`, `map`, `mapByIndex`, `removeFirstByIndex` and `removeRangeByIndex` (LocalStore.js:425-445, 483-503, 534-557, 579-607): these wrap the modelled operations. `getFirstByIndex` dereferences an undefined variable and cannot work as written.
- The tree-backed `LocalStoreIndex` (LocalStore.js:91-188), except `cmpLt`: the store never creates one.
- The store's `forEach` (LocalStore.js:608-618) appears only through `storageEach`, whose pairs it hands on decoded.
- `indexCollection` is a field of each store. In the source it lives on the prototype (LocalStore.js:295), so all stores share it.
- Record values are strings, and string order is `<` on characters. The UTF-16 code-unit order of JavaScript strings is not modelled.
- The storage's iteration order is left open. So `sync`'s `local`, in which the last record with a given id wins, is stated as a `LocalOf` relation rather than as one map.
- `LocalStores.LocalStore.RemoveByKey`: skips indexes on a field the removed record lacks. As written, `removeByKey` calls the index's `remove` with `undefined` and throws part-way (LocalStore.js:390 with 218).
- `LocalStores.LocalStore.AddOrUpdate`: requires that the item has no empty value in an indexed field (`Filled`). As written, the index `insert` throws after the storage has been written (LocalStore.js:207-214), leaving the store half-updated.
- `LocalStores.LocalStore.AddIndex`: requires the same of the stored records it indexes. It also registers the index after filling it, whereas the source registers it first (LocalStore.js:463-474); nothing reads the index in between.
- `LocalStores.LocalStore.Sync`: states the storage's final contents exactly only when the id field is the key field. Otherwise it states that the storage changes only under the deleted ids' keys and the keys the written records are stored under.
- `LocalStores.LocalStore.Sync`: takes `isUpdated` as a required function. The source gives it no default (LocalStore.js:640-646), so a call without it throws a `TypeError` at LocalStore.js:61 as soon as an id is both local and incoming; that error path is not modelled. Idempotence (`StoreSpecs.SyncIdempotent`) is proved only when ids are the key field and every record of the store sits under its own id's key: a stale record under another key with the same id makes a second `sync` see it again.
- `StoreIndexes.SkipListIndex.constructor` and `LocalStores.LocalStore.AddIndex`: take `compareFunction` as a three-way comparison (negative, zero or positive) that is a `Comparator`. The doc comments (LocalStore.js:196-200, 453-458) describe a boolean less-than, but the function is handed unchanged to `new SkipList` (LocalStore.js:205), whose `< 0` and `=== 0` tests (SkipList.js:76-82, 150, 156) need a three-way result. The model follows the code; a boolean less-than as documented is not modelled.
- `AvlTrees.AvlTree.Remove`: `pred` is a predicate on stored values. The source applies `predicate(node)` to the node object (avltree.js:152, 156); its only caller passes `node => predicate(node.value.id)` (LocalStore.js:135-138), which reads the value alone. A predicate that reads a node's height, weight or links is not modelled.
- `LocalStores.LocalStore.Clear`: does not state that the emptied indexes' lists are fresh objects.
- `LocalStores.LocalStore.ForEachByIndex`: does not model an index name that matches a property inherited by `indexCollection`, which the lookup at LocalStore.js:628 would find.
- Node objects are arena handles. The AVL queries return a handle where the source returns the node object.

## Findings

| source | as written | input that shows it | evidently intended | confidence | as-written member | corrected member |
|---|---|---|---|---|---|---|
| avltree.js:153-160 | after skipping equal values that `pred` rejects, `remove` deletes the node it stopped at whenever `pred` accepts it, even when that node is not equal to `value` | tree {1, 2}, `remove(1, n => n.value == 2)` deletes 2 | delete only a node equal to `value` that `pred` accepts | not executed | `AvlTrees.RemoveAsWrittenDeletesUnequal` | `AvlTrees.AvlTree.Remove` |
| avltree.js:116 | the first root is created with height 0, while `_update_metadata` gives a lone node height 1 | `insert(5)` on an empty tree, then `getHeight()` gives 0; the same one-value tree reached by a removal gives 1 | height 1, as every other leaf gets once its metadata is updated | not executed | `AvlTrees.FirstRootHeightAsWritten` | `AvlTrees.AvlTree.InsertIn` |
