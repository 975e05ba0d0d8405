# Storage engine proofs

A Dafny model of AetherDB's storage engine, from the database file up to the index, the table heap and the
client handlers. The layers meet at one small page store: contents and pin counts of the live pages, and a
bounded number of frames. Its operations are relations on values (`Fetches`, `Unpins`, `Creates`, `Deletes` and
`Writes` in `PageStore.dfy`); the class the index and the heap run on satisfies them, and so does the buffer pool
manager.

| files | what they hold |
|---|---|
| `Types`, `Bytes`, `Records`, `Runs`, `ArrayMoves` | ids, little-endian numbers, concatenated encodings, runs of a state machine, array shifts |
| `Nodes`, `LeafPage`, `InternalPage` | tree pages as values, and as the fixed arrays that the page methods move entries in |
| `TreeInvariant`, `TreeContents`, `TreeSplit`, `TreeRebalance`, `TreeBorrow`, `TreeMerge`, `TreeSteps` | when a set of pages is a B+ tree that stores a map, and what splits, borrows, merges and root changes do to it |
| `BPlusTree`, `TreeRun`, `TreeIterator`, `TreeHeight` | the index, whole runs of it, its scans, its height |
| `PageStore`, `BufferPool`, `Replacer`, `DiskManager` | the page store, the write-back pool, the eviction policies, the file |
| `StorageService` | the client handlers as interleaved steps over the pool |
| `TupleCodec`, `TablePage`, `TableHeap` | tuples as bytes, the 4096-byte slotted page, the chain of pages |

How the index is modelled. Page ids are the keys of a map; a ghost record gives each page of the tree its level and
the range of keys that belong below it, so every condition is about one page and its neighbours. A page's entries
are sequences; `LeafPage` and `InternalPage` do each page operation on arrays of 254 and 339 cells and are proved
against the functions of `Nodes` that the tree code uses. At most one page at a time is one entry too full or too
empty, which is the `Slack` in the invariant. The maximum sizes are parameters (a leaf at least 2, an internal page
at least 4); 253 and 338 are one instance.

Client discipline. A page that was changed through a pin must be released as dirty by somebody before its last pin
goes. The stores keep this as the ghost set `unsaved`; every operation here is proved to respect it.

## Model

| member | source | states |
|---|---|---|
| BPlusTrees.BPlusTree.GetValue | services/storage/src/b_plus_tree.cpp:9-21 | succeeds exactly on stored keys and returns the mapped record id; pins are given back |
| BPlusTrees.BPlusTree.FindLeafPage | services/storage/src/b_plus_tree.cpp:23-43 | reaches, and leaves pinned, the leaf whose key range contains the key |
| BPlusTrees.BPlusTree.Insert | services/storage/src/b_plus_tree.cpp:45-101 | true exactly if the key was absent, and then the map gains just that pair; a stored key changes no page; the whole invariant holds again, all pin counts are as before; takes 2h+1 free frames and at most h+1 page ids for h levels, adds at most one level, and takes a page exactly if the leaf of the key was full; the pages taken are those that joined the tree, and pages outside it are untouched |
| BPlusTrees.BPlusTree.EnterInLeaf | services/storage/src/b_plus_tree.cpp:64-72 | the size that comes back is the old one exactly for a stored key, which changes nothing; else the pair is in and at most that leaf is too full |
| BPlusTrees.BPlusTree.InsertIntoParent | services/storage/src/b_plus_tree.cpp:103-167 | entered with a split page whose new half no parent lists, restores the invariant at every level above without changing the map, with at most one page id for each of these levels and one for a new root; takes none exactly if the parent has a cell to spare; measure: distance to the root |
| BPlusTrees.BPlusTree.SplitParentIfFull | services/storage/src/b_plus_tree.cpp:132-166 | a parent one entry too full ends up in a correct tree with the same map; a page is taken exactly if it has more than its maximum |
| BPlusTrees.BPlusTree.SetParents | services/storage/src/b_plus_tree.cpp:150-159 | exactly the listed children get the new parent id, each pinned and released once |
| BPlusTrees.BPlusTree.AddRoot | services/storage/src/b_plus_tree.cpp:104-120 | a split root gets a new root above it: a tree exactly one level higher with the same map, for one page id |
| BPlusTrees.BPlusTree.SplitInternal | services/storage/src/b_plus_tree.cpp:137-161 | the upper size/2 entries of an overfull internal page are its new half, both are ready to be linked, and the map is unchanged |
| BPlusTrees.BPlusTree.SplitLeaf | services/storage/src/b_plus_tree.cpp:79-95 | the upper size/2 entries of an overfull leaf are its new half, both are ready to be linked, the leaf chain runs through both, and the map is unchanged |
| BPlusTrees.BPlusTree.Delete | services/storage/src/b_plus_tree.cpp:169-203 | true exactly if the key was present, the map loses just that key, the invariant holds again with h+2 free frames, the tree is no higher; pin counts are as before, except that deleting the last key leaves one pin on the old root; the live pages are the old ones without those that left the tree off the path to the key and are not pinned, which are the right siblings of merges; a leaf above its minimum loses its entry and nothing else changes |
| BPlusTrees.BPlusTree.HandleUnderflow | services/storage/src/b_plus_tree.cpp:205-297 | entered with one page an entry short, restores the whole invariant, keeps the map and the pin counts, and deletes just those pages that leave the tree off the path and are not pinned; measure: distance to the root |
| BPlusTrees.BPlusTree.BorrowOrMerge | services/storage/src/b_plus_tree.cpp:224-297 | a sibling is always found; it borrows from the left one if that can spare an entry, else from the right one if that can, and only if neither can a page leaves the tree: the node itself, or the right sibling of a first child |
| BPlusTrees.BPlusTree.TryBorrow | services/storage/src/b_plus_tree.cpp:239-269 | borrows exactly if that sibling has more than half of its maximum, and then the tree is complete; otherwise nothing changes |
| BPlusTrees.BPlusTree.RedistributeLeft | services/storage/src/b_plus_tree.cpp:299-342 | the last entry of the left sibling becomes the first of the node and its key the separator; a moved child follows its new parent and the old separator comes down; the map stays |
| BPlusTrees.BPlusTree.RedistributeRight | services/storage/src/b_plus_tree.cpp:299-342 | likewise the first entry of the right sibling becomes the last of the node, and the next key the separator |
| BPlusTrees.BPlusTree.MergeSiblings | services/storage/src/b_plus_tree.cpp:344-371 | two siblings become one page that is not overfull, the chain skips the other, only the parent may now be an entry short, the map stays |
| BPlusTrees.BPlusTree.MergeIntoLeft | services/storage/src/b_plus_tree.cpp:271-279 | the node leaves the tree, the parent alone may be an entry short, the map stays; the page of the node stays allocated, since its deletion is refused |
| BPlusTrees.BPlusTree.MergeFromRight | services/storage/src/b_plus_tree.cpp:280-289 | the right sibling leaves the tree and its page is live afterwards exactly if somebody else pins it; the parent alone may be an entry short, the map stays |
| BPlusTrees.BPlusTree.ShrinkRoot | services/storage/src/b_plus_tree.cpp:206-222 | a root with one child hands over to it: the tree is one level lower, exactly if the root has one child, with the same map |
| TreeRuns.Run | services/storage/src/b_plus_tree.cpp:9-203 | any sequence of Insert, Delete and GetValue on any tree gives the replies of a finite map and ends with its contents, given frames for one operation and one more for each time the tree is emptied |
| TreeRuns.Step | services/storage/src/b_plus_tree.cpp:9-203 | one operation of a run, with its use of pins and page ids |
| TreeRuns.FewLevels | services/storage/src/b_plus_tree.cpp:23-43 | too few keys for more than h levels keep the tree at h levels, so that a bound on the keys bounds the frames |
| TreeRuns.ThreeLevels | services/storage/include/storage/b_plus_tree_internal_page.hpp:10-16 | with the page sizes 253 and 338 three levels suffice by that bound exactly below 7197372 keys |
| TreeInvariant.Unique | services/storage/src/b_plus_tree.cpp:23-43 | pages at one level have disjoint key ranges, so a key has one leaf |
| TreeContents.StoredInLeaf | services/storage/src/b_plus_tree.cpp:9-21 | a key is stored exactly if the leaf that covers it lists it, with the mapped record id |
| TreeSteps.LeafInsertStep | services/storage/src/b_plus_tree.cpp:65-72 | entering an absent key in its leaf adds just that pair, and at most that leaf is too full |
| TreeSteps.LeafRemoveStep | services/storage/src/b_plus_tree.cpp:177-182 | taking a key out of its leaf removes just that pair, and at most that leaf is an entry short |
| TreeSplit.SplitLinkShape | services/storage/src/b_plus_tree.cpp:129-166 | both halves of a page, linked after each other in the parent, make a correct tree: ranges, levels, parent ids, chain |
| TreeSplit.SplitSizes | services/storage/src/b_plus_tree.cpp:132-135 | both halves of a page with one entry too many reach the minimum |
| TreeSplit.LinkRootIsGrow | services/storage/src/b_plus_tree.cpp:104-120 | splitting a root is adding a one-child root first and then splitting below it |
| TreeSteps.SplitPageStep | services/storage/src/b_plus_tree.cpp:137-161 | from an overfull page to a linkable pair with the same map |
| TreeSteps.AddRootStep | services/storage/src/b_plus_tree.cpp:104-120 | linking a pair under a new root gives a complete tree with the same map |
| TreeSteps.BorrowLeftStep | services/storage/src/b_plus_tree.cpp:299-342 | a borrow from the left restores all of the invariant, for leaves and internal pages |
| TreeSteps.BorrowRightStep | services/storage/src/b_plus_tree.cpp:299-342 | a borrow from the right restores all of the invariant |
| TreeBorrow.BorrowLeftMoves | services/storage/src/b_plus_tree.cpp:299-342 | which entry, separator and parent id a borrow from the left changes, for leaves and internal pages |
| TreeBorrow.BorrowRightMoves | services/storage/src/b_plus_tree.cpp:299-342 | likewise from the right |
| TreeSteps.MergeStepInv | services/storage/src/b_plus_tree.cpp:344-371 | a merge keeps the invariant but for one missing entry in the parent, and keeps the map |
| TreeSteps.CollapseStep | services/storage/src/b_plus_tree.cpp:206-222 | dropping a one-child root keeps the invariant and the map |
| TreeSteps.AllFit | services/storage/include/storage/b_plus_tree_internal_page.hpp:44-59 | while an operation is under way no page exceeds its maximum by more than the one spare cell |
| TreeSteps.PagesFitArrays | services/storage/include/storage/b_plus_tree_leaf_page.hpp:10-33 | every page of a tree, also while an operation is under way, meets what the array classes require: it fits its arrays, and the keys its searches read are sorted |
| TreeRebalance.NextSibling | services/storage/src/b_plus_tree.cpp:255-259 | the leaf after a leaf in the chain is its right sibling under their parent |
| TreeMerge.LeafMergeSorted | services/storage/src/b_plus_tree.cpp:345-351 | the entries of two neighbouring leaves, joined, are sorted and in the joined range |
| TreeBorrow.InternalBorrowLeft | services/storage/src/b_plus_tree.cpp:315-326 | moving a child between internal siblings keeps every range, level and parent id right |
| TreeMerge.InternalMerge | services/storage/src/b_plus_tree.cpp:352-370 | joining internal siblings around the parent's key keeps every range, level and parent id right |
| TreeHeight.KeysBelow | services/storage/src/b_plus_tree.cpp:194-203 | a page below the root covers at least (M/2)^level * (L/2) keys |
| TreeHeight.HeightBound | services/storage/src/b_plus_tree.cpp:23-43 | a tree of h >= 2 levels stores at least 2 * (M/2)^(h-2) * (L/2) keys |
| TreeHeight.HeightBoundDefault | services/storage/include/storage/b_plus_tree_internal_page.hpp:10-16 | with the page sizes 253 and 338: at least 2 * 169^(h-2) * 126 keys |
| TreeIterators.SuccessorIsNext | services/storage/include/storage/b_plus_tree.hpp:82-100 | the next entry along the leaf chain is the least stored key above, or the end if there is none |
| TreeIterators.AfterLeafIsNext | services/storage/include/storage/b_plus_tree.hpp:82-100 | from behind the entries of a leaf the chain leads to the least stored key above its range, or to the end |
| TreeIterators.BPlusTreeIterator.Next | services/storage/include/storage/b_plus_tree.hpp:82-100 | operator++ goes to the least stored key above, and the pin moves along; from behind the entries of a leaf it goes to the least stored key above the range of that leaf |
| TreeIterators.BPlusTreeIterator.Get | services/storage/include/storage/b_plus_tree.hpp:77-80 | the pair under the iterator is a pair of the map |
| TreeIterators.BPlusTreeIterator.Close | services/storage/include/storage/b_plus_tree.hpp:20-24 | the destructor gives back the pin |
| TreeIterators.Begin | services/storage/src/b_plus_tree.cpp:373-392 | stands at the least key, or at the end exactly if the map is empty |
| TreeIterators.BeginAt | services/storage/src/b_plus_tree.cpp:394-406 | for every key: stands at an entry exactly if the leaf that covers the key has a stored key from it on, which is if the key is at most the last one of that leaf; and then at the least stored key from it on |
| TreeIterators.LandsAtEntry | services/storage/src/b_plus_tree.cpp:402-405 | the position in the leaf is an entry exactly under that condition |
| TreeIterators.LandsBeforeLast | services/storage/src/b_plus_tree.cpp:402-405 | the condition read off the leaf: it is not empty and the key is at most its last key |
| TreeIterators.LeastFrom | services/storage/src/b_plus_tree.cpp:394-406 | Begin(key), then operator++ once if that is behind a leaf: for every key, the least stored key from it on, or the end exactly if there is none |
| TreeIterators.LandsPastLeaf | services/storage/src/b_plus_tree.cpp:402-405 | with the page sizes 253 and 338: two leaves of 126 keys each, where Begin(500) stands behind the last entry of the first leaf although 1000 is stored |
| TreeIterators.Scan | services/storage/src/b_plus_tree.cpp:373-410 | a full scan lists exactly the pairs of the map in increasing key order, takes as many increments as the map has pairs, and gives back its pins |
| TreeIterators.ScanFrom | services/storage/src/b_plus_tree.cpp:394-410 | a scan from a stored key lists exactly the pairs from that key on |
| TreeIterators.ListedOnce | services/storage/src/b_plus_tree.cpp:373-410 | a sorted list of all pairs has as many entries as the map |
| LeafPages.LeafPage.KeyIndex | services/storage/include/storage/b_plus_tree_leaf_page.hpp:22-33 | binary search finds the number of keys below the key |
| LeafPages.LeafPage.Lookup | services/storage/include/storage/b_plus_tree_leaf_page.hpp:38-45 | finds a key exactly if it is listed, with the value beside it |
| LeafPages.LeafPage.Insert | services/storage/include/storage/b_plus_tree_leaf_page.hpp:47-60 | a listed key changes nothing; any other goes with its value between the smaller and the greater ones, and every old pair stays |
| LeafPages.LeafPage.Remove | services/storage/include/storage/b_plus_tree_leaf_page.hpp:81-88 | the entry with the key is shifted out if the key is listed, else nothing changes |
| LeafPages.LeafPage.MoveHalfTo | services/storage/include/storage/b_plus_tree_leaf_page.hpp:62-71 | the last size/2 entries move to the new page, in order |
| LeafPages.LeafPage.MoveAllTo | services/storage/include/storage/b_plus_tree_leaf_page.hpp:90-99 | all entries go behind those of the left page, with the next pointer, and none is left |
| LeafPages.LeafPage.MoveFirstToEndOf | services/storage/include/storage/b_plus_tree_leaf_page.hpp:101-106 | the first entry goes to the other page, behind its entries if those are smaller |
| LeafPages.LeafPage.MoveLastToFrontOf | services/storage/include/storage/b_plus_tree_leaf_page.hpp:108-114 | the last entry goes to the other page, before its entries if those are greater |
| LeafPages.RankIs | services/storage/include/storage/b_plus_tree_leaf_page.hpp:22-33 | the position between smaller and greater-or-equal keys is unique |
| Nodes.LeafInsertIs | services/storage/include/storage/b_plus_tree_leaf_page.hpp:47-60 | the same of the page as a value |
| InternalPages.InternalPage.Lookup | services/storage/include/storage/b_plus_tree_internal_page.hpp:24-35 | binary search that ignores keys_[0] finds the last child whose key is at most the sought one |
| InternalPages.RouteIs | services/storage/include/storage/b_plus_tree_internal_page.hpp:24-35 | that child is unique |
| InternalPages.InternalPage.MakeRoot | services/storage/include/storage/b_plus_tree_internal_page.hpp:37-42 | a root with two children |
| InternalPages.InternalPage.InsertNodeAfter | services/storage/include/storage/b_plus_tree_internal_page.hpp:44-59 | key and child go just after the first occurrence of the old child, or to the front if there is none, in the 339-cell arrays |
| InternalPages.InternalPage.MoveHalfTo | services/storage/include/storage/b_plus_tree_internal_page.hpp:61-70 | the last size/2 entries move to the new page, in order |
| InternalPages.InternalPage.Remove | services/storage/include/storage/b_plus_tree_internal_page.hpp:72-78 | one key and child are shifted out |
| InternalPages.InternalPage.MoveAllTo | services/storage/include/storage/b_plus_tree_internal_page.hpp:80-90 | all children go to the left page, the parent's key standing for the ignored one |
| InternalPages.InternalPage.MoveFirstToEndOf | services/storage/include/storage/b_plus_tree_internal_page.hpp:92-103 | the first child goes over with the parent's key |
| InternalPages.InternalPage.MoveLastToFrontOf | services/storage/include/storage/b_plus_tree_internal_page.hpp:105-115 | the last child goes over, the parent's key now second |
| BufferPools.BufferPoolManager.FetchPage | services/storage/src/buffer_pool_manager.cpp:20-73 | fails exactly for the invalid id and when every frame holds another pinned page; no page's contents change, pinned pages stay in their frames, one pin more; a cached page evicts nothing, and neither does any while a frame is free |
| BufferPools.BufferPoolManager.UnpinPage | services/storage/src/buffer_pool_manager.cpp:75-101 | fails exactly on a page that is not pinned; one pin less, nothing else visible, and the frame becomes a candidate for eviction exactly with the last pin |
| BufferPools.BufferPoolManager.NewPage | services/storage/src/buffer_pool_manager.cpp:123-164 | fails exactly with every frame pinned; one blank page more under a fresh id, pinned once, although the reused disk page holds link bytes |
| BufferPools.BufferPoolManager.DeletePage | services/storage/src/buffer_pool_manager.cpp:166-194 | removes just that page, exactly if it is not pinned; its frame goes to the end of the free list |
| BufferPools.BufferPoolManager.FlushPage | services/storage/src/buffer_pool_manager.cpp:103-121 | nothing visible changes, the frame is clean, and afterwards the disk has the page, if no unreported change is left |
| BufferPools.BufferPoolManager.FlushAllPages | services/storage/src/buffer_pool_manager.cpp:196-208 | afterwards every frame is clean and the disk has every page but those changed and not yet reported |
| BufferPools.Restart | services/storage/src/buffer_pool_manager.cpp:196-208 | with no change unreported, flushing everything, opening the file again and starting a new pool shows the same pages |
| BufferPools.BufferPoolManager.WriteThroughPin | services/storage/src/storage_service.cpp:133-133 | a memcpy into a pinned frame changes that page alone, and a change is owed a release as dirty |
| BufferPools.BufferPoolManager.TakeFrame | services/storage/src/buffer_pool_manager.cpp:39-59 | frees a frame exactly if not all are pinned: the first free one, else that of the replacer's victim; the eviction, written back if dirty, is invisible |
| BufferPools.FramesPartition | services/storage/src/buffer_pool_manager.cpp:6-13 | each frame is free, evictable or pinned and just one of these; no two pages share a frame |
| BufferPools.AllPinned | services/storage/src/buffer_pool_manager.cpp:39-48 | no free and no evictable frame is left exactly when as many pages are pinned as there are frames |
| BufferPools.EvictStep | services/storage/src/buffer_pool_manager.cpp:50-59 | evicting a page changes no page's contents and no pin count, and moves no pinned page |
| BufferPools.NewStep | services/storage/src/buffer_pool_manager.cpp:150-163 | a page whose frame is blank and whose disk page is not is blank to clients, as long as its release as dirty is owed |
| BufferPools.FlushStep | services/storage/src/buffer_pool_manager.cpp:103-121 | writing a frame back changes no page's contents |
| BufferPools.UnpinStep | services/storage/src/buffer_pool_manager.cpp:75-101 | releasing a pin keeps the pool consistent and its pages unchanged |
| BufferPools.DropStep | services/storage/src/buffer_pool_manager.cpp:180-193 | dropping an unpinned page removes it and nothing else |
| Replacers.ClockReplacer.Victim | services/storage/src/replacer.cpp:57-77 | the loop ends within 2n turns; it succeeds exactly with a candidate, takes the first one with a clear flag, or the first one if all are set, stops behind it, and has cleared just the flags it passed |
| Replacers.SweepEnds | services/storage/src/replacer.cpp:62-76 | with a candidate the clock loop ends before 2n turns |
| Replacers.SweepPicksFirst | services/storage/src/replacer.cpp:62-76 | it evicts the first candidate in clock order with a clear flag, or the first candidate if all flags are set; the others stay |
| Replacers.ClockVictimIs | services/storage/src/replacer.cpp:57-77 | Victim succeeds exactly if there is a candidate, and takes that one |
| Replacers.ClockVictimLeaves | services/storage/src/replacer.cpp:62-76 | the hand stops behind the victim, and just the candidates it passed have lost their flags |
| Replacers.JustUnpinnedWaits | services/storage/src/replacer.cpp:90-100 | a frame that has just become a candidate is not the next victim while another one has a clear flag |
| Replacers.NobodyWaitsForever | services/storage/src/replacer.cpp:57-100 | over any run of calls that never pins it, a candidate is evicted by the 2n-th Victim at the latest |
| Replacers.ClockReplacer.Pin | services/storage/src/replacer.cpp:79-88 | takes just that frame out; hand and flags stay |
| Replacers.ClockReplacer.Unpin | services/storage/src/replacer.cpp:90-100 | puts just that frame in and sets its flag, unless it is in or out of range; hand and other flags stay |
| Replacers.LRUReplacer.Victim | services/storage/src/replacer.cpp:11-20 | the frame that has been a candidate longest, as the policy value of the pool says |
| Replacers.LRUReplacer.Unpin | services/storage/src/replacer.cpp:31-43 | a new candidate goes last, an old one keeps its place, as the policy value of the pool says |
| Replacers.LRUReplacer.Pin | services/storage/src/replacer.cpp:22-29 | takes just that frame out, order kept, as the policy value of the pool says |
| Replacers.Replacer.Victim | services/storage/src/replacer.cpp:57-77 | what the pool needs of either policy: a victim exactly if there is a candidate, and just that one leaves |
| DiskManagers.DiskManager.AllocatePage | services/storage/src/disk_manager.cpp:95-140 | never a page in use, last deleted first; exactly that page joins the pages in use and no other changes; a page that is new to the file reads as zeros, a reused one as before |
| DiskManagers.DiskManager.DeallocatePage | services/storage/src/disk_manager.cpp:142-166 | the page goes to the front of the free list, linked to the old head and else blank, and exactly it leaves the pages in use; page 0 and unknown ids are refused |
| DiskManagers.DiskManager.ReadPage | services/storage/src/disk_manager.cpp:64-79 | fails exactly out of range; a page the file does not reach reads as zeros |
| DiskManagers.DiskManager.WritePage | services/storage/src/disk_manager.cpp:81-93 | fails exactly out of range; changes one page and never the free list |
| DiskManagers.AllocateCrash | services/storage/src/disk_manager.cpp:114-136 | stopped after any number of its writes, reopening finds the free list and page count from before or from after the call, and all pages in use unharmed; the last write leaves zeros in a new page |
| DiskManagers.DeallocateCrash | services/storage/src/disk_manager.cpp:150-163 | likewise |
| DiskManagers.AllocateDone | services/storage/src/disk_manager.cpp:95-140 | a complete call adds exactly the page it returns to the pages in use |
| DiskManagers.DeallocateDone | services/storage/src/disk_manager.cpp:142-166 | a complete call removes exactly that page |
| DiskManagers.DeallocateSound | services/storage/src/disk_manager.cpp:142-166 | of a page in range, the call leaves a file with a sound free list exactly if the page was not free already |
| DiskManagers.ChainUnique | services/storage/src/disk_manager.cpp:173-182 | a file determines its free list, so reopening restores the same state |
| StorageServices.StepKeepsInv | services/storage/src/storage_service.cpp:84-197 | whatever any client does next, pins equal holders, holders' frames stay theirs, and every unreported change has a holder that will report it |
| StorageServices.PinsAreHolders | services/storage/src/storage_service.cpp:84-197 | in every state of every interleaving each pin count is the number of handlers holding the page, and a held page is live and in the frame its holders were given |
| StorageServices.ReadReturnsLatestWrite | services/storage/src/storage_service.cpp:84-146 | under every interleaving READ_PAGE delivers the bytes last copied by WRITE_PAGE to that page since its allocation, or zeros |
| StorageServices.RunDelivers | services/storage/src/storage_service.cpp:84-197 | under every interleaving each live page holds the bytes last copied into it, whatever is cached, evicted or flushed |
| StorageServices.HeldFrameStays | services/storage/src/storage_service.cpp:90-101 | no step of another client evicts, deletes or rebinds a held frame |
| StorageServices.DeallocateWhenFree | services/storage/src/storage_service.cpp:175-185 | DEALLOCATE_PAGE removes the page exactly if no handler holds it |
| StorageServices.EnoughFrames | services/storage/src/storage_service.cpp:90-93 | with a frame per client no request on a live page fails for want of a frame |
| StorageServices.ReleaseAllowed | services/storage/src/storage_service.cpp:101-101 | a reader that releases a page as clean is never the last holder of an unreported change |
| StorageServices.StorageService.StartRead | services/storage/src/storage_service.cpp:84-93 | the pool call is a step of the machine and keeps its invariant |
| StorageServices.StorageService.StartWrite | services/storage/src/storage_service.cpp:116-132 | likewise |
| StorageServices.StorageService.CopyOut | services/storage/src/storage_service.cpp:94-99 | sending the frame is a step of the machine |
| StorageServices.StorageService.CopyIn | services/storage/src/storage_service.cpp:133-133 | the memcpy through the page pointer is a step of the machine |
| StorageServices.StorageService.Flush | services/storage/src/buffer_pool_manager.cpp:196-208 | flushing every page is a step of the machine, which no client sees |
| StorageServices.StorageService.Finish | services/storage/src/storage_service.cpp:101-159 | the UnpinPage of a read, write or allocation meets its precondition and is a step of the machine |
| StorageServices.StorageService.StartAllocate | services/storage/src/storage_service.cpp:148-157 | the pool call is a step of the machine |
| StorageServices.StorageService.Deallocate | services/storage/src/storage_service.cpp:175-185 | succeeds exactly if no handler holds the page |
| ByteCodes.DigitsNumber | services/storage/include/storage/tuple.hpp:25-36 | little-endian digits read as the number, wherever they stand |
| ByteCodes.I64RoundTrip | services/storage/include/storage/tuple.hpp:25-51 | every signed 64-bit value survives its eight bytes |
| TupleCodec.ValueRoundTrip | services/storage/include/storage/tuple.hpp:25-51 | a value is read back from wherever its encoding stands |
| TupleCodec.TupleRoundTrip | services/storage/include/storage/tuple.hpp:76-94 | a tuple that matches the schema is read back from wherever its encoding stands |
| TupleCodec.PrefixFree | services/storage/include/storage/tuple.hpp:76-94 | under one schema an encoding begins with another exactly if the tuples are equal |
| Records.JoinSplit | services/storage/include/storage/tuple.hpp:84-94 | a record is read back if each of its values is |
| TupleCodec.SerializeValue | services/storage/include/storage/tuple.hpp:25-36 | a truth value is one byte, 1 or 0; an integer the eight bytes of its two's complement, lowest first; a string its length in four bytes, lowest first, and its characters; no other byte changes |
| TupleCodec.Serialize | services/storage/include/storage/tuple.hpp:76-82 | each value stands where the lengths of those before it add up to, and no other byte changes |
| TupleCodec.GetSerializedLength | services/storage/include/storage/tuple.hpp:96-102 | the lengths of the values, 8, 4 + |s|, 1 or 0, added up modulo 2^32 |
| TupleCodec.Deserialize | services/storage/include/storage/tuple.hpp:84-94 | one value per column, each decoded where the values before it end |
| TupleCodec.EncodeIs | services/storage/include/storage/tuple.hpp:25-36 | the bytes and the length of every value |
| TupleCodec.DecodeIs | services/storage/include/storage/tuple.hpp:38-51 | what any bytes are read as |
| TupleCodec.EncodeTupleIs | services/storage/include/storage/tuple.hpp:76-102 | the encoding of a tuple is as long as its values, which stand one behind the other |
| TablePages.TablePage.InsertTuple | services/storage/include/storage/table_page.hpp:33-69 | over the fields of the page: succeeds exactly if the bytes of the tuple, and 8 more unless some slot is free, fit between the slots and the free space pointer; then the first free slot, else a new one, holds the tuple just below the others, the pointer moves down by its length, and every other slot keeps its tuple |
| TablePages.TablePage.GetTuple | services/storage/include/storage/table_page.hpp:71-80 | fails exactly on a slot beyond the last or of length 0; else returns the tuple that was stored |
| TablePages.TablePage.DeleteTuple | services/storage/include/storage/table_page.hpp:82-92 | fails exactly on a slot beyond the last or of length 0; else only that tuple goes, its slot is zero, and its bytes are not reclaimed |
| TablePages.TablePage.UpdateTuple | services/storage/include/storage/table_page.hpp:94-119 | over the fields of the page: succeeds exactly on a slot that holds a tuple no shorter than the new one, or with room for the new one below the others; then only that slot changes, in place in the first case |
| TablePages.TablePage.Init | services/storage/include/storage/table_page.hpp:16-22 | an empty page, whatever the frame held |
| TablePages.TablePage.FindFreeSlot | services/storage/include/storage/table_page.hpp:36-42 | the first deleted slot, or a new one |
| TablePages.InsertRefines | services/storage/include/storage/table_page.hpp:33-69 | on bytes: the layout invariant is kept and the map from slots to tuples gains just the new one |
| TablePages.CanInsertIs | services/storage/include/storage/table_page.hpp:44-52 | when a tuple has room, over the fields |
| TablePages.CanUpdateIs | services/storage/include/storage/table_page.hpp:94-112 | when a tuple can be replaced, over the fields |
| TablePages.InsertedFields | services/storage/include/storage/table_page.hpp:54-66 | the fields an insertion writes |
| TablePages.UpdatedFields | services/storage/include/storage/table_page.hpp:102-118 | the fields an update writes |
| TablePages.DeleteRefines | services/storage/include/storage/table_page.hpp:82-92 | on bytes: the map loses just that slot |
| TablePages.OverwriteRefines | services/storage/include/storage/table_page.hpp:102-107 | on bytes: writing a shorter tuple in place changes just that slot |
| TablePages.RelocateRefines | services/storage/include/storage/table_page.hpp:109-118 | on bytes: moving a longer tuple below the others changes just that slot |
| TablePages.SlotsSuffice | services/storage/include/storage/table_page.hpp:125-131 | a page never has more than 453 slots, so the array of 500 is not overrun |
| TablePages.InsertedReadable | services/storage/include/storage/table_page.hpp:71-80 | an inserted tuple can be read exactly if its encoding is not empty |
| TablePages.EmptyTupleIsLost | services/storage/include/storage/table_page.hpp:33-69 | a tuple without values is accepted and then not found |
| TableHeaps.TableHeap.InsertTuple | services/storage/include/storage/table_heap.hpp:25-67 | the first page of the chain that takes the tuple by its fields gets it, else a page is added at the end; the record id is fresh and all others keep their tuples, exactly if the encoding has 1 to 4068 bytes (otherwise no record changes, although success is reported); chain acyclic and doubly linked, pins balanced, two free frames suffice |
| TableHeaps.TableHeap.GetTuple | services/storage/include/storage/table_heap.hpp:69-78 | succeeds exactly on a stored record id, given a frame, and returns its tuple |
| TableHeaps.TableHeap.UpdateTuple | services/storage/include/storage/table_heap.hpp:80-89 | succeeds exactly on a stored record id, given a frame, if the new tuple is no longer than the old one or fits in the free space of the page; changes just that record, or nothing |
| TableHeaps.TableHeap.DeleteTuple | services/storage/include/storage/table_heap.hpp:91-100 | removes just that record, or nothing |
| TableHeaps.TableHeap.Create | services/storage/include/storage/table_heap.hpp:14-21 | an empty chain of one page, or of none if every frame is pinned |
| TableHeaps.FirstTakes | services/storage/include/storage/table_heap.hpp:25-41 | no page of the chain before the chosen one takes the tuple, by its fields |
| TableHeaps.ExtendedChain | services/storage/include/storage/table_heap.hpp:42-53 | appending a fresh page keeps the chain acyclic and doubly linked |
| TableHeaps.ExtendedRows | services/storage/include/storage/table_heap.hpp:42-53 | and changes no record |
| TableHeaps.FreshRoom | services/storage/include/storage/table_heap.hpp:54-54 | a fresh page takes a tuple exactly if its encoding has at most 4068 bytes |
| TableHeaps.LongTupleIsLost | services/storage/include/storage/table_heap.hpp:54-54 | a string of 4065 characters makes a tuple no page takes |

## Left out

- Sockets, logging, argument parsing, start and stop, and threads: each pool call and each page copy is one step, and steps of different clients interleave freely.
- Torn copies: two handlers copying the same page at once without a lock. A copy is one step.
- The file stream: the file is a sequence of 4096-byte pages, a page beyond its end reads as zeros, and single write calls are steps only where interrupted calls are studied. A metadata field is written as a whole.
- Page ids running out: an allocation requires an id below the invalid one (services/storage/src/disk_manager.cpp:121-122).
- BufferPools.BufferPoolManager.FetchPage: requires an id in use or the invalid one; out of range the code throws with a frame already taken (services/storage/src/buffer_pool_manager.cpp:61-69).
- BufferPools.BufferPoolManager.DeletePage: requires an id in use; what a second deletion of a page does to the file is `DeallocateSound`.
- DiskManagers.DiskManager.DeallocatePage: requires that a page in range is in use; `DeallocateSound` shows that otherwise no sound free list remains.
- DiskManagers.DiskManager.WritePage: requires that a page in range is in use; page 0 and free pages, whose links the code would overwrite, are excluded.
- StorageServices.StorageService.StartRead: requires an id in use, while a client may send any; the pool call is then outside what FetchPage covers.
- StorageServices.StorageService.StartWrite: requires an id in use, while a client may send any; the pool call is then outside what FetchPage covers.
- StorageServices.StorageService.Deallocate: requires an id in use, while a client may send any; the pool call is then outside what DeletePage covers.
- TableHeaps.TableHeap.GetTuple: requires a record id whose page is in the chain, or the invalid page; the code reads any other page as if it were a table page.
- TableHeaps.TableHeap.UpdateTuple: the same restriction on the record id.
- TableHeaps.TableHeap.DeleteTuple: the same restriction on the record id.
- Reclaiming every page that leaves the tree: the code's deletion of the left-merged node, of a collapsed root and of an emptied root is refused because the page is pinned, so those pages stay allocated, as the contract of Delete says.
- Index calls without enough free frames: InsertIntoParent gives up silently and FindLeafPage does not check for null, so Insert and Delete require 2h+1 and h+2 frames.
- Copying, moving and comparing iterators; two iterators that share a pin.
- The bytes of tree pages: a tree page is a value in the page store, and the array classes prove the page operations on cells, not on their place in the frame. `page_type_` and `size_` of the header are the constructor and the length.
- The place of each LRU candidate in a hash map: the map is the set of queued frames.
- BufferPools.BufferPoolManager.FlushPage: says nothing of a page that is not cached, which the code also leaves alone.
- A string of 4 GB or more is not a `Text`: its length prefix, which the code would cut, is not modelled.
- TupleCodec.Deserialize: requires memory that holds what the schema asks for, since the code reads without bounds.
- TablePages.TablePage.InsertTuple: encodings within 8 bytes of 4 GB, where the code's sum wraps around, are excluded.
- Table catalog, schema and column names, record id equality: lookups in lists.
- Write-ahead logging, transactions and SQL: not implemented in the repository.
