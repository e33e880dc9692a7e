# CourtDB storage engine: model and proofs

This project models the layers of the CourtDB storage engine and proves what they promise,
from the free list on disk up to the B+ tree and redo recovery. `dafny verify dfyconfig.toml`
checks all of it.

Each layer is proved against a small abstraction, and the layer above uses that abstraction:

| layer | files | abstraction |
|---|---|---|
| disk | `DiskManager` | live pages, and a stack of free pages that the file's bytes determine |
| buffer pool | `BufferFrames`, `BufferPool`, `NewPages`, `Recency` | live pages and their bytes, wherever they are; a recency list |
| slotted page | `SlotMap`, `PageLayout`, `PageCodec`, `SlottedPage` | records by slot number, and free bytes |
| heap file | `HeapRows`, `HeapSpace`, `HeapFile`, `HeapRuns` | records by RID, rows in chain-then-slot order, and the directory of pages with room |
| B+ tree | `SortedEntries`, `BTreeLevels`, `BTreeGrowth`, `BTreeSeparators`, `BTreeStrays`, `BTreeOrder`, `BTreeHeight`, `NodeCodec`, `IndexNodes`, `IndexPool`, `PoolLayers`, `BPlusTree`, `BTreeRuns`, `BTreeTies` | one sorted list of (key, RID) entries |
| log | `LogRecords`, `LogStream`, `LogManager` | a sequence of records, back to back |
| recovery | `Redo`, `RedoRoom`, `Recovery` | the records each page holds after its own part of the log |

`Base`, `Bytes`, `Counting` and `Pins` hold what the layers share. The classes (`Page`,
`BPlusTree`, `LeafNode`, `InternalNode`, `BufferPoolManager`, `LruReplacer`, `DiskManager`,
`LogManager`, `LogIterator`, `RecoveryManager`, `HeapFile`, `HeapFileIterator`) keep the
fields of the originals and change them in place; their methods are specified by functions
on values, and the lemmas are about those functions.

## How the B+ tree is proved

A level is the left-to-right list of the nodes at one height, each with the separator on its
left. Expanding every internal node of a level into its children gives the level below, so
"all leaves have one depth" and "the leaf chain is the in-order leaf sequence" are part of
the shape (`BTreeLevels.Structure`), together with the parent pointers, the node sizes, and
page ids that are all different. A split puts one new node into a level; until its parent
takes it, the tree is `Pending` at that level. `ParentTakes`, `ParentSplits` and `RootGrows`
are the three ways to resolve that, and `InsertIntoParent` follows them upwards.

Keys are ordered strictly (`Ordered`) when no run of equal keys stands on both sides of a
separator, and weakly (`WeaklyOrdered`) otherwise. Every operation is stated for the weakly
ordered trees, `BPlusTree.Valid`, with what is gained on the others: the weak order survives
every insertion and deletion, because no leaf ever holds more than 203 entries at its upper
bound, and the strict order and the completeness of lookups are lost exactly by the
insertions that cut a run.

`PoolLayers` runs the tree's pool of pages and the buffer pool side by side and shows that
they stay in step. The buffer pool keeps a write only if the page is released as dirty after
it. `IndexPages` remembers the writes that were not, `IndexPages.Unpin` refuses to release
such a page as clean, and every operation of the tree starts and ends without any; the dirty
flags are those of `src/index/btree.cpp:281`, `294`, `351-352`, `376`, `527`, `592`,
`602-603` and `633-644`. So what is proved of the tree holds over a pool that evicts and
writes back.

A search is also described without any order on the keys, as a walk along separators
(`BTreeStrays.Descend`); this is what remains of a tree in which a separator is misplaced.

## Where the code and its own documentation disagree

The model follows the code.

- `docs/04_bplus_tree_index.md:154-155` says that equal keys overflow to the next leaf and
  that lookups find all of them. A leaf split takes the middle whatever keys stand there
  (`src/index/btree.cpp:309`) while the descent sends equal keys to the right
  (`src/index/btree.cpp:67`), so equal keys that stay left of the cut are missed.
  `BPlusTree.Insert` says that after an insertion every lookup is complete if and only if
  every lookup was and the insertion did not cut a run, a condition on the one leaf that takes
  the entry. Distinct keys never meet it (`DistinctInsertCutsNothing`). `LoseEqualKeys` is a
  run that does: 406 insertions of one key are all found, one more and a lookup of that key
  no longer finds all of them. `Lookup` and `RangeScan` say for each key whether their answer
  is whole.
- A split of an inner node looks its separator up in the parent by key
  (`src/index/btree.cpp:524`, `543`). On a tree of three levels or more that already holds cut runs,
  the separator can stand in the parent already, right of the node that was split
  (`MisplacedSeparator`); the new node then goes behind that neighbour. `BPlusTree.Insert` says
  what such an insertion does if that parent has room: the entry is in the leaf chain, every search
  for a key of one gap, from the separator up to the next one in the parent, ends in the new node,
  where nothing above the separator stands (`GapIsMissed`), and every other search ends where it
  should (`OthersAreFound`, `TieStrays`). `LoseFarEntry` is such an insertion: on a tree of three levels
  an entry with key 2000 is found, an entry with key 0 is added, and a lookup of 2000 returns
  nothing though its entry is still stored. No well-formed tree and no tree of two levels has
  such insertions (`NeverMisplaces`).
- `docs/06_wal_and_recovery.md:70-72` and `:146-147` describe redo by comparing page and
  record LSNs. The code looks only at whether the slot is occupied and inserts wherever the
  page puts the record (`src/recovery/recovery_manager.cpp:141-152`). `RedoReachesFinal` says
  what that does from any disk page and any records the log began with, as long as the page has
  room for what is redone. Every redone insert
  lands on its logged slot if and only if none comes while a lower slot still misses a record
  the log began with; and then the page ends as the original run left it if and only if each
  record on disk is deleted or updated by the log or is the final one, and each record that was
  lost is deleted by the log. The condition on slots holds for pages whose whole log is replayed
  (`RecoveryRestoresPages`, `RunIsRecovered`); `TruncatedLogLosesRecord` and
  `RedoOnUnformatted` show it failing for a truncated log and for a page never formatted,
  and `WrongSlotRightState` a page that ends right although an insert went to the wrong slot.
- Redo has no room to spare either: it brings records back that the log deletes again later, deleting
  frees nothing, and a change that finds no room is skipped without a word
  (`src/recovery/recovery_manager.cpp:150`, `187`). `RoomIff` says when that does not happen: exactly if
  the free bytes on disk cover `SumNeeds`, a sum over the changes of the log that depends on
  the disk page, the base and the log only. A formatted page with its whole log can miss it, as
  `FullPageLosesRecord` shows: 1500 bytes are inserted, deleted, and 2000 bytes inserted; from the
  page after the delete, replay of the whole log ends with an empty page. On pages that only took
  inserts it cannot happen (`InsertRunIsRecovered`).
- A log reopened after a crash keeps its torn last record and appends behind it
  (`src/recovery/log_manager.cpp:46-50`). Reading stops at the torn record while the gap it leaves is
  not filled (`TornRecordHides`, `AppendBehindTear`). Once it is filled, the bytes are read as one
  record: the torn one with part of its payload overwritten (`FilledGapGarbles`, `GarbledPayload`);
  the records that filled the gap are never read back as they were appended.
- `Page::UpdateRecord` compares only the growth with the free space but writes the whole
  record (`src/storage/page.cpp:159-167`). The contract of `Page.UpdateRecord` says exactly
  when the page is still well-formed afterwards; `GrowthOverruns` gives the numbers of an
  update that is let through and does not fit, and `OverrunPage` does it to a page.
- `Page::HasSpaceFor` adds in 16 bits (`src/storage/page.cpp:230-233`) and knows no empty
  records. Its answer is that of an insert of the same length exactly when `AnswersRight` holds:
  always for 1 to 65531 bytes, for longer records if a slot is empty or the wrapped sum does
  not fit, and for no bytes if not even these fit. `HasRoomWraps` is an answer that is wrong.
- `HeapFile::UpdateRecord` deletes the old version before it looks for a new place
  (`src/storage/heap_file.cpp:184-191`), so an update to a record that no page takes loses the
  old one; the contract of `HeapFile.UpdateRecord` says when, and `LoseLongUpdate` is a run that does
  it: 100 bytes are inserted, updated to 4073 bytes, and the heap is empty.
- `HeapFile::UpdateRecord` lowers its record count for a RID under which nothing is stored, and inserts
  the data all the same (`src/storage/heap_file.cpp:184-187`). A ghost field `drift` counts these
  updates; a scan meets the count and the drift together, and `MiscountUpdate` is a run that ends with
  one record and a count of 0.

## Model

| member | source | states |
|---|---|---|
| BPlusTrees.BPlusTree.Insert | src/index/btree.cpp:262-355 | on every weakly ordered tree: exactly one (key, RID) is added to the sorted contents. If no separator is misplaced, it stands before its equals where a lookup finds these, and the new tree is strictly ordered, and every lookup complete, if and only if that was so before and no leaf split cut a run of equal keys. If one is, and the parent that holds it already has room, the leaf chain holds the new contents in order, searches for keys of the gap it takes over end in a leaf that holds no key above the separator, and all other searches end in the leaf over their key. Pins are as before, every write is announced, exactly as many pages are allocated as the tree has more nodes, the height grows by at most one, nothing is allocated after the first leaf unless the leaf is full, and leaves filled by splits stay filled |
| BPlusTrees.BPlusTree.Delete | src/index/btree.cpp:361-378 | true exactly if a lookup of the key reads the pair; one copy is removed then and nothing else, and nothing otherwise; where lookups of the key are complete, true exactly if the pair is stored; strict order and complete lookups last even when leaves run empty; no page comes or goes |
| BPlusTrees.BPlusTree.Lookup | src/index/btree.cpp:384-420 | the RIDs of the stored pairs with that key in the leaf the descent reaches, which are the last of them in scan order; all of them if and only if the key stands in no leaf further left; also on a tree with a misplaced separator, nothing if the leaf the descent reaches has no pair with that key |
| BPlusTrees.BPlusTree.RangeScan | src/index/btree.cpp:426-465 | the stored pairs with low <= key <= high, in key order, but for pairs with key low that stand further left; all of them if and only if a lookup of low is complete or the range is empty; no pin is left behind |
| BPlusTrees.BPlusTree.FindLeafPage | src/index/btree.cpp:471-494 | the descent ends in the leaf its separators lead to, whatever order the tree still has, holds one pin at a time, and stops after as many steps as the tree is high |
| BPlusTrees.BPlusTree.SearchEnds | src/index/btree.cpp:471-494 | in a valid tree that leaf is the one whose bounds cover the key |
| BPlusTrees.BPlusTree.FollowDuplicates | src/index/btree.cpp:398-417 | what is found is the matches of a gap-free stretch of the leaf chain; every leaf of it but the first starts with the key, and the leaf behind it does not; without a match in the first leaf nothing is read |
| BPlusTrees.BPlusTree.InsertIntoParent | src/index/btree.cpp:500-605 | whatever cascade of splits follows, the leaves keep their entries, the lower levels are untouched, all pins taken are given back, every write is announced, and one page is allocated for each node the tree gains, at most one for each level above and one for a new root; the tree has its shape again, or, if the cascade ends at a separator that its parent holds already, its searches go astray for the keys of the stated gap only |
| BPlusTrees.BPlusTree.SplitUpwards | src/index/btree.cpp:528-604 | a full parent is split and its own separator is carried up, with two more frames per level at most; how the cascade ends is what was foreseen |
| BPlusTrees.BPlusTree.SplitParent | src/index/btree.cpp:532-597 | after the split the tree waits for one separator, one level higher, and what is foreseen for the cascade stays the same |
| BPlusTrees.BPlusTree.SplitInternal | src/index/btree.cpp:530-597 | the middle key goes up, the halves keep the other keys and children in order, and the moved children name their new parent |
| BPlusTrees.BPlusTree.TakeSeparator | src/index/btree.cpp:522-527 | a parent with room takes the separator and the new child behind the child that was split, which completes the tree; or, if it holds that separator already, behind a neighbour, which leads the searches for the stated gap astray |
| BPlusTrees.BPlusTree.FetchParent | src/index/btree.cpp:507-524 | the parent id stored in the page is the real parent, and the position found by key is the position of the split child, if the separator is not misplaced |
| BPlusTrees.BPlusTree.CreateNewRoot | src/index/btree.cpp:611-645 | the new root has the two halves as children, and both name it as parent |
| BPlusTrees.BPlusTree.GrowRoot | src/index/btree.cpp:508-514 | one level is added on top and the tree has its shape again |
| BPlusTrees.BPlusTree.SplitLeaf | src/index/btree.cpp:298-354 | the contents gain the entry; strict order and complete lookups last if and only if they held before and the cut does not fall inside a run of equal keys; the tree is whole, or one gap of keys is led astray |
| BPlusTrees.BPlusTree.CutLeaf | src/index/btree.cpp:300-346 | the two leaves hold the two halves of the old entries with the new one, and the separator is the first key on the right |
| BPlusTrees.BPlusTree.WriteLeafHalves | src/index/btree.cpp:318-346 | the page bytes of both leaves decode to the halves, and the new leaf is linked into the chain behind the old one |
| BPlusTrees.BPlusTree.InsertFirst | src/index/btree.cpp:264-283 | the first entry makes a well-formed tree of one leaf |
| BPlusTrees.BPlusTree.HeightBound | src/index/btree.cpp:548-575 | a tree of height h >= 2 has at least 2 * 254^(h-2) leaves, and at least 406 * 254^(h-2) entries if no leaf was emptied |
| BPlusTrees.BPlusTree.DistinctInsertCutsNothing | src/index/btree.cpp:304-309 | with distinct keys, inserting a new key never cuts a run |
| BPlusTrees.BPlusTree.CompleteWithoutStraddler | src/index/btree.cpp:384-420 | every lookup is complete exactly if no entry stands in front of an equal separator, so on every strictly ordered tree |
| BPlusTrees.BPlusTree.NeverMisplaces | src/index/btree.cpp:500-605 | on strictly ordered trees and on trees of at most two levels no split pushes up a separator that its parent already holds |
| BPlusTrees.BPlusTree.MisplacedSeparator | src/index/btree.cpp:522-553 | where one would, the nodes over the key are full up to some level, and the parent's search for the separator pushed up there ends behind the neighbour of the node that is split |
| BPlusTrees.BPlusTree.GapIsMissed | src/index/btree.cpp:384-420 | after such an insertion, the search for any key of the gap above the separator ends in a leaf without it, whatever the chain holds under that key |
| BPlusTrees.BPlusTree.OthersAreFound | src/index/btree.cpp:471-494 | and the search for any key outside the gap ends in the leaf of the chain whose bounds cover the key |
| BTreeStrays.TieStrays | src/index/btree.cpp:522-527 | a parent with room that takes a separator it already holds: all searches of the tree, split into those of the gap, which end below the new child in a leaf without any key above the separator, and the others, which end in the leaf over their key |
| BTreeStrays.WalkFrom | src/index/btree.cpp:471-494 | a walk along the separators from a node whose bounds cover the key ends in the leaf whose bounds do |
| BTreeStrays.WalkLast | src/index/btree.cpp:471-494 | a walk for a key not below the bound on a node's right ends in that node's last leaf, where no key above the bound stands |
| BTreeTies.IsTree | src/index/btree.cpp:500-605 | a tree of 3 inner nodes and 762 leaves whose left inner node is full and repeats the root's separator has the shape of an index |
| BTreeTies.TiesAtRoot | src/index/btree.cpp:522-553 | on that tree an insertion of key 0 pushes up the separator 1000, which the root holds already; the root has room, and the gap is all keys from 1000 on |
| BTreeTies.LoseFarEntry | src/index/btree.cpp:262-420 | a failing run on that tree: the lookup of key 2000 finds its entry, an entry with key 0 is inserted, and the same lookup returns nothing though the entry is still in the leaf chain |
| BTreeRuns.LoseEqualKeys | src/index/btree.cpp:262-420 | 406 insertions of one key are all found by its lookup; after one more all 407 are stored and the lookup finds fewer |
| BTreeGrowth.ParentTakes | src/index/btree.cpp:522-527 | putting a split child's new sibling into its parent completes the tree |
| BTreeGrowth.ParentSplits | src/index/btree.cpp:542-594 | splitting a full parent moves the unfinished place exactly one level up and keeps every other link, parent pointer and size |
| BTreeGrowth.RootGrows | src/index/btree.cpp:611-645 | a new root over the two halves completes the tree |
| BTreeGrowth.LeafSplits | src/index/btree.cpp:318-346 | cutting a leaf in two keeps chain, links and sizes, and leaves one separator to be placed |
| BTreeGrowth.DescendStep | src/index/btree.cpp:484-487 | the child chosen by key covers the key if its parent does |
| BTreeGrowth.ChildPosition | src/index/btree.cpp:523-525 | searching the parent for the separator finds the position of the child that was split |
| BTreeSeparators.FitsUp | src/index/btree.cpp:542-553 | the separator an inner split pushes up lies between the bounds of the node and its right neighbour, and is found right behind the node, unless it is tied, which is so exactly if that was foreseen for this level |
| BTreeSeparators.RoomDecides | src/index/btree.cpp:520-528 | a full parent never holds the separator already on a foreseen course; a parent with room ends the cascade, misplacing the separator exactly if that was foreseen |
| BTreeSeparators.TiedLandsElsewhere | src/index/btree.cpp:543-549 | a full node whose pushed-up separator stands in the parent already is not followed by its new sibling |
| BTreeSeparators.TakesOver | src/index/btree.cpp:61-84 | a child put in where the search for its separator ends takes over every search that ended in the child before it, for keys from the separator on |
| BTreeSeparators.StrictIsClear | src/index/btree.cpp:500-605 | separators that grow strictly are never tied, at any level |
| BTreeHeight.LevelAtLeast | src/index/btree.cpp:548-575 | every level has at least twice or 254 times as many nodes as the level above |
| BTreeHeight.HalfFullSplit | src/index/btree.cpp:309-338 | a split leaves no leaf with fewer than 203 entries |
| BTreeOrder.SplitOrderedIff | src/index/btree.cpp:308-342 | a split always keeps the weak order, and keeps the strict one, and all lookups complete, exactly if it held and the keys at the cut differ |
| BTreeOrder.InsertOrdered | src/index/btree.cpp:165-179 | insertion into the leaf over the key keeps the weak order, at most 203 entries at any upper bound, and neither gains nor loses strict order or complete lookups |
| BTreeOrder.DeleteOrdered | src/index/btree.cpp:181-196 | removal keeps the weak order, the strict one and the completeness of lookups |
| BTreeOrder.ScanStart | src/index/btree.cpp:426-440 | what stands left of the leaf a scan starts in and belongs to the range has the scan's lowest key, and there is none exactly if the lookup of that key is complete |
| BTreeOrder.LookupsCompleteIff | src/index/btree.cpp:384-420 | the leaf reached by descent holds all entries of its key, for every key, exactly if no entry reaches its leaf's upper bound |
| BTreeOrder.StraddlerMissed | src/index/btree.cpp:61-74 | an entry left of a separator equal to its key is missed by the lookup of that key |
| BTreeOrder.InsertContents | src/index/btree.cpp:291-296 | inserting into the covering leaf adds one entry to the whole list, at its sorted place in front of its equals if the lookup of its key is complete |
| BTreeOrder.DeleteContents | src/index/btree.cpp:369-374 | deleting from the covering leaf removes one copy from the whole list exactly if a lookup reads one; if the lookup of the key is complete it is the first copy, and there is one exactly if the pair is stored |
| BTreeOrder.EntriesSorted | src/index/btree.cpp:426-465 | the leaf chain reads as one sorted list |
| BTreeOrder.EqualRunIsCut | src/index/btree.cpp:309-342 | a full leaf of one key is cut when it has to take that key again |
| BTreeOrder.DistinctKeysNeverCut | src/index/btree.cpp:309-342 | a leaf of distinct keys is never cut inside a run |
| SortedEntries.SortedInsertMultiset | src/index/btree.cpp:165-179 | insertion adds one copy and changes no other multiplicity |
| SortedEntries.SortedInsertSorted | src/index/btree.cpp:165-179 | insertion at the lower bound keeps the list sorted |
| SortedEntries.RemoveFirstMultiset | src/index/btree.cpp:181-196 | deletion removes one copy of a stored pair and nothing otherwise |
| SortedEntries.RemoveUndoesInsert | src/index/btree.cpp:165-196 | deleting a pair just inserted gives the old list back |
| SortedEntries.RangeMultiset | src/index/btree.cpp:442-452 | a range keeps every copy inside its bounds and none outside |
| SortedEntries.RangeSorted | src/index/btree.cpp:442-452 | a range of a sorted list is sorted |
| IndexNodes.LeafNode.FindKeyPosition | src/index/btree.cpp:151-163 | the binary search finds the first position whose key is not smaller |
| IndexNodes.LeafNode.Insert | src/index/btree.cpp:165-179 | refused exactly when full; otherwise the entries gain one at its sorted place |
| IndexNodes.LeafNode.Delete | src/index/btree.cpp:181-196 | the scan through equal keys finds the pair exactly if it is there and erases its first copy |
| IndexNodes.LeafNode.FindAll | src/index/btree.cpp:198-208 | the RIDs of all entries of the leaf with that key |
| IndexNodes.LeafNode.SerializeToPage | src/index/btree.cpp:210-226 | the loop writes the byte image of the node over the page |
| IndexNodes.InternalNode.FindChild | src/index/btree.cpp:61-74 | the binary search finds the first key that is larger, so equal keys go right |
| IndexNodes.InternalNode.InsertAfter | src/index/btree.cpp:76-84 | the key goes to the position and the child one behind it |
| IndexNodes.InternalNode.SerializeToPage | src/index/btree.cpp:86-108 | the loop writes the byte image of the node over the page |
| NodeCodec.DecodeEncode | src/index/btree.cpp:210-247 | every node within its limits is read back as it was written, over any page |
| NodeCodec.NodeLayout | src/index/btree.cpp:86-247 | the byte at which each field of a node stands: type 20, parent 21, count 25, next 27, then ten bytes for an entry, or four for a child and four for a key in turn |
| NodeCodec.PatchParent | src/index/btree.cpp:629-634 | overwriting the four parent bytes changes the parent and nothing else of the node |
| NodeCodec.HeaderKeepsNode | src/index/btree.cpp:110-131 | a node depends only on the bytes from 20 on |
| SlottedPage.Page.constructor | src/storage/page.cpp:37-45 | a new page is well-formed, without slots, with 4076 free bytes |
| SlottedPage.Page.InsertRecord | src/storage/page.cpp:69-111 | succeeds exactly if the record and a new slot entry, if one is needed, fit; it takes the first empty slot, changes no other record, and keeps layout and counts |
| SlottedPage.Page.DeleteRecord | src/storage/page.cpp:113-128 | true exactly for a live slot; that record is gone, all others and all slot numbers stay |
| SlottedPage.Page.GetRecord | src/storage/page.cpp:130-141 | the bytes of the live record in the slot, or none |
| SlottedPage.Page.UpdateRecord | src/storage/page.cpp:143-174 | succeeds exactly by the length guard; the page stays well-formed if and only if the update does not overrun, and then holds the new bytes in that slot |
| SlottedPage.Page.Compact | src/storage/page.cpp:180-218 | every slot keeps its record and the free space becomes 4096 - 20 - 4 * slots - live bytes, never less than before |
| SlottedPage.Page.PackAll | src/storage/page.cpp:196-215 | after the packing loop all records lie in one block at the end of the page, which starts 4096 - live bytes in, without overlap and with their bytes intact |
| SlottedPage.Page.FreeAtMost | src/storage/page.cpp:180-218 | no well-formed page with these records has more free space than compaction leaves |
| SlottedPage.Page.PackOne | src/storage/page.cpp:210-214 | one step of the packing loop keeps packed and waiting records apart and their bytes intact |
| SlottedPage.Page.HasSpaceFor | src/storage/page.cpp:227-235 | the answer of the 16-bit sum; it is the answer of an insert of that many bytes exactly for the lengths that neither are 0 and fit nor wrap around to something that fits |
| SlotMap.HasRoomIff | src/storage/page.cpp:227-235 | for every length and every page: the 16-bit answer is that of the insert if and only if the stated condition holds |
| SlotMap.HasRoomWraps | src/storage/page.cpp:230-234 | an empty page answers that it has room for 65535 bytes, and refuses them |
| SlotMap.GrowthOverruns | src/storage/page.cpp:158-167 | with 50 bytes free, growing a record from 100 to 120 bytes passes the guard and does not fit |
| SlottedPage.OverrunPage | src/storage/page.cpp:143-174 | two inserts and one update that is let through leave a page that is not well-formed |
| SlottedPage.Page.FindEmptySlot | src/storage/page.cpp:320-327 | the first empty slot, or the number of slots |
| SlottedPage.Page.SerializeToBuffer | src/storage/page.cpp:241-274 | the buffer becomes the byte image of header and directory over the records, and a well-formed page keeps all its records |
| SlottedPage.Page.DeserializeFromBuffer | src/storage/page.cpp:276-310 | header and slots become what the buffer says |
| SlottedPage.ReadZeros | src/storage/page.cpp:276-310 | a page object read from a buffer of zeros has no slots, and its free space starts and ends at 0 |
| SlottedPage.RoomForAll | src/storage/page.cpp:196-214 | however the records lie, packing any number of them in descending order stays clear of the rest |
| PageLayout.SortDescendingSorts | src/storage/page.cpp:198-201 | the records in compaction order are the live ones, by offset, largest first |
| PageCodec.FromToBytes | src/storage/page.cpp:241-310 | writing and reading back keeps the header, all slots and every record |
| PageCodec.FieldsStand | src/storage/page.cpp:241-274 | the byte at which each header field stands: page 0, slots 4, free offset 6, free end 8, records 10, next page 12, flags 16, and slot i at 20 + 4i |
| Bytes.LowestFirst | src/storage/page.cpp:241-310 | two- and four-byte fields are read and written lowest byte first |
| PageCodec.ToFromBytes | src/storage/page.cpp:241-310 | reading and writing back any buffer gives the same bytes |
| PageCodec.NodeSurvives | src/storage/page.cpp:241-274 | a page without slots only gets its header written, so an index node in it survives |
| SlotMap.InsertAdds | src/storage/page.cpp:69-111 | as a map from slots to bytes, an insert adds one entry under the lowest free slot; the free space shrinks by its bytes, and by four for a new slot |
| SlotMap.InsertLimit | src/storage/page.cpp:69-91 | the largest record that fits: all free bytes where a slot is empty, four less where none is; nothing changes otherwise |
| SlotMap.DeleteRemoves | src/storage/page.cpp:113-128 | as a map, a delete removes one entry; no slot and no free byte comes or goes |
| SlotMap.UpdateReplaces | src/storage/page.cpp:143-174 | as a map, an update replaces one entry; a record that does not grow takes no free space, one that grows takes its whole length |
| SlotMap.UpdateLimit | src/storage/page.cpp:143-167 | the longest update let through grows its record by exactly the free bytes; a refused one changes nothing |
| SlotMap.CountIsSize | src/storage/page.cpp:106-125 | the record count is the size of the map |
| Disk.DiskManager.AllocatePage | src/disk/disk_manager.cpp:118-159 | the top of the free stack or a new last page, never a live page, always zeroed; no other page but the header changes |
| Disk.DiskManager.DeallocatePage | src/disk/disk_manager.cpp:161-181 | refused exactly for the header and pages beyond the file; otherwise the page is on top of the free stack, holds the number of the page below and zeros, and the stack is still sound if and only if the page was not free already |
| Disk.DiskManager.ReadPage | src/disk/disk_manager.cpp:82-96 | the page's bytes, or none beyond the end of the file |
| Disk.DiskManager.WritePage | src/disk/disk_manager.cpp:98-112 | the bytes of any existing page are replaced; the free chain is untouched if the page was live |
| Disk.DiskManager.Open | src/disk/disk_manager.cpp:33-66 | a reopened file has the free stack it was closed with |
| Disk.DiskManager.OpenFile | src/disk/disk_manager.cpp:55-66 | an empty file or one with another magic number is refused, and any other is opened with its free stack |
| Disk.DiskManager.WriteHeader | src/disk/disk_manager.cpp:234-259 | the header page describes the state that reopening restores |
| Disk.FileDeterminesStack | src/disk/disk_manager.cpp:209-232 | the bytes of a file belong to one stack of free pages only, so the chain is acyclic and as long as the stored count |
| Disk.HeaderRoundTrip | src/disk/disk_manager.cpp:209-259 | the five header fields are read back as written |
| BufferPool.BufferPoolManager.FetchPage | src/buffer/buffer_pool_manager.cpp:102-152 | what callers see of all live pages is unchanged by loading and evicting; one pin more on this page and no other; succeeds exactly if the page exists and is held already or some frame is not |
| BufferPool.BufferPoolManager.UnpinPage | src/buffer/buffer_pool_manager.cpp:154-182 | true exactly if the page was pinned; one pin less, the dirty flag sticks, and the last unpin makes the frame evictable |
| BufferPool.BufferPoolManager.NewPage | src/buffer/buffer_pool_manager.cpp:188-216 | one live page more, formatted, dirty and pinned once, with an id no live page had, the one the disk hands out next, in the first free frame or that of the page released longest ago; its header has no slots, all 4076 bytes free and no next page; no other pin changes; fails exactly if every frame is held |
| NewPages.NewPageReadBack | src/buffer/buffer_pool_manager.cpp:188-216 | a page object read from a new page is empty, well-formed, with 4076 bytes free, its own id and no next page; and so it is after the page was released, any others were fetched, and it was fetched again |
| SlottedPage.ReadNewPage | src/storage/page.cpp:37-45 | what the bytes of a newly formatted page decode to |
| BufferPool.BufferPoolManager.DeletePage | src/buffer/buffer_pool_manager.cpp:218-248 | true exactly for existing pages nobody holds; that page is gone and on top of the disk's free stack, its frame is empty and last of the free list, no other page or frame changes, and all pin counts and the file's length stay; the pool stays sound if and only if the page was not free already |
| BufferPool.BufferPoolManager.FlushPage | src/buffer/buffer_pool_manager.cpp:254-273 | the disk holds the page as callers see it, and its frame alone is marked clean; no other page is written; pin counts and the file's length stay |
| BufferPool.BufferPoolManager.FlushAllPages | src/buffer/buffer_pool_manager.cpp:275-289 | the disk holds every live page as callers see it, but for writes not announced yet, and every frame is marked clean; pin counts and the file's length stay |
| BufferPool.BufferPoolManager.FindFreeFrame | src/buffer/buffer_pool_manager.cpp:314-331 | the free list first, then the frame released longest ago; none exactly if both are empty; nothing visible changes |
| BufferPool.BufferPoolManager.EvictFrame | src/buffer/buffer_pool_manager.cpp:333-353 | a dirty page is written before it leaves its frame, so callers see the same bytes |
| BufferPool.BufferPoolManager.WriteHeld | src/storage/page.cpp:69-174 | a holder's write changes what callers see of that page and of no other |
| BufferPool.BufferPoolManager.Access | src/buffer/buffer_pool_manager.cpp:102-182 | fetch and unpin move the page to the front of the resident list and push out the last one only if the pool is full; a hit exactly if it was resident |
| BufferPool.BufferPoolManager.AccessRun | src/buffer/buffer_pool_manager.cpp:102-182 | after any run of accesses the resident pages and the number of hits are those of the list model |
| BufferPool.FramesAddUp | src/buffer/buffer_pool_manager.cpp:314-331 | free frames, evictable frames and held pages add up to the pool size |
| PoolLayers.FetchBoth | src/buffer/buffer_pool_manager.cpp:102-152 | the tree's pool and the buffer pool grant the same fetches and show the same nodes afterwards, whatever was evicted |
| PoolLayers.UnpinBoth | src/buffer/buffer_pool_manager.cpp:154-182 | both take back the same pin and stay in step, whatever dirty flag the tree passes: the tree's pool refuses a clean release of a page it wrote, and the buffer pool then loses nothing |
| PoolLayers.NewBoth | src/buffer/buffer_pool_manager.cpp:188-216 | both hand out the same new page, or both fail |
| PoolLayers.WriteLeafBoth | src/index/btree.cpp:210-226 | a leaf written by the tree is the leaf the buffer pool shows from then on |
| PoolLayers.WriteInternalBoth | src/index/btree.cpp:86-108 | the same for an inner node |
| PoolLayers.SetParentBoth | src/index/btree.cpp:629-634 | the same for a parent pointer overwritten in place |
| PoolLayers.NodesShown | src/storage/page.cpp:241-274 | every node of the tree is what the bytes shown by the buffer pool decode to |
| PoolLayers.HeldArePinned | src/buffer/buffer_pool_manager.cpp:314-331 | the frames that held pages take in the tree's pool are those of the pinned pages |
| PoolLayers.StartBoth | src/disk/disk_manager.cpp:40-48 | over a new database file both start in step |
| BufferFrames.ThreeWays | src/buffer/buffer_pool_manager.cpp:35-65 | every frame is free, evictable or pinned, and only one of these; it is occupied exactly if the page table names it |
| BufferFrames.WriteBackStep | src/buffer/buffer_pool_manager.cpp:337-344 | writing a frame back keeps the accounting and what callers see, and leaves the frame equal to its page on disk |
| BufferFrames.LoadStep | src/buffer/buffer_pool_manager.cpp:131-149 | a page read from disk into an empty frame is seen as it was on disk |
| BufferFrames.WrittenImage | src/buffer/buffer_pool_manager.cpp:266-268 | serializing a page in place does not change what it would write |
| Recency.PoolHoldsMostRecent | src/buffer/buffer_pool_manager.cpp:35-65 | the resident pages are exactly the most recently accessed distinct ones, as many as fit |
| Recency.Inclusion | src/buffer/buffer_pool_manager.cpp:35-65 | whatever a smaller pool holds, a larger one holds too |
| Recency.LargerPoolHitsMore | src/buffer/buffer_pool_manager.cpp:35-65 | a larger pool never has fewer hits |
| LogRecords.DeserializeSerialize | src/recovery/log_record.cpp:119-158 | every record the factories make is read back as it was |
| LogRecords.RecordsReadBack | src/recovery/log_record.cpp:14-88 | an insert and a delete carry their bytes, 21 more in all; they, a new page and a checkpoint's start are read back with type 1, 2, 4 and 5, page, slot and sizes as given |
| LogRecords.RecordBytes | src/recovery/log_record.cpp:119-158 | the byte at which each field of a record stands: size 0, LSN 4, type 12, page 13, slot 17, payload size 19, payload 21 |
| LogRecords.UpdateRoundTrip | src/recovery/log_record.cpp:44-66 | both versions of an update come back out of its payload, where each stands behind two bytes for its length |
| LogRecords.DirtyPageTableRoundTrip | src/recovery/log_record.cpp:90-113 | the dirty page table comes back out of its payload, twelve bytes for each page behind four for their number, in a record of type 6 that names no page |
| LogStream.TornTail | src/recovery/log_manager.cpp:178-229 | whatever byte the stream is cut at, the reader yields exactly the records wholly inside the cut, in order |
| LogStream.ReadsBack | src/recovery/log_manager.cpp:122-134 | from where a record starts, the reader yields exactly the rest |
| LogStream.WholeCountIs | src/recovery/log_manager.cpp:212-216 | the number of whole records is the largest whose bytes fit the cut |
| LogStream.RecordStands | src/recovery/log_manager.cpp:76-78 | each record's bytes stand at its start, and the next record starts behind them |
| LogStream.TornRecordHides | src/recovery/log_manager.cpp:197-229 | whole records, the front of one more, and any bytes that do not fill the gap: the reader yields exactly the whole records |
| LogStream.FilledGapGarbles | src/recovery/log_manager.cpp:197-229 | once the gap is filled, the reader yields the whole records, then one record made of both parts, and then what it makes of the bytes behind the gap; nothing behind the whole records if that one has no type |
| LogStream.GarbledPayload | src/recovery/log_record.cpp:138-158 | if its header was written, that record is the torn one with the rest of its payload replaced by other bytes |
| LogStream.ParsedBehind | src/recovery/log_manager.cpp:185-229 | behind whole records a reader makes of any bytes what it makes of them alone |
| LogManagement.AppendBehindTear | src/recovery/log_manager.cpp:46-100 | a file torn inside any record, opened and appended to any number of times: the file grows by these records, and the iterator yields only the whole records in front of the tear while the gap is not filled |
| LogManagement.LogManager.AppendLogRecord | src/recovery/log_manager.cpp:69-100 | file and buffer together gain exactly the bytes of this record, also one longer than the buffer and whatever the file held; the LSN returned is the byte offset where it starts; the file is written exactly if the record does not fit behind what the 64 KB buffer holds, and with it exactly if it is longer than the buffer |
| LogManagement.LogManager.FlushBuffer | src/recovery/log_manager.cpp:158-172 | the file becomes file and buffer together, extending what it was; of a log of whole records it then holds them all |
| LogManagement.LogManager.FlushUpTo | src/recovery/log_manager.cpp:110-116 | file and buffer together stay what they were, also behind a torn record; of a log of whole records, every record starting at the LSN or before is wholly in the file, which is untouched if that was so |
| LogManagement.LogManager.Begin | src/recovery/log_manager.cpp:122-126 | the iterator yields what a sequential reader makes of file and buffer, torn or not; of a log of whole records, all of them |
| LogManagement.LogManager.BeginAt | src/recovery/log_manager.cpp:128-134 | the iterator yields what a reader makes of the bytes from any offset on; from a returned LSN, that record and all later ones |
| LogManagement.LogIterator.Next | src/recovery/log_manager.cpp:185-195 | one record is consumed and the rest is what the reader yields from there |
| LogManagement.LogIterator.ReadCurrentRecord | src/recovery/log_manager.cpp:197-229 | valid exactly if a whole record of a real type stands at the offset |
| Redo.RunsAreWellLogged | src/storage/page.cpp:69-174 | logging each successful page operation gives a log that stands for exactly the records the page ends with, compactions included |
| Redo.RedoReachesFinal | src/recovery/recovery_manager.cpp:126-192 | with room for every change that is redone, for any disk page and any records the log began with: every redone insert lands on its logged slot if and only if none comes while a lower slot misses a record of the base; and then replay ends with the slots of the original run if and only if each record on disk is deleted or updated by the log or is the final one, and each lost record is deleted by the log |
| Redo.RedoFromCoveringPage | src/recovery/recovery_manager.cpp:126-192 | with that room, on a page that has lost no record the log began with, every insert lands right and the page ends right exactly if it is redoable |
| Redo.RunIsRecovered | src/storage/page.cpp:69-218 | a run of page operations on a formatted page, logged as it goes: from what the page was after any k of them, with room for the replay, replay ends with the records the run ended with |
| Redo.PrefixRedoable | src/recovery/recovery_manager.cpp:126-192 | a page that shows any prefix of its whole log meets that condition |
| Redo.RestartsReachFinal | src/recovery/recovery_manager.cpp:54-70 | however often recovery is cut short and started over, with room each time, the page ends as the original run left it |
| Redo.RoomSuffices | src/storage/page.cpp:87-91 | free space for all logged lengths and slot entries is enough for any replay |
| Redo.RestartRoomSuffices | src/recovery/recovery_manager.cpp:54-70 | that much once per start is enough for every start |
| RedoRoom.RoomIff | src/recovery/recovery_manager.cpp:141-192 | the replay of a page's log finds room for every change it needs exactly if the free bytes on disk cover a sum over the log: the length and slot entry of each insert and the growth of each update that the disk page, the base and the changes before it leave to be done |
| RedoRoom.TakesAllIff | src/recovery/recovery_manager.cpp:141-192 | on any page and for any changes, the replay finds room exactly if the free bytes cover what a dry run on the slots adds up |
| RedoRoom.RedoWithRoom | src/recovery/recovery_manager.cpp:126-192 | the redo theorem with every condition stated of the disk page, the base and the log before replay: no early insert and enough bytes, and then the page ends right exactly if it is redoable and lost records are deleted |
| RedoRoom.FullPageLosesRecord | src/recovery/recovery_manager.cpp:141-152 | a formatted page and its whole log, 1500 bytes inserted, deleted, 2000 bytes inserted: from the page after the delete replay ends without the record the run ended with |
| RedoRoom.InsertRunIsRecovered | src/recovery/recovery_manager.cpp:141-152 | a run of inserts only is recovered from the page after any number of them, without any condition on room |
| Redo.RedoPageByPage | src/recovery/recovery_manager.cpp:54-64 | replaying the interleaved log does to each page what replaying its own part does |
| Redo.RecoveryRestoresPages | src/recovery/recovery_manager.cpp:54-70 | if each page shows a prefix of its own log, its own prefix for each page, and has room for its replay, replay restores all pages |
| Redo.RecoveryAfterRecovery | src/recovery/recovery_manager.cpp:54-70 | pages written back at different points of a recovery, finished or not, are restored by running it again, with room |
| Redo.UntouchedStays | src/recovery/recovery_manager.cpp:141-144 | a live record that no delete or update names survives any replay |
| Redo.TruncatedLogLosesRecord | src/recovery/recovery_manager.cpp:141-152 | a log that does not reach back to the page's birth can lose a record the disk already had |
| Redo.WrongSlotRightState | src/recovery/recovery_manager.cpp:141-152 | a redone insert can go to the wrong slot and the page still end right, so landing right is a condition of its own |
| Redo.UnformattedStaysEmpty | src/storage/page.cpp:286-290 | on slots and free bytes of such a page, no replay changes anything |
| Recovery.RedoOnUnformatted | src/recovery/recovery_manager.cpp:133-192 | a page object read from a buffer of zeros: whatever log is replayed, it stays empty, though every insert of the log counts as redone |
| Recovery.RecoveryManager.Recover | src/recovery/recovery_manager.cpp:54-70 | whatever the log file holds, the pages end as the replay of the changes in the records a reader gets out of it, and the count returned is the number of records redone; for a log of whole records these are all of them; from pages as they were when the log began, with room, the count is that of the new pages and of the changes to known pages in the log |
| Recovery.WholeLogCounts | src/recovery/recovery_manager.cpp:126-210 | replayed on pages as they were when the log began, every new page and every change of a known page counts, and nothing else does |
| Recovery.RecoveryManager.RecoverAfterCrash | src/recovery/recovery_manager.cpp:54-70 | over a log file cut at any byte, each page with room for its replay ends with the records that the surviving part of the original run gave it |
| Recovery.RecoveryManager.RecoverFrom | src/recovery/recovery_manager.cpp:58-64 | the same for whatever records an iterator still yields, so also for a torn file |
| Recovery.RecoveryManager.RedoRecord | src/recovery/recovery_manager.cpp:126-210 | one record changes its own page only, as the replay step says; the count rises by one exactly for a new page, an insert whose slot is empty, and a delete or update whose slot holds a record, on a page that can be fetched, and stays otherwise |
| Recovery.RedoOnPage | src/recovery/recovery_manager.cpp:133-192 | the slotted page does what the replay step on slots says |
| Recovery.RecoveryManager.LogInsert | src/recovery/recovery_manager.cpp:76-80 | the log gains exactly this record, of type 1 with its page, slot and bytes, 21 bytes more than the data, and its changes exactly this insert; the LSN returned is where the record starts |
| Recovery.RecoveryManager.LogDelete | src/recovery/recovery_manager.cpp:82-86 | the log gains exactly this record, of type 2 with its page, slot and the old bytes, 21 bytes more than these, and its changes exactly this delete; the LSN returned is where the record starts |
| Recovery.RecoveryManager.LogUpdate | src/recovery/recovery_manager.cpp:88-94 | the log gains exactly this record, of type 3 with its page, slot and both versions behind their lengths, 25 bytes more than these, and its changes exactly this update, with the new version; the LSN returned is where the record starts |
| Recovery.RecoveryManager.LogNewPage | src/recovery/recovery_manager.cpp:96-99 | the log gains exactly this record, of type 4 with its page and no bytes, and no change; the LSN returned is where the record starts |
| Recovery.RecoveryManager.Checkpoint | src/recovery/recovery_manager.cpp:105-120 | the log gains a record of type 5 and one of type 6 with an empty dirty page table, both without a page, and no change; the whole log is in the file |
| Recovery.CheckpointAddsNothing | src/recovery/recovery_manager.cpp:204-210 | two such records at the end of any log change neither the replay nor its count |
| Recovery.CrashRecovery | src/recovery/recovery_manager.cpp:54-70 | for a log file cut at any byte and pages each showing a prefix of its surviving records and having room for its replay, reading and replaying the file restores all pages; the whole log, not the surviving part, is assumed to be a log of page operations |
| Recovery.SurvivorsWellLogged | src/recovery/log_manager.cpp:197-229 | what survives of a page's own part of the log is again a log of page operations |
| HeapFiles.HeapFile.InsertRecord | src/storage/heap_file.cpp:71-116 | stores the record under a RID that was free, exactly for 1 to 4072 bytes; all other records and all pins stay; it goes to the page found by the directory, into its lowest empty slot, and that page leaves the directory if 64 bytes no longer fit; for longer records a page is added in vain |
| HeapSpace.InsertTarget | src/storage/heap_file.cpp:71-116 | if pages of the directory have room, the first of them takes the record into its lowest empty slot and no page is added; if none has, exactly one page is added at the end of the chain and takes it in slot 0; the page is in the directory afterwards exactly if it has room for 64 bytes |
| HeapFiles.HeapFile.DeleteRecord | src/storage/heap_file.cpp:118-141 | true exactly for a stored RID; only that record is gone, the count follows, and the page is put at the end of the directory if it is missing there; otherwise nothing changes |
| HeapFiles.HeapFile.GetRecord | src/storage/heap_file.cpp:143-166 | the record in that slot of that page, or none, which for a RID of this heap or of no page is the record stored under it; its page stays pinned exactly if a record was found |
| HeapFiles.HeapFile.UpdateRecord | src/storage/heap_file.cpp:168-192 | for a stored RID the record is replaced, in place if the page can hold it and else under another RID, and the count stays; if it does not fit in place and no page takes it, the old record is gone and the count follows. For a RID of a page of the heap without a record the data is inserted and the count falls behind; a RID of no page changes nothing; in place the directory stays, and else the deletion leaves it alone and the insertion treats it as any insertion does |
| HeapFiles.HeapFile.BulkInsert | src/storage/heap_file.cpp:206-274 | the same as inserting the records one by one under RIDs that were free; the batch starts on the page found for 64 bytes, each record goes to the current page if it fits there, and else that page leaves the directory and the record goes to the page found for it; at most one page more than records is added |
| HeapFiles.HeapFile.Scan | src/storage/heap_file.cpp:198-200 | a full scan meets every stored record exactly once, as many as are counted but for the updates of missing RIDs, and leaves no pin |
| HeapFiles.HeapFile.Open | src/storage/heap_file.cpp:42-64 | walking the chain from its first page restores last page, page count and record count, and the directory of the pages with room for 64 bytes |
| HeapSpace.RoomyPagesAre | src/storage/heap_file.cpp:42-64 | that directory holds exactly the pages of the chain with that room, in chain order |
| HeapFiles.HeapFile.Create | src/storage/heap_file.cpp:38-41 | a new heap is one empty page, which is the chain and the directory |
| HeapRuns.Run | src/storage/heap_file.cpp:38-274 | any run of inserts, bulk inserts, deletes and updates from a new heap: each step does to the stored records what it promises, pages suffice if they suffice for the run, and the run ends early only at an update that overruns its page; the count is exact if no update names a missing RID |
| HeapRuns.Issue | src/storage/heap_file.cpp:71-274 | any one operation, with the pages it may add |
| HeapRuns.FillFirstPage | src/storage/heap_file.cpp:38-116 | a run: records that fit one page together, all but the last leaving room for 64 bytes, all go to the first page, into slots 0, 1, 2 and so on, and the heap stays one page |
| HeapRuns.LoseLongUpdate | src/storage/heap_file.cpp:168-192 | a failing run: 100 bytes are inserted and updated to 4073 bytes, and the heap is empty |
| HeapRuns.MiscountUpdate | src/storage/heap_file.cpp:168-192 | a failing run: an update of a RID that was deleted leaves one record and a count of 0 |
| HeapFiles.HeapFile.AllocateNewPage | src/storage/heap_file.cpp:280-304 | the chain and the directory gain one empty page at their ends, no record changes, and all pins are given back |
| HeapFiles.HeapFile.FindPageWithSpace | src/storage/heap_file.cpp:306-329 | the first page of the directory that says it has room, the pages before it having left the directory, and nothing else changed; if none has, all have left and one new page is the chain's and the directory's last |
| HeapFiles.HeapFileIterator.Next | src/storage/heap_file.cpp:374-377 | consumes one row; the only pin held is on the page the cursor stands on |
| HeapFiles.HeapFileIterator.AdvanceToNextRecord | src/storage/heap_file.cpp:379-428 | moves to the next live record in chain-then-slot order, or releases the last page |
| HeapRows.RowsAre | src/storage/heap_file.cpp:379-428 | the rows of a scan are exactly the stored records, each once, as many as live records |
| HeapRows.OverlongNeverFits | src/storage/page.cpp:143-174 | a page of a heap holds no record longer than 4072 bytes, and no update to a longer one is let through on it, so that such an update always loses the old record |
| HeapRows.ChainUnique | src/storage/heap_file.cpp:45-63 | the pages determine the chain from its first page |

## Left out

- POSIX calls, fsync, short reads and I/O errors: files are sequences of pages or bytes, and reads and writes succeed; nothing is claimed about durability.
- The mutexes: every operation of the pool and the log runs under one lock, so each is one step.
- The rule that log records reach the disk before the pages they describe: the buffer pool does not enforce it, so `CrashRecovery` assumes that each page shows a prefix of its surviving log.
- Recovery of chain links, page flags and index pages: the log does not cover them.
- Truncating the log: the code promises nothing there.
- Query executors, the NBA record format, statistics, benchmarks and build files.
- The heap file and recovery use pools of their own (`DataPool`, a map of pages) instead of a `BufferPoolManager` object: these succeed and fail as `BufferPoolManager.FetchPage` and `NewPage` do, counted in held pages, and keep no frames or dirty flags. The tree's pool, `IndexPages`, is shown in `PoolLayers` to stay in step with a `BufferPoolManager`; there the index is the only user of the pool.
- HeapFiles.HeapFile: its pages are values with the records and free space that the `Page` class is proved to have, not `Page` objects.
- BPlusTrees.BPlusTree.Insert: leaves out the one case in which the parent that already holds a misplaced separator is full as well and is split around it (`Derails`), and operations on a tree after a misplaced separator other than searches. It also takes 2h + 1 free frames and enough page ids for granted, so that no fetch or allocation fails; the branches taken when they do fail (`src/index/btree.cpp:266`, `313`, `518`, `558`, `613`) are not modelled.
- BPlusTrees.BPlusTree: keys are compared as unsigned 32-bit numbers, the default comparator; the key and RID vectors of a leaf are read as one sequence of pairs.
- SlottedPage.Page.UpdateRecord: an overrunning update must still start inside the buffer; writes before its first byte have no meaning in the original.
- BufferPool.BufferPoolManager.FetchPage: is asked for live pages or pages beyond the file, and holders announce their writes by the last unpin, as its callers do; the original checks neither.
- Disk.DiskManager.WritePage: nothing is said of a file whose header page or free pages were overwritten.
- SlottedPage.Page.DeserializeFromBuffer: not on buffers whose slot count runs past the page, where the original reads beyond its buffer.
- IndexNodes.InternalNode.SerializeToPage: not for nodes without keys, which no operation writes.
- Recovery.RecoveryManager.RedoRecord: as all of recovery, stated for updates that do not overrun their page and for update records that can be taken apart.
- Recovery.RecoveryManager.Recover: the flush of all pages after the replay (`src/recovery/recovery_manager.cpp:67`) is that of `BufferPoolManager.FlushAllPages` and not repeated there.
- Recovery.RecoveryManager.Checkpoint: the same for the flush between its two records.
- LogRecords.MakeUpdate: both versions together must fit the 16-bit payload size.
- LogManagement.LogManager: LSNs and file offsets do not wrap around at 64 bits; the LSN field inside a record stays at the caller's value, so statements are about the returned LSN.
- LogManagement.LogIterator: is not used on files whose size fields are between 1 and 20; the original would read past its buffer.
- HeapFiles.HeapFile.UpdateRecord: takes RIDs of this heap's pages or of pages that do not exist, and no update that overruns its page; the record count is an unbounded integer, where the original wraps around below 0 and past 32 bits.
- HeapFiles.HeapFile.InsertRecord: like the bulk insert, it takes two free frames for granted, so that no fetch or allocation fails.
- HeapFiles.HeapFile.DeleteRecord: takes RIDs of this heap or of pages that do not exist; the original would delete from any page.
- HeapFiles.HeapFileIterator: the heap does not change during a scan.
