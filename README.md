# Circle-Tree and FAST-FAIR node layer in Dafny

This project models the node layer of Circle-Tree, a B+-tree for persistent
memory. Each page keeps its sorted records in a circular array. An insert
or a remove shifts whichever half of the window is shorter, so at most half
the records move. Four layouts of the same page are modelled, as the values
of `CirclePage.Variant`:

- `Single`: the single-threaded Circle-Tree (`single/src/Circle-Tree.h`);
- `Fingerprint`: the concurrent Circle-Tree with one-byte key fingerprints
  beside the records (`concurrent/src/Circle-Tree_fp.h`);
- `Ycsb`: the YCSB-driven Circle-Tree, which adds value updates in place
  (`YCSB-concurrent/src/Circle-Tree.h`);
- `Draft`: an early circular layout (`single/src/btree.h`).

FAST-FAIR (`YCSB-concurrent/src/FAST-FAIR.h`) is the baseline the authors
compare against. It keeps a null-terminated sorted array and a switch
counter whose parity tells readers which way the last writer shifted.

Modules:

- `Ring`: the bit mask `x & (c - 1)` that the source uses in place of a
  remainder. For a 32-bit two's-complement `x` and a power-of-two `c`, it
  equals the Euclidean `x % c`.
- `Entries`: records, pointers and the rotated view `Rot(records, first)`
  of a circular array. Also the sequence-level specifications the pages are
  proved against: sorted insertion from the left or the right end, removal,
  lookup and the routing of an internal page.
- `Hash`: `cal_hash`, the fingerprint function of the concurrent variant.
- `ValueMemory`: the value buffers that the YCSB `update` writes through a
  leaf pointer.
- `CirclePage`: the page as a class over a `records` array and a
  `fingerprints` array, with the header fields the source updates in place.
- `CircleTree`: the tree over pages. It keeps a ghost set `pages` with the
  invariant that every child and sibling pointer stays inside that set, one
  level down or on the same level.
- `FastFair`: the FAST-FAIR node as a class over an array.

A `Page` of any layout satisfies `Valid()`. Its live records
`Logical()` are the first `numValid` entries of the rotated view, sorted by
key. Every method is proved against a function of `Logical()`.

## Model

| member | source | states |
|---|---|---|
| Ring.MaskIsMod | single/src/Circle-Tree.h:199-205 | for a 32-bit index and a power-of-two cardinality, the mask the source applies equals the Euclidean remainder and lies below the cardinality |
| Ring.AndIsMod | single/src/Circle-Tree.h:203-205 | bitwise and with `c - 1` keeps the residue of a natural number modulo a power of two `c` |
| Entries.LastSlot | single/src/Circle-Tree.h:199-201 | the slot of the last live record is `(first + n - 1) mod c`, whether or not the window wraps |
| Entries.SplitMoveCount | single/src/Circle-Tree.h:627-629 | the wrap-aware `move_num` of a split is the count of records above the median, `n - 1 - n/2` |
| Entries.CircularInsertSorted | single/src/Circle-Tree.h:506-593 | the circular insertion of an entry into a sorted window yields a sorted window whose multiset is the old one plus the entry |
| Entries.LinearInsertSorted | single/src/Circle-Tree.h:467-500 | the linear insertion from the right end of an internal page keeps the records sorted and adds exactly the new entry |
| Entries.CircularInsertIsLinear | single/src/Circle-Tree.h:506-575 | the left-half and right-half insertions place the entry where the linear insertion does, for a key not yet present |
| Entries.CircularInsertLeft | single/src/Circle-Tree.h:506-540 | a key below the median lands after every smaller record of the left half, so only the records below it shift one slot left |
| Entries.CircularInsertRight | single/src/Circle-Tree.h:541-575 | a key at or above the median lands after the last record not above it, so only the records above it shift one slot right |
| Entries.LeftInsertView | single/src/Circle-Tree.h:506-540 | after the left shift and the landing, the upper half of the window is untouched and the window reads as the insertion |
| Entries.RightInsertView | single/src/Circle-Tree.h:541-575 | after the right shift and the landing, the window reads as the insertion and the slots below the landing point are untouched |
| Entries.InsertBelowSplit | single/src/Circle-Tree.h:669-672 | a key below the median is inserted entirely inside the kept prefix |
| Entries.InsertAboveSplit | single/src/Circle-Tree.h:673-676 | a key at or above the median is inserted entirely inside the moved suffix |
| Entries.CircularRemoveFinds | single/src/Circle-Tree.h:211-286 | the removal position is found exactly when the key is live, and it then holds that key |
| Entries.RemoveAtSorted | single/src/Circle-Tree.h:211-286 | removing one record from a sorted window leaves it sorted |
| Entries.WindowSearch | single/src/btree.h:759-766 | the scan of a contiguous window finds what the lookup in the live records finds |
| Entries.WrappedLowSearch | single/src/btree.h:768-775 | in a wrapped window, scanning from the first slot to the end finds every key below the key in slot 0 |
| Entries.WrappedHighSearch | single/src/btree.h:776-783 | in a wrapped window, scanning from slot 0 to the last slot finds every key at or above the key in slot 0 |
| Entries.RouteCovers | single/src/Circle-Tree.h:724-752 | the route of an internal page is the leftmost child for a key below the first key, otherwise the child of the last key not above it |
| Hash.DistinctFingerprints | concurrent/src/Circle-Tree_fp.h:106-119 | `cal_hash` gives keys 2 and 3 different fingerprints (138 and 240) |
| ValueMemory.StrLen | YCSB-concurrent/src/Circle-Tree.h:255 | the length is that of the bytes before the first zero byte, or of the whole string when there is none |
| ValueMemory.Overwrite | YCSB-concurrent/src/Circle-Tree.h:255 | exactly `strlen` bytes are copied at the offset and every other byte of the buffer keeps its value |
| ValueMemory.WriteValue | YCSB-concurrent/src/Circle-Tree.h:249-257 | only the buffer the leaf pointer addresses changes: it holds the new bytes at the offset and keeps every other byte; with no value pointer nothing is written |
| CirclePage.DraftHitIsLookup | single/src/btree.h:753-790 | with at least two distinct live keys, the draft leaf scan finds what the lookup in the live records finds |
| CirclePage.DraftRouteStuck | single/src/btree.h:792-840 | the draft internal scan never moves past its first slot: it yields the leftmost child or the first slot's child, whatever the later keys are |
| CirclePage.DraftRouteMisroutes | single/src/btree.h:797-835 | a two-record page where the draft internal scan picks the child of 10 for key 25, while the covering child is that of 20 |
| CirclePage.SyncedInsert | concurrent/src/Circle-Tree_fp.h:484-641 | writing the new key's fingerprint at the insertion point keeps every live fingerprint equal to the hash of its record's key |
| CirclePage.LeftInsertSynced | concurrent/src/Circle-Tree_fp.h:548-584 | the left shift moves each fingerprint with its record, so the window stays in sync after the landing |
| CirclePage.RightInsertSynced | concurrent/src/Circle-Tree_fp.h:585-625 | the right shift moves each fingerprint with its record, so the window stays in sync after the landing |
| CirclePage.SyncedRemove | concurrent/src/Circle-Tree_fp.h:257-332 | removing a record and its fingerprint together keeps the window in sync |
| CirclePage.LeftRemoveSynced | concurrent/src/Circle-Tree_fp.h:257-332 | the left-part removal leaves the removal of the record in the window, and in sync when fingerprints are moved too |
| CirclePage.RightRemoveSynced | concurrent/src/Circle-Tree_fp.h:257-332 | the right-part removal leaves the removal of the record in the window, and in sync when fingerprints are moved too |
| CirclePage.FindFilteredSynced | concurrent/src/Circle-Tree_fp.h:786-803 | when fingerprints are in sync, the scan that first compares fingerprints finds the same slot as the plain key scan |
| CirclePage.SplitKeeps | single/src/Circle-Tree.h:630-661 | after the records above the median lose their pointers, the kept prefix is the records below the median (plus the median on an internal page), sorted and in sync |
| CirclePage.LeafSplitStore | single/src/Circle-Tree.h:630-676 | for a leaf split, the two halves after placing the new record concatenate to the insertion into the whole page |
| CirclePage.Page.constructor | single/src/Circle-Tree.h:167-172 | a fresh page is empty with first index 0, all pointers null, no siblings and not deleted |
| CirclePage.Page.Root | single/src/Circle-Tree.h:174-186 | a new root holds exactly the record (key, right), with left as its leftmost child |
| CirclePage.Page.Count | single/src/Circle-Tree.h:194-197 | the count is the number of live records |
| CirclePage.Page.GetIndex | single/src/Circle-Tree.h:203-205 | the physical slot is the index modulo the cardinality, and lies inside the array |
| CirclePage.Page.GetLastIdx | single/src/Circle-Tree.h:199-201 | the slot returned holds the last live record |
| CirclePage.Page.InsertKey | single/src/Circle-Tree.h:444-593 | the live records become the sorted insertion (linear on internal pages, circular elsewhere); first index moves back by one exactly when the left half shifts; the half that does not shift is untouched; in-sync fingerprints stay in sync |
| CirclePage.Page.RemoveShifting | single/src/Circle-Tree.h:211-286 | the result is true exactly when the key was live; the record is then removed and the count drops by one; first index moves forward only on a left removal; the other half is untouched; nothing changes when the key is absent |
| CirclePage.Page.DraftRemoveKey | single/src/btree.h:217-239 | returns true after only nulling one pointer: the keys, the count and the first index stay as they were |
| CirclePage.Page.YcsbRemoveKey | YCSB-concurrent/src/Circle-Tree.h:215-218 | removal is a no-op that reports success |
| CirclePage.Page.UpdateKey | YCSB-concurrent/src/Circle-Tree.h:244-259 | on a leaf, the value buffer of the looked-up record receives the new bytes at the field offset; an internal page writes nothing |
| CirclePage.Page.UpdateRoute | YCSB-concurrent/src/Circle-Tree.h:262-288 | a deleted page refuses; a key above the right sibling's first key moves right; otherwise the page updates |
| CirclePage.Page.Update | YCSB-concurrent/src/Circle-Tree.h:262-288 | follows the route above and writes the value only when it updates at a leaf |
| CirclePage.Page.ScanLeaf | single/src/Circle-Tree.h:711-715 | the leaf scan returns the pointer of the first live slot holding the key, filtered by fingerprint in the concurrent layout |
| CirclePage.Page.LeafHitIsLookup | single/src/Circle-Tree.h:710-723 | on a valid page with synced fingerprints, the leaf scan equals the lookup in the live records |
| CirclePage.Page.SearchLeaf | single/src/Circle-Tree.h:710-723 | a hit in the page wins; otherwise the right sibling is returned exactly when the key reaches its first key |
| CirclePage.Page.DraftScanLeaf | single/src/btree.h:753-785 | the draft leaf scan is the scan over the contiguous window, or over the half of the wrapped window chosen by the key in slot 0 |
| CirclePage.Page.DraftScanInternal | single/src/btree.h:792-835 | the draft internal scan is the stuck route described by DraftRouteStuck |
| CirclePage.Page.DraftSearchInternal | single/src/btree.h:792-840 | the sibling when the key reaches it, otherwise the stuck draft route |
| CirclePage.Page.ScanInternal | single/src/Circle-Tree.h:727-741 | the internal scan is the route over the live records |
| CirclePage.Page.SearchInternal | single/src/Circle-Tree.h:724-752 | the sibling when the key reaches it, otherwise the route over the live records, falling back to the leftmost child |
| CirclePage.Page.SplitPoint | single/src/Circle-Tree.h:622-629 | the median is at offset `n/2`, the split key is its key, and the records above it are the ones to move |
| CirclePage.Page.LinkSibling | single/src/Circle-Tree.h:650-655 | the sibling takes over the old right sibling and is published as the new right sibling, flushed before publication |
| CirclePage.Page.SplitOff | single/src/Circle-Tree.h:621-661 | the page keeps the records below the median (and the median on an internal page), the fresh sibling holds those above, and the median's child becomes the sibling's leftmost |
| CirclePage.Page.SplitAndStore | single/src/Circle-Tree.h:621-676 | after the split the new record is on the side its key selects, and the two sides together hold the old records plus it |
| CirclePage.Page.Store | single/src/Circle-Tree.h:598-690 | a deleted page refuses (concurrent layouts); a key beyond the sibling is forwarded; a page with room stores the insertion; a full page splits and stores on the chosen side, publishing the sibling after flushing it |
| CirclePage.PageOfThree | concurrent/src/Circle-Tree_fp.h:484-641 | three inserts build a Fingerprint leaf with the live records 1, 2, 3 and synced fingerprints |
| CirclePage.StaleFingerprintMiss | concurrent/src/Circle-Tree_fp.h:257-332 | after the removal of 2, which does not move fingerprints, key 3 is still live but the filtered leaf scan misses it |
| CircleTree.ChildrenInInsertion | single/src/Circle-Tree.h:444-593 | inserting a record whose child lies one level down keeps every child of the page one level down |
| CircleTree.ChildrenInSplit | single/src/Circle-Tree.h:621-661 | both halves of a split keep their children in the tree, and so does the median's child |
| CircleTree.LookupIn | single/src/Circle-Tree.h:710-723 | a lookup on a page yields a pointer inside the tree |
| CircleTree.RouteIn | single/src/Circle-Tree.h:724-752 | an internal route yields a child one level down inside the tree |
| CircleTree.SiblingPtr | single/src/Circle-Tree.h:718-720 | the sibling pointer is a child exactly when the page has a right sibling |
| CircleTree.StoredStays | single/src/Circle-Tree.h:613-617 | a page that stored a record whose child is in the tree still satisfies the tree invariant |
| CircleTree.SplitStays | single/src/Circle-Tree.h:621-676 | after a split both the page and its new sibling satisfy the tree invariant |
| CircleTree.SplitHolds | single/src/Circle-Tree.h:669-676 | after a split the stored record is on the page chosen for it |
| CircleTree.StoreIn | single/src/Circle-Tree.h:598-690 | one page's store keeps the tree invariant and reports where the record went |
| CircleTree.StoreAmong | single/src/Circle-Tree.h:598-690 | the store grows the page set by the sibling only on a split, touches no other page and keeps all tree invariants |
| CircleTree.Tree.constructor | single/src/Circle-Tree.h:803-806 | a new tree is a single empty leaf of height 1; the fingerprint layout uses `cal_hash` |
| CircleTree.Tree.SetNewRoot | single/src/Circle-Tree.h:808-812 | the root is replaced and the height grows by one |
| CircleTree.Tree.GrowRoot | single/src/Circle-Tree.h:679-688 | a new root one level up holds the old page as leftmost and the split key with the sibling |
| CircleTree.Tree.LinearSearch | single/src/Circle-Tree.h:704-755 | a child pointer stays in the tree, one level down unless it is the sibling; a leaf hit is the lookup |
| CircleTree.Tree.FindLeaf | single/src/Circle-Tree.h:814-818 | the descent ends at a leaf of the tree |
| CircleTree.Tree.FindLevel | single/src/Circle-Tree.h:856-859 | the descent ends at a page of the requested level |
| CircleTree.Tree.Search | single/src/Circle-Tree.h:814-836 | a non-null result is the lookup in the leaf it ends at, and outside YCSB it is the key itself |
| CircleTree.Tree.StoreAt | single/src/Circle-Tree.h:598-690 | storing at a page of the tree keeps it valid and reports where the record went |
| CircleTree.Tree.StoreChain | single/src/Circle-Tree.h:602-608 | following siblings, the store ends on a page of the same level that holds the record |
| CircleTree.Tree.InsertInternal | single/src/Circle-Tree.h:851-864 | when done, the separator (key, right) is held by a page of the requested level; a level above the root leaves the whole tree unchanged and reports not done |
| CircleTree.Tree.Insert | single/src/Circle-Tree.h:838-849 | when done, the record (key, value) is held by a page of the tree, and the tree stays valid |
| CircleTree.Tree.Update | YCSB-concurrent/src/Circle-Tree.h:711-722 | only the value buffer of the looked-up leaf record changes |
| FastFair.Incr | YCSB-concurrent/src/FAST-FAIR.h:340-341 | the counter is an 8-bit unsigned value that wraps at 256 |
| FastFair.InsertCounter | YCSB-concurrent/src/FAST-FAIR.h:340-341 | after an insert the counter is even, and it changes only if it was odd |
| FastFair.SplitCounter | YCSB-concurrent/src/FAST-FAIR.h:482-485 | after a split the counter is even and differs from its old value |
| FastFair.FirstNull | YCSB-concurrent/src/FAST-FAIR.h:188-212 | the first null pointer from a start slot; every slot before it holds a pointer |
| FastFair.LeafHitIsLookup | YCSB-concurrent/src/FAST-FAIR.h:552-572 | the forward leaf scan equals the lookup in the live records |
| FastFair.LeafScanFinds | YCSB-concurrent/src/FAST-FAIR.h:552-572 | the leaf scan from a slot returns the pointer of the first live slot holding the key |
| FastFair.InternalScanRoutes | YCSB-concurrent/src/FAST-FAIR.h:612-633 | the internal scan returns the child of the last key not above the search key |
| FastFair.InternalPickRoutes | YCSB-concurrent/src/FAST-FAIR.h:612-663 | the internal scan with the leftmost fallback is the child covering the key |
| FastFair.InternalSplitChildren | YCSB-concurrent/src/FAST-FAIR.h:469-472 | the children of the two halves of an internal split are the children of the whole node |
| FastFair.LeafSplitStore | YCSB-concurrent/src/FAST-FAIR.h:497-504 | placing the new record into the half its key selects equals inserting it before the split |
| FastFair.InsertKeepsSet | YCSB-concurrent/src/FAST-FAIR.h:338-410 | inserting a non-null pointer keeps every live pointer non-null |
| FastFair.CutTerminated | YCSB-concurrent/src/FAST-FAIR.h:486 | nulling the median's pointer ends the node's live records at the median |
| FastFair.InsertedTerminated | YCSB-concurrent/src/FAST-FAIR.h:356-404 | after an insert the records stay sorted and null-terminated right after the new last record |
| FastFair.Node.constructor | YCSB-concurrent/src/FAST-FAIR.h:164-167 | a fresh node is empty with counter 0, no sibling and not deleted |
| FastFair.Node.Root | YCSB-concurrent/src/FAST-FAIR.h:170-180 | a new root holds exactly the record (key, right) with left as its leftmost child |
| FastFair.Node.PastSibling | YCSB-concurrent/src/FAST-FAIR.h:654-657 | the sibling replaces the result exactly when the key reaches the sibling's first key |
| FastFair.Node.Count | YCSB-concurrent/src/FAST-FAIR.h:188-212 | the count is the first null slot after the last index, which is the number of live records at rest |
| FastFair.Node.InsertKey | YCSB-concurrent/src/FAST-FAIR.h:338-410 | the live records become the sorted insertion, the count grows by one and the counter is made even |
| FastFair.Node.ShiftIn | YCSB-concurrent/src/FAST-FAIR.h:356-404 | the shift from the right end leaves the insertion followed by a null terminator |
| FastFair.Node.ScanLeaf | YCSB-concurrent/src/FAST-FAIR.h:552-572 | the forward leaf scan over the array |
| FastFair.Node.ScanInternal | YCSB-concurrent/src/FAST-FAIR.h:612-633 | the forward internal scan over the array |
| FastFair.Node.LinearSearch | YCSB-concurrent/src/FAST-FAIR.h:539-667 | at rest, a leaf returns the lookup or the sibling, and an internal node the covering child or the sibling |
| FastFair.Node.UpdateKey | YCSB-concurrent/src/FAST-FAIR.h:243-306 | on a leaf, only the buffer of the record found receives the new bytes; an internal node writes nothing |
| FastFair.Node.UpdateRoute | YCSB-concurrent/src/FAST-FAIR.h:309-336 | a deleted node refuses; a key above the sibling's first key moves right; otherwise it updates |
| FastFair.Node.Update | YCSB-concurrent/src/FAST-FAIR.h:309-336 | follows the route above and writes only when it updates at a leaf |
| FastFair.Node.FillSibling | YCSB-concurrent/src/FAST-FAIR.h:464-472 | the sibling receives exactly the records of the moved range |
| FastFair.Node.NewSibling | YCSB-concurrent/src/FAST-FAIR.h:457-478 | the fresh sibling holds the moved records and inherits the old right sibling |
| FastFair.Node.Split | YCSB-concurrent/src/FAST-FAIR.h:457-492 | the node keeps the lower half, the sibling gets the upper half (without the median on an internal node), the counter changes and ends even, and the sibling is flushed before it is published |
| FastFair.Node.Publish | YCSB-concurrent/src/FAST-FAIR.h:475-489 | linking the sibling and cutting at the median leaves the node's first `m` records |
| FastFair.Node.Place | YCSB-concurrent/src/FAST-FAIR.h:497-504 | the new record goes to this node exactly when its key is below the split key |
| FastFair.Node.Store | YCSB-concurrent/src/FAST-FAIR.h:413-504 | a deleted node refuses; a key beyond the sibling is forwarded; a node with room stores the insertion; a full node splits at the median and stores on the side the key selects |

## Left out

- Locks, spin locks and the concurrency between readers and writers. The model is single-threaded.
- The FAST-FAIR retry loops driven by `switch_counter` are reduced to one forward pass. `FastFair.Node.Count` requires an even counter. `ScanLeaf`, `ScanInternal` and `LinearSearch` scan forward only. The backward branches at YCSB-concurrent/src/FAST-FAIR.h:195-207, 573-595 and 634-651 are not modelled.
- `clflush`, `mfence` and persistence are reduced to a two-event ghost trace per split: the sibling is flushed, then published.
- The fuel arguments of CircleTree.Tree.FindLeaf, FindLevel, Search, StoreChain, InsertInternal, Insert and Update bound the descent and the sibling chase. The source loops until it reaches a leaf or a page that accepts the key. When fuel runs out, the model gives up.
- FastFair.Node.Store omits the root and parent update at YCSB-concurrent/src/FAST-FAIR.h:505-526. The FAST-FAIR tree object (`btree_search`, `btree_insert` and the rest) is not part of this model. Store returns the split key and the sibling instead.
- A page's fingerprint function is a parameter `hash`. Only the tree constructor ties the Fingerprint layout to `cal_hash`. Every page-level proof holds for any function, `cal_hash` included.
- CirclePage.DraftHitIsLookup needs at least two live records. With one record, first and last index coincide, so single/src/btree.h:760 takes the wrapped branch. With none, the scan can cover the whole array of stale records.
- The header fields `first_index`, `num_valid_key` and `level` are 16-bit in three variants. The model caps the cardinality at 2^16, so the first two cannot wrap. The `level` field's wrap past 65535 is not modelled. The draft's 32-bit fields fall under the same cap.
- FAST-FAIR's `last_index` is a 16-bit signed field. The node's cardinality is capped at 2^15 to match.
- The tree is not modelled over the Draft layout, because its internal descent misroutes (see Findings).
- The split of an internal page in the circular variants subtracts only the moved count from `num_valid_key` (single/src/Circle-Tree.h:661). The promoted median stays a live record with a null child. CirclePage.Kept models this as written, and no routing claim is made about it.
- Removal from the tree, rebalancing, range scans, printing, the test drivers and the memory allocator are not modelled.
- CircleTree.Tree.Search: does not state that a stored key is always found. That would need the key-range invariant across pages, which the ghost page set does not carry.
- CircleTree.Tree.StoreChain: states where the record went, but not the new contents of the pages passed over.
- CircleTree.Tree.Insert: states that the record is held by a page of the tree. It does not state that this page is a leaf or the one a later search reaches.
- FastFair.Node.LinearSearch: ties the scan to the lookup only at rest (even counter), not during a concurrent shift.
- FastFair.Node.UpdateKey: writes through the forward leaf scan only, not the backward one used while the counter is odd.

## Findings

| source | as written | input that shows it | evidently intended | confidence | as-written member | corrected member |
|---|---|---|---|---|---|---|
| single/src/btree.h:797-835 | the internal scan starts only when the key is not below the first key, and then continues only while keys are above the search key, so it stops at its first slot | records (10, A), (20, B) from slot 0, key 25: the scan yields A | the child of the last key not above the search key, B | high, not executed | CirclePage.DraftRouteMisroutes | Entries.RouteCovers |
| single/src/btree.h:217-239 | `remove_key` returns true from both branches of its first test after nulling one pointer, so the shifting removal below is unreachable | a leaf holding 10 and 20, key 20: returns true, and both keys and the count stay | the key leaves the live records and the count drops by one, true exactly when the key was live | high, not executed | CirclePage.Page.DraftRemoveKey | CirclePage.Page.RemoveShifting |
| concurrent/src/Circle-Tree_fp.h:257-332 | `remove_key` shifts the records but not the fingerprints in `buffer_records` | leaf 1, 2, 3 with distinct fingerprints for 2 and 3; remove 2; search 3: the fingerprint filter misses the live key | fingerprints move with their records, and a later search finds every live key | high, not executed | CirclePage.StaleFingerprintMiss | CirclePage.Page.RemoveShifting |
