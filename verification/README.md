# A verified model of MCF-KV

MCF-KV is a key-value store in the LevelDB family. Instead of searching levels of files it
keeps a persistent index from integer keys to file numbers: several cuckoo filters, which
store one file number per fingerprint, and a B+tree for the keys whose fingerprints collide.
This project models that index, the structures below it and the read and write paths around
it, and proves that each does what the store relies on. `dafny verify dfyconfig.toml` checks
everything.

What is proved, part by part:

- **The multi-cuckoo index** (`Bits`, `CuckooTable`, `CuckooCapacity`, `CuckooChain`,
  `CuckooFilter`, `IndexModel`, `MultiCuckooIndex`). The classes work on bucket arrays, slots and pages as the
  source does; each method is proved to take a step of the state machine in `IndexModel`, and over
  all runs of that machine a read returns the latest completed write although the filters confuse keys.
  Two conditions are needed, and both are shown to be needed by runs of the real operations: the
  high hash word of the key is not zero (`ZeroWordKeyIsLost`), and no kick-out chain runs out on
  its fingerprint (`FifthKeyOverflows`, after a counting theorem that says when one must).
  `CuckooChain` says which tables let a chain find a place.
- **The FAST and FAIR B+tree** (`FFPage`, `FFLevels`, `FFTree`, `FFBtree`) refines a map through
  leaf, internal and root splits. The pointer an insertion replaces is handed back if and only
  if the leaf was not full, so an assertion of the index update does not always hold.
- **The skip list** (`SkipList`) over any strict order, with one writer and a reader
  without a lock, where every store and every load is a step of its own.
- **Internal nodes of the other B+tree** (`NodeTree`, `NodeWalk`, `NodeChain`, `INode`): binary
  search trees in an entry array that are flattened by a stack walk and rebuilt balanced, split,
  merged and linked to siblings.
- **The LRU cache** (`HandleTable`, `LRUList`, `LRUBooks`, `LRULog`, `LRUCache`): hash chains,
  circular lists, reference counts, charges and deletions agree over all runs, and a lookup gives
  the value of the last insertion.
- **The read path** (`Coding`, `BlockBuilder`, `Block`, `Keys`, `Bloom`, `FilterBlock`, `Table`,
  `Format`, `TableFile`, `TableBuilder`, `Merger`, `TwoLevel`, `DBIter`): each layer refines a
  sorted sequence. `TableBuilder.Finish` and `TableFile.Get` meet in the bytes of the file: a key
  looked up in a finished table file gives the newest entry the reader sees.
- **The write path** (`Bytes`, `LogWriter`, `LogReader`, `LogDamage`, `LogAccount`, `WriteBatch`,
  `MemTable`, `GroupCommit`, `Compaction`): the log round trip with every crash prefix, damage to
  the log that is confined and accounted for, batches into a versioned map, group
  commit as a serial order, and the drop rule of compactions. The memtable is built on the skip
  list.
- **The reader/writer lock** (`RWLock`).

How the source is represented:

- Memory that the source reaches through pointers is a sequence or map indexed by numbers: pages,
  skip-list nodes, cache handles, node entries. What the source updates in place is a class with
  fields that its methods assign. Loops of the source are loops here.
- Hash functions and the CRC are arbitrary functions, so the theorems hold for every hash.
- Widths matter and are written out where they do: 64-bit wrap-around in `UpperPower2`, 32-bit
  arithmetic in the other bucket, the probes and the checksum mask, 16-bit fragment lengths,
  32-bit lengths and offsets in blocks.
- Random choices (kicked-out slot, node height) are parameters or arbitrary values.
- A failed `assert(0)` of the source is a status or a false result, and its contract says when it
  is reached.
- Large predicates are folded behind a trigger (`UnfoldAt(x, 0)` opens what is known of `x`); this
  only keeps proofs small.

Where code and comments disagree, the model follows the code. With more than one filter, the
filter number is the key modulo one less than their number, so the last filter gets no keys.
Update asserts that the insertion into the tree returns the pointer found before, which
`FullLeafKeepsSilent` refutes. A write with `sync` set is not synced, since that code is
commented out; it only affects how groups are formed.

## Model

| member | source | states |
|---|---|---|
| Bits.UpperPower2 | multi-cuckoo-index/cuckoo.h:18-28 | The smearing of bits gives the least power of two that is at least the argument, for 1 to 2^63; for 0 and above 2^63 the 64-bit result wraps to 0. |
| CuckooTable.AltIndexInvolution | multi-cuckoo-index/cuckoo.cc:173-195 | With a power-of-two bucket count the other bucket of a fingerprint is in range, and its other bucket is the first one again. |
| CuckooTable.TwoBucketsDecide | multi-cuckoo-index/cuckoo.cc:58-90 | If every slot is in a bucket its fingerprint names and fingerprints are unique, scanning the two named buckets answers for the whole table. |
| CuckooTable.OccupiedIsSize | multi-cuckoo-index/nvmsingletable.h:62-82 | With unique fingerprints the number of occupied slots is the number of distinct stored slots. |
| CuckooTable.NvmSingleTable.InsertTagToBucketAndCheckDup64 | multi-cuckoo-index/nvmsingletable.h:62-82 | The three outcomes of one attempt: the first free slot is filled; a fingerprint met before it is refused and nothing changes; a full bucket swaps one of its slots with the new one if kicking out is allowed and else stays as it was. |
| CuckooTable.NvmSingleTable.FindSlotInBuckets64 | multi-cuckoo-index/nvmsingletable.h:123-140 | Finds a slot of the two buckets with the fingerprint and its file number; if not found, no slot of the two has it. |
| CuckooTable.NvmSingleTable.FindSlotInBucketAndUpdate | multi-cuckoo-index/nvmsingletable.h:201-220 | Replaces the file number of exactly one slot with the fingerprint; if not found, nothing changes and no slot of the two buckets has it. |
| CuckooFilter.TableSize | multi-cuckoo-index/cuckoo.cc:11-25 | The bucket count is the least power of two for which max_keys_ keys give a load of at most 0.96. |
| CuckooFilter.CuckooFilter.AddImpl | multi-cuckoo-index/cuckoo.cc:216-260 | A whole kick-out chain. Conservation: table plus slot in hand are the old table plus the new slot, slots stay in named buckets, uniqueness is kept, AlreadyExist cannot happen for an absent fingerprint, num_items_ counts. Success: a free slot in the first bucket is taken; if that is full, one in the other bucket, and the fingerprint is there; if both are full and every slot of the second can move to its own other bucket, the chain succeeds; and it succeeds on every table on which, whichever slots are chosen, a free slot is met within the 500 attempts. IOError comes only after all the kicks allowed. |
| CuckooChain.TrailKicks | multi-cuckoo-index/cuckoo.cc:222-239 | A kick keeps what is known of the chain: which of the two buckets were full, what the first kick did, and that the chain still has a way to a free slot if it had one. |
| CuckooChain.TrailEnds | multi-cuckoo-index/cuckoo.cc:222-228 | A chain that meets a free slot after any number of kicks has the outcome promised for the table it started on. |
| CuckooChain.TrailFails | multi-cuckoo-index/cuckoo.cc:239-259 | One that meets the fingerprint or uses up its attempts did not start on a table for which success is promised. |
| CuckooChain.SecondKick | multi-cuckoo-index/cuckoo.cc:222-239 | A second kick happens only if some slot of the second bucket had no room in its other bucket. |
| CuckooChain.RoomAtHome | multi-cuckoo-index/cuckoo.cc:262-284 | In a table with every slot in its first bucket there is room for one more in its own, as long as no bucket is the first one of more than four fingerprints. |
| CuckooFilter.ChainPut | multi-cuckoo-index/cuckoo.cc:222-239 | One kick keeps the conservation of slots, their placement and their uniqueness. |
| CuckooFilter.ViewAfter | multi-cuckoo-index/cuckoo.cc:216-260 | After a chain the stored map is the old one with the new pair in and the dropped fingerprint, if any, out. |
| CuckooFilter.CuckooFilter.Add | multi-cuckoo-index/cuckoo.cc:44-56 | On an exact filter a fresh fingerprint with a non-zero hash word is added to the stored map, less the one slot an exhausted chain drops; slots are conserved in any case; the addition succeeds on the tables on which a chain does; and a fingerprint confined to buckets that are full of fingerprints confined to them is always refused with IOError. |
| CuckooFilter.CuckooFilter.Contain | multi-cuckoo-index/cuckoo.cc:58-90 | On an exact filter, for a non-zero hash word, the answer and the file number are those of the stored map; a zero word is never found in a correctly placed table of more than one bucket. |
| CuckooFilter.CuckooFilter.Update | multi-cuckoo-index/cuckoo.cc:96-111 | On an exact filter it succeeds if and only if the fingerprint is stored, and then changes just its file number. |
| CuckooFilter.CuckooFilter.TransferData | multi-cuckoo-index/cuckoo.cc:262-284 | Moving all slots to an empty table gives the same stored map, correctly placed and counted; the early return leaves no slot behind; it fails only when a chain has used up its kicks, and never for a single slot or for fingerprints of which at most four have the same first bucket. |
| CuckooFilter.TransferCounted | multi-cuckoo-index/cuckoo.cc:276-279 | When the count of moved slots reaches the old total, every slot has been moved. |
| CuckooFilter.CuckooFilter.Rehash | multi-cuckoo-index/cuckoo.cc:131-160 | Capacity doubles, the stored map is the same before and after, the new table has the least bucket count with a load of at most 0.96, and the filter takes insertions again; it succeeds for at most one slot, and whenever in the larger table no bucket is the first one of more than four stored fingerprints. |
| CuckooFilter.ZeroWordBuckets | multi-cuckoo-index/cuckoo.cc:197-209 | A zero hash word is looked up in bucket 0 only, while the fingerprint 1 it is stored under belongs to bucket 1. |
| CuckooFilter.ZeroWordKeyIsLost | multi-cuckoo-index/cuckoo.cc:197-209 | So the condition on the hash word is needed: in every empty filter a key with a zero word is found after it is added, the next rehash succeeds, and the key is not found after it. |
| CuckooCapacity.Capacity | multi-cuckoo-index/cuckoo.cc:173-209 | Counting: a correctly placed table stores at most four fingerprints per bucket of any set of buckets that contains both buckets of each of them. |
| CuckooCapacity.NoRoom | multi-cuckoo-index/cuckoo.cc:216-260 | So no correctly placed table stores the old map and one more fingerprint that is confined to crowded buckets. |
| CuckooCapacity.LowFingerprint | multi-cuckoo-index/cuckoo.cc:173-209 | A fingerprint below 2^16 has one bucket only, whatever the bucket count. |
| CuckooFilter.AddToCrowded | multi-cuckoo-index/cuckoo.cc:44-56 | Adding a key confined to crowded buckets returns IOError, and one stored or new fingerprint is missing afterwards. |
| CuckooFilter.FifthKeyOverflows | multi-cuckoo-index/cuckoo.cc:216-260 | The condition on chains is needed too: in every empty filter, of five keys with low fingerprints in one bucket the fifth is refused, and exactly one of the five is missing afterwards. |
| CuckooFilter.ExhaustedChain | multi-cuckoo-index/cuckoo.cc:216-260 | Such keys exist: a filter for four keys and the keys 1, 3, 5, 7 and 9. |
| MultiCuckooIndex.Index.constructor | multi-cuckoo-index/multi_cuckoo_index.cc:16-22 | A new index is in the initial state of the state machine, and sound. |
| MultiCuckooIndex.Index.CfNo | multi-cuckoo-index/multi_cuckoo_index.cc:35 | The filter of a key; with more than one filter the last one is never used. |
| MultiCuckooIndex.Index.Get | multi-cuckoo-index/multi_cuckoo_index.cc:64-82 | Tree first, then the filter of the key: the result is Get of the abstract state, and on a sound index the latest completed write of a written key, unless a chain dropped its fingerprint. |
| MultiCuckooIndex.AddAndCheckLoad | multi-cuckoo-index/multi_cuckoo_index.cc:53-58 | The addition is refused and a rehash starts if and only if the chain failed or the load is above 0.85 afterwards; a filter in which the chain finds a place and the load stays low takes the key. |
| MultiCuckooIndex.Index.Insert | multi-cuckoo-index/multi_cuckoo_index.cc:31-61 | Takes an InsertStep of the state machine, with its result as the outcome; a filter that is being rehashed is left byte for byte as it is, and one with room for the key takes it; the index stays sound. |
| MultiCuckooIndex.Index.Update | multi-cuckoo-index/multi_cuckoo_index.cc:128-155 | For every key, written before or not, takes the update of the state machine; a filter that is being rehashed is not written; the failed assertion is reached only for a key that cannot be read, and then nothing has changed. The index stays sound if the key was written before. |
| MultiCuckooIndex.Index.InsertIntoTree | multi-cuckoo-index/multi_cuckoo_index.cc:44-50 | The tree maps the key to a fresh block with the file number; the block to be freed is handed back if and only if the key was there and its leaf had room. |
| MultiCuckooIndex.Index.FinishRehash | multi-cuckoo-index/cuckoo.cc:131-160 | The background rehash of one filter is a RehashStep, and succeeds if at most four of the fingerprints have the same first bucket in the larger table; the other filters and the tree are untouched; the index stays sound. |
| MultiCuckooIndex.Index.RunnerStep | multi-cuckoo-index/multi_cuckoo_index.cc:101-114 | A refused item goes from the front of the queue to its back, so that no queued write is lost, and an insertion for which there is room leaves the queue; the write itself is a step of the state machine. |
| IndexModel.EnterGood | multi-cuckoo-index/multi_cuckoo_index.cc:31-61 | An insertion into a filter keeps the invariant: each stored fingerprint has exactly one owner key, and every key written is in the tree or owns its slot. |
| IndexModel.UpdateGood | multi-cuckoo-index/multi_cuckoo_index.cc:128-155 | An update keeps the invariant, whether in the tree or in the filter. |
| IndexModel.RehashGood | multi-cuckoo-index/cuckoo.cc:131-160 | Finishing a rehash keeps the invariant. |
| IndexModel.NextGood | multi-cuckoo-index/multi_cuckoo_index.cc:31-155 | Every step keeps the invariant. |
| IndexModel.RunExact | multi-cuckoo-index/multi_cuckoo_index.cc:31-155 | In every run of insertions, updates and rehashes a read of a written key returns its latest completed write, unless an exhausted chain dropped its fingerprint. |
| IndexModel.DroppedIsLost | multi-cuckoo-index/cuckoo.cc:222-259 | The exception is real: a key whose slot another key's chain drops is not found afterwards. |
| IndexModel.UpdateElsewhere | multi-cuckoo-index/multi_cuckoo_index.cc:128-155 | An update of any key leaves the read of another key right if and only if the two do not share a slot or the file number is the same. |
| IndexModel.WrittenKeysApart | multi-cuckoo-index/multi_cuckoo_index.cc:128-155 | Two keys share a slot only if at most one of them was written, so updates of written keys disturb no other. |
| IndexModel.StrayUpdateOverwrites | multi-cuckoo-index/multi_cuckoo_index.cc:128-155 | An update of a key that was never written does change what a written key reads: two keys with one fingerprint. |
| FFPage.CountRecords | multi-cuckoo-index/ff_btreee.h:143-167 | The scan from the cached last index ends at the first null record after it. |
| FFPage.InsertKey | multi-cuckoo-index/ff_btreee.h:381-473 | The shifting insertion puts the record at its sorted place, or replaces the pointer of an equal key in a leaf and returns the old one; sortedness and the null terminator are kept. |
| FFPage.SearchLeaf | multi-cuckoo-index/ff_btreee.h:640-762 | The scan of a leaf that trusts a record only if its pointer differs from its neighbour's returns the pointer stored for the key, or null. |
| FFPage.SearchInternal | multi-cuckoo-index/ff_btreee.h:640-762 | The scan of an internal page returns the child whose key range covers the key. |
| FFPage.SplitPage | multi-cuckoo-index/ff_btreee.h:492-532 | The two halves have together the items of the full page, cut at the split key, with sibling links, levels and terminators in order. |
| FFTree.Child | multi-cuckoo-index/ff_btreee.cc:23-41 | Following a routing entry leads to the page of the level below that covers the key. |
| FFTree.SiblingAbove | multi-cuckoo-index/ff_btreee.h:479-486 | A key in the range of a page is below the first record of its sibling, so the sibling redirect of store is never taken. |
| FFTree.StoreFits | multi-cuckoo-index/ff_btreee.h:490-493 | Storing into a page with room is putting one record into its whole level. |
| FFTree.StoreSplits | multi-cuckoo-index/ff_btreee.h:494-561 | Splitting a page and storing the record is putting one record into its level; the list of pages gains exactly the split key with the new page. |
| FFBtree.GrowRoot | multi-cuckoo-index/ff_btreee.h:552-556 | A new root over the two halves of the old one keeps every level in order. |
| FFBtree.FFBtree.FindPage | multi-cuckoo-index/ff_btreee.cc:54-69 | The descent of InsertInternal ends at the page of the wanted level that covers the key. |
| FFBtree.FFBtree.Store | multi-cuckoo-index/ff_btreee.h:476-562 | With or without a split, and through all levels that split in turn, the leaves gain just this record and all levels are in order again. |
| FFBtree.FFBtree.SetNewRoot | multi-cuckoo-index/ff_btreee.cc:17-21 | The tree is one level higher and its leaves are the same. |
| FFBtree.FFBtree.InsertInternal | multi-cuckoo-index/ff_btreee.cc:54-69 | The entry that was missing for a new page is in, every level routes to exactly the pages below it, and the leaves are the same. |
| FFBtree.FFBtree.Search | multi-cuckoo-index/ff_btreee.cc:23-39 | Returns the pointer the map has for the key, or null; no second leaf is visited. |
| FFBtree.FFBtree.Insert | multi-cuckoo-index/ff_btreee.cc:41-52 | The map is updated at the key. The replaced pointer is returned if and only if the key was there and its leaf was not full. |
| FFBtree.FullLeafKeepsSilent | multi-cuckoo-index/multi_cuckoo_index.cc:136-139 | The assertion that insertion returns the pointer found before fails on a concrete tree: with 29 keys in one leaf, key 0 is found and replaced, and null is returned. |
| SkipList.RaiseInv | db/skiplist.h:355-373 | Raising the height early and allocating a node with arbitrary links keeps the invariant. |
| SkipList.SetInv | db/skiplist.h:374-377 | Setting a link of the unpublished node keeps the invariant. |
| SkipList.LinkInv | db/skiplist.h:374-378 | Publishing the node at one level keeps all levels sorted sub-lists of the level below, and keeps the position of a search under way valid. |
| SkipList.LoadInv | db/skiplist.h:269-330 | One load of a search keeps the invariant; the last one gives the exact bound in the bottom list. |
| SkipList.NextInv | db/skiplist.h:269-384 | Every step of writer or reader keeps the invariant. |
| SkipList.RunInv | db/skiplist.h:269-384 | The invariant holds in every state of every interleaving. |
| SkipList.SearchExact | db/skiplist.h:269-330 | In every interleaving of single stores with single loads a search, also one that started with a stale height, ends with the exact bound of its target in the bottom list at its last load. |
| SkipList.LoadSafe | db/skiplist.h:269-330 | A search never loads a link that has not been written, and can always take its next step. |
| SkipList.SearchEnds | db/skiplist.h:269-330 | A search that is not held up by the writer ends: its own loads lead to a result. |
| SkipList.KeysStep | db/skiplist.h:346-384 | A key becomes visible by the one store that links its node at the bottom; no other step changes the set of keys. |
| SkipList.FindGreaterOrEqual | db/skiplist.h:269-289 | For any strict order, the search loop returns the lower bound of the key in the bottom list and, for a new key, its predecessor on every level. |
| SkipList.FindPlace | db/skiplist.h:346-354 | The search of an insertion leaves the list as it is and gives the writer the predecessors it needs for its first store. |
| SkipList.List.Insert | db/skiplist.h:346-384 | The whole insertion runs the steps of the machine one by one; the key is added, and the new node is on exactly the levels below its height. |
| NodeTree.RouteByRank | index/nvm_btree.cc:806-824 | In a search tree a key is routed to the pointer selected by the number of keys up to it, whatever the shape of the tree. |
| NodeTree.SameRoutes | index/nvm_btree.cc:806-824 | Two trees with the same keys and pointers route every key alike. |
| NodeTree.BalancedIs | index/nvm_btree.cc:1310-1328 | The tree that is built middle key first has exactly the given keys and pointers, in order. |
| NodeTree.BalancedDepth | index/nvm_btree.cc:1310-1328 | With fewer than 2^k keys its depth is at most k. |
| NodeTree.AddedRoutes | index/nvm_btree.cc:869-905 | Putting a separator in place of the leaf it is routed to changes only the routes that went there, on either side of the separator. |
| NodeTree.SplitRoutes | index/nvm_btree.cc:907-948 | A separator added to the half it belongs to routes every key as when it is added to the whole tree. |
| NodeWalk.Recognized | index/nvm_btree.cc:1260-1308 | The comparisons with stack top, left and right child tell the walk correctly where it came from. |
| NodeWalk.Transform | index/nvm_btree.cc:1252-1308 | The stack walk writes the keys of the tree in order with the child pointers around them. |
| NodeChain.ChainRoutes | index/nvm_btree.cc:806-824 | A search that starts at any node of a chain of siblings and follows them leads every key that is not a split key of the chain where the nodes, joined by their split keys, lead it. |
| NodeChain.SplitKeyRoutes | index/nvm_btree.cc:807-809 | A split key itself is looked for in the node before the one it starts, since the redirect asks for a smaller split key; so it is found as in the whole if and only if the two nodes agree on it. |
| NodeChain.SplitKeyMisses | index/nvm_btree.cc:807-809 | And they need not agree: two nodes on which the search ends at the wrong child. |
| INode.InternalNode.Search | index/nvm_btree.cc:806-824 | Follows siblings while their split key is smaller and then the entries of the node: the child of the specification. |
| INode.InternalNode.SInsert | index/nvm_btree.cc:869-905 | The tree gets a node for the key in place of the leaf the key is routed to; the rest is the same. |
| INode.InternalNode.BalancedInsert | index/nvm_btree.cc:1310-1328 | The keys of the range, and the next pointers of the list, become a balanced subtree at the leaf they are all routed to. |
| INode.InternalNode.Rebalance | index/nvm_btree.cc:1162-1171 | Flattening and rebuilding keeps keys and pointers and routes every key as before, at logarithmic depth. |
| INode.InternalNode.Split | index/nvm_btree.cc:907-948 | A full node splits around its middle key so that every key reaches the child the node would lead to with the new separator; the halves take over split key and sibling, the right one with the middle key as split key; a node that is not full is not split. |
| INode.InternalNode.Merge | index/nvm_btree.cc:1174-1226 | A node and its sibling become one node if their keys and the split key between them fit, else two nodes of even size; every key is routed as before, and the new nodes take their place among the siblings. |
| HandleTable.NewLength | util/cache.cc:122-126 | The bucket count is a power of two of at least 4, suffices for the entries, and is less than twice their number if above 4. |
| HandleTable.Rebuild | util/cache.cc:122-146 | Moving every chain to the new buckets keeps the map of the table; the number of handles moved is the number of entries. |
| HandleTable.HandleTable.FindPointer | util/cache.cc:113-119 | Leads to the handle with the key, or to the end of the chain where it belongs. |
| HandleTable.HandleTable.Lookup | util/cache.cc:73-75 | Returns what the map has for the key. |
| HandleTable.HandleTable.Insert | util/cache.cc:77-91 | The map gets the handle under its key and the one it replaces is returned; resizing included, and there are never more entries than buckets. |
| HandleTable.HandleTable.Remove | util/cache.cc:93-101 | The key is out of the map and its handle is returned. |
| HandleTable.HandleTable.Resize | util/cache.cc:122-146 | The map is the same and there are as many buckets as entries at least. |
| LRUList.RingCut | util/cache.cc:239-242 | Unlinking a node leaves the rest of its circular list in order. |
| LRUList.RingAppend | util/cache.cc:244-250 | A node linked in before the list head is the newest; the others keep their order. |
| LRUCache.LRUCache.Ref | util/cache.cc:218-224 | One reference more; an idle cached handle moves to the in-use list. |
| LRUCache.LRUCache.Unref | util/cache.cc:226-237 | One reference less; the last one deletes, the last but one of a cached handle makes it the newest idle one. |
| LRUCache.LRUCache.Lookup | util/cache.cc:252-259 | Returns the handle of the key with a reference for the caller, or nothing. The value in the handle is the one the key was last given; there is nothing only if the key was never given one, was erased since, or its handle was idle for a time. |
| LRUCache.LRUCache.Release | util/cache.cc:261-264 | Gives back a reference that the calls so far say the client has. |
| LRUCache.LRUCache.Value | util/cache.cc:377-379 | The value in a handle that a client holds is the one the handle was inserted with, whatever happened to the key since. |
| LRUCache.LRUCache.Erase | util/cache.cc:306-320 | The entry leaves table, list and charge, and is deleted once nobody uses it; the key is not found any more. |
| LRUCache.LRUCache.Insert | util/cache.cc:266-302 | A new handle with the value, charge and key of the call replaces the old one of its key, and the table has it for the key afterwards; idle handles are evicted, oldest first, just while the charge is above capacity; without capacity nothing is cached. |
| LRUCache.LRUCache.Shrink | util/cache.cc:292-300 | Afterwards the charge fits the capacity or no handle is idle; no more handles were evicted than needed. |
| LRUCache.LRUCache.Prune | util/cache.cc:322-334 | Exactly the idle handles are evicted. |
| LRUBooks.OldestGoes | util/cache.cc:292-300 | The oldest idle handle is in the table under its own key with one reference, so erasing that key deletes it. |
| LRUBooks.EvictOne | util/cache.cc:292-300 | Evicting one more handle is erasing the key of the oldest one. |
| LRUBooks.InsertGood | util/cache.cc:266-302 | Insertion with its evictions keeps table, lists, reference counts, charges and deletions in agreement. |
| LRUBooks.NextGood | util/cache.cc:197-334 | Every operation does. |
| LRUBooks.RunGood | util/cache.cc:197-334 | In every state of every run: the table maps exactly the cached handles, idle ones have one reference and are on the lru list, the others on the in-use list, usage is the sum of charges, and each deleter has run exactly once. |
| LRUBooks.RunInTurn | util/cache.cc:226-250 | In every run the lru list is in the order in which its handles became idle. |
| LRULog.InsertAgrees | util/cache.cc:266-302 | Insertion with its evictions keeps the books in agreement with the list of calls. |
| LRULog.NextAgrees | util/cache.cc:197-334 | Every call does. |
| LRULog.RunAgrees | util/cache.cc:197-334 | In every state of every run: each handle has the value, key and charge it was inserted with, references are the insertions and lookups of a handle less its releases, and the table has for a key the handle of its last cached insertion, unless the key was erased since or the handle was idle for a time. |
| LRULog.TableTells | util/cache.cc:252-259 | So what the table has for a key is a handle with the value the key was last given. |
| LRULog.RunLookup | util/cache.cc:252-259 | In every run, the handle a lookup returns has the value of the last cached insertion of the key; a lookup that returns nothing means no such insertion, an erasure since, or a handle that was idle for a time. |
| LRULog.HandleLives | util/cache.cc:226-237 | A handle is there, with its value, exactly as long as a client holds it or the table has it, and its deleter has been called exactly when neither is so. |
| LRULog.RunHandles | util/cache.cc:197-334 | The same in every state of every run. |
| LRULog.InsertStores | util/cache.cc:266-302 | The evictions of an insertion never take the handle just inserted. |
| Bytes.Fixed32RoundTrip | util/coding.h:58-70 | A fixed 32-bit number decodes to itself, whatever follows. |
| Bytes.Fixed64RoundTrip | util/coding.h:72-83 | A fixed 64-bit number decodes to itself, whatever follows. |
| Bytes.MaskInverse | util/crc32c.h:31-40 | Mask and Unmask undo each other on all 32-bit words. |
| Bytes.Checksum.ExtendValue | util/crc32c.h:12-22 | Extending the checksum of one string by another gives that of the two together. |
| LogWriter.Writer.constructor | db/log_writer.cc:22-26 | A new writer is at the start of a block. |
| LogWriter.Writer.Reopen | db/log_writer.cc:28-31 | A writer on a file of any length is where a continuous writer would be. |
| LogWriter.Writer.EmitPhysicalRecord | db/log_writer.cc:81-106 | Appends header and payload of one fragment. |
| LogWriter.Writer.AddRecord | db/log_writer.cc:33-79 | Appends exactly the fragments and trailers the format prescribes at this place in the file, an empty first fragment included; the file stays the log of all records added. |
| LogWriter.LogReopened | db/log_writer.cc:28-31 | A log continued after any record has the same bytes as one written without a break. |
| LogWriter.LogAdds | db/log_writer.cc:33-79 | The log of some records and one more is the log with the fragments of that record at its end. |
| LogWriter.KeptReopened | db/log_writer.cc:28-31 | What two writers leave, the second one on the file of the first, is the log of all their records. |
| LogReader.RefillSkips | db/log_reader.cc:191-215 | Refilling the buffer skips a block trailer silently and holds what the file has of the block. |
| LogReader.ReadFragment | db/log_reader.cc:191-273 | Reading where a fragment was written returns it if the file has all of it, and else the end of the file; nothing is reported. |
| LogReader.ReadPending | db/log_reader.cc:56-174 | Reading where a record was written returns it if the file has all of it, and else the end of the file; nothing is reported. |
| LogReader.ContainedIs | db/log_reader.cc:56-174 | A record counts as contained just when the log up to it fits into the file. |
| LogReader.LogRoundTrip | db/log_reader.cc:56-174 | Reading any byte prefix of a written log returns exactly the records contained in it, in order, and reports no corruption; the whole log gives all records. |
| LogReader.WriterRoundTrip | db/log_reader.cc:56-174 | The same about the file of a writer: of any byte prefix exactly the contained records that were added are read, without a report. |
| LogReader.ReadLogFile | db/log_reader.cc:56-174 | Reading a file record by record to its end gives just the records and reports of the specification. |
| LogReader.RecordIsJoin | db/log_reader.cc:56-174 | In any file, damaged or not, a record that is returned is the join of fragments with valid checksums, of the types of one record, that lie in the file one right after the other. |
| LogDamage.ReadAnew | db/log_reader.cc:91-121 | An intact record that follows an unfinished one is returned, with the length of what was unfinished as the one report; an empty start is not reported. |
| LogDamage.SkipToBlock | db/log_reader.cc:191-215 | Near the end of a block reading goes on at the next block, whatever is in between. |
| LogDamage.Resynchronises | db/log_reader.cc:56-273 | Damage is confined to its blocks: if the first blocks of a file hold any bytes at all, without an intact fragment of the reserved type 5, and a written log or any byte prefix of one follows, then the records read end with exactly the records contained in it. |
| LogDamage.WriterResynchronises | db/log_reader.cc:56-273 | The same about a writer on a damaged file of whole blocks: all it adds is read back. |
| LogDamage.ReservedTypeHides | db/log_reader.cc:144-151 | The condition is needed: an intact fragment of type 5, which the reader uses for the end of the file, hides everything behind it. |
| LogAccount.AssembleAccounts | db/log_reader.cc:74-172 | Conservation in one step: the bytes under way and the new ones are in the record, still under way, or in a report. |
| LogAccount.RejectedReported | db/log_reader.cc:191-273 | A rejected buffer is dropped from the bad header on and reported with exactly that many bytes, except for a header of zeros, as preallocated space has; no other read reports. |
| LogAccount.FileAccounts | db/log_reader.cc:56-273 | Conservation for any file: the lengths of the records and the reported bytes add up to the payload of the intact fragments and the rejected bytes, but for an unfinished record at the end of the file, which is given up silently. |
| LogReader.Reader.ReadPhysicalRecord | db/log_reader.cc:191-273 | For any file, intact or not, the method is one physical read of the specification, including checksum, length and zero-type checks, and reports the same numbers of dropped bytes. |
| LogReader.Reader.ReadRecord | db/log_reader.cc:56-174 | For any file, intact or not, the method assembles fragments and reports dropped bytes as the specification does, and a record it returns is the join of consecutive fragments with valid checksums between the old and the new position. What the specification itself must do on damaged files is stated by ReadAnew, Resynchronises and FileAccounts. |
| Coding.EncodeVarint32Is | util/coding.cc:47-73 | The five unrolled cases are the general base-128 encoding. |
| Coding.EncodeVarint64 | util/coding.cc:81-90 | The loop is the general base-128 encoding. |
| Coding.VarintRoundTrip | util/coding.cc:112-158 | Every number that fits the groups allowed decodes to itself, whatever follows. |
| Coding.DecodeIs | util/coding.cc:112-158 | Decoding gives a value if and only if the bytes are a number: bytes with the high bit set up to one without, within limit and groups, with the value of their seven-bit groups. |
| Coding.VarintCut | util/coding.cc:112-158 | An encoded number cut off before its end does not decode. |
| Coding.GetVarint32Fallback | util/coding.cc:112-129 | The decoder loop computes the specification for all bytes, also truncated, over-long or over-large ones. |
| Coding.GetVarint32 | util/coding.h:89-100 | The one-byte fast path changes nothing. |
| BlockBuilder.SharedLength | table/block_builder.cc:79-85 | The longest common prefix of two keys. |
| BlockBuilder.BuildStep | table/block_builder.cc:73-107 | Adding an entry keeps buffer, restart array, counter and last key in agreement with the layout of what was added, as long as the bytes are fewer than 4 GB. |
| BlockBuilder.CompressedStep | table/block_builder.cc:73-107 | Restart points stay an interval apart, and keys between them are stored without the longest shared prefix. |
| BlockBuilder.BlockBuilder.Add | table/block_builder.cc:73-107 | The block gets the pair as its next entry. |
| BlockBuilder.BlockBuilder.Reset | table/block_builder.cc:48-55 | The builder starts over without pairs. |
| BlockBuilder.BlockBuilder.Empty | table/block_builder.h:37-40 | No bytes just when no pairs. |
| BlockBuilder.BlockBuilder.Finish | table/block_builder.cc:63-71 | Bytes of fewer than 4 GB are a block with exactly the pairs added, prefix-compressed with the given restart interval; their number is the size estimate. |
| Block.DecodeEntry | table/block.cc:53-74 | The fast path for three one-byte lengths agrees with general varint decoding, for all bytes; what is decoded leaves key and value within the limit. |
| Block.EncodedDecodes | table/block.cc:53-74 | Decoding an encoded entry gives back its lengths, key suffix and value. |
| Block.ParseEntry | table/block.cc:226-252 | Parsing entry i of a finished block after a key with its shared prefix gives its key and value; the corruption exits are not taken. |
| Block.Iter.ParseNextKey | table/block.cc:226-252 | Moves to the next entry of the block, or finds that there is none. |
| Block.Iter.Next | table/block.cc:139-142 | Entry i to entry i + 1. |
| Block.Iter.Prev | table/block.cc:144-163 | Entry i to entry i - 1, across restart points; invalid before the first. |
| Block.Iter.Seek | table/block.cc:165-203 | Binary search over restart points and scan give the linear lower bound of the target, for every transitive order the keys are sorted in. |
| Block.Iter.SeekToFirst | table/block.cc:205-208 | To the first entry. |
| Block.Iter.SeekToLast | table/block.cc:210-215 | To the last entry. |
| Keys.FindShortestSeparator | util/comparator.cc:29-51 | The result is start, or a key no longer than start strictly between start and limit; it is shortened exactly when the first differing byte leaves room. |
| Keys.FindShortSuccessor | util/comparator.cc:53-65 | The result is above the key and cut after the first byte that can be incremented; a run of 0xff stays as it is. |
| Keys.SeparateInternal | db/dbformat.cc:68-85 | The separator is the last key, or has a shorter user key strictly between with the largest tag; it is shortened whenever that is possible. |
| Keys.SuccessorInternal | db/dbformat.cc:87-99 | The same for the key after the last block. |
| Keys.SeparatorBetween | db/dbformat.cc:68-85 | A separator is at least the last key before it and less than the first one after it. |
| Keys.ILessTransitive | db/dbformat.cc:50-66 | The order of internal keys is transitive. |
| Keys.ILessTotal | db/dbformat.cc:50-66 | It is total and irreflexive. |
| Bloom.SetBitIs | util/bloom.cc:68-70 | Setting a bit of a byte array sets that bit and no other. |
| Bloom.Policy.KeyMayMatch | util/bloom.cc:77-101 | For any filter bytes: true if and only if there are two bytes at least and the probe count is reserved or the bit of every probe of the key is set. |
| Bloom.Policy.CreateFilter | util/bloom.cc:39-75 | The filter has the prescribed size and probe count and just the probes of the keys are set; so a key may match if and only if each of its probes is a probe of one of the keys. |
| Bloom.Policy.ProbeIs | util/bloom.cc:64-73 | Probe j is the hash plus j times the rotated hash, in 32 bits. |
| Bloom.Policy.MatchesIff | util/bloom.cc:39-101 | A filter of some keys admits a key if and only if its probes are among theirs. |
| Bloom.Policy.AdmitsOwn | util/bloom.cc:39-101 | It admits each of its keys: no false negatives. |
| Bloom.Policy.RejectsOther | util/bloom.cc:39-101 | It does reject others: of two keys with hashes 0 and 1 the filter of the first rejects the second. |
| FilterBlock.FilterBlockReader.KeyMayMatch | table/filter_block.cc:95-109 | For any contents the method is the specification, errors counting as a match. |
| FilterBlock.Admits | table/filter_block.cc:95-109 | For a block offset that a filter covers, the reader admits a key if and only if each of its probes is a probe of a key of that filter, so all keys of the filter and, in a range without keys, none; beyond the last filter it admits every key. |
| FilterBlock.CoveredAnswer | table/filter_block.cc:95-109 | A key that was added is admitted. |
| FilterBlock.FilterBlockBuilder.StartBlock | table/filter_block.cc:22-28 | Filters are made until the one of this offset is next; each filter covers just the keys it covered before. |
| FilterBlock.FilterBlockBuilder.GenerateFilter | table/filter_block.cc:52-76 | One filter more, of exactly the pending keys; an empty one if there are none. |
| FilterBlock.FilterBlockBuilder.Finish | table/filter_block.cc:36-50 | The finished block admits every key added, at the offset it was added for, and at each offset nothing but what shares all its probes with the keys added there. |
| Table.PastBlock | table/table.cc:300-331 | A key above all of a block but not above its shortened separator is not the user key of the next block. |
| Table.LookupComplete | table/table.cc:300-331 | The lookup finds, for a user key, what a search through all entries finds, although separators are shortened, only one block is read and the filter may stop it before. |
| Table.FirstIsNewest | db/dbformat.cc:121-138 | The first entry not less than a lookup key is the newest one visible at its sequence number, if any is. |
| Table.GetNewest | table/table.cc:300-331 | The saver gets the newest entry of the user key at or below the sequence number whenever the table holds one, and else nothing it takes. |
| Keys.KeyDecodes | db/dbformat.cc:18-21 | The bytes of an internal key decode to it. |
| Format.HandleDecodes | table/format.cc:15-30 | A block handle decodes to itself, whatever follows it. |
| Format.WriteRawBlock | table/table_builder.cc:194-217 | The block is at the end of the file, with its type and a masked checksum of both, and the handle says where. |
| Format.ReadBlock | table/format.cc:65-143 | A block that was written is read back; with verification on, nothing else is read: the bytes at the handle have the right type and checksum; without it, just what has the right type byte. |
| Format.FooterRoundTrip | table/format.cc:32-63 | A footer decodes to the two handles in it. |
| TableFile.ComparatorOrders | db/dbformat.cc:50-66 | The comparator on encoded internal keys is the order of the keys in them, and transitive on all byte strings. |
| TableFile.SeekBlock | table/table.cc:306-318 | Seeking the bytes of a key in a block finds the first of its entries not less than the key. |
| TableFile.IndexSorted | table/table_builder.cc:114-121 | The separators of a table are in order, so that the index can be searched. |
| TableFile.InternalGet | table/table.cc:300-331 | On the bytes of file, index and filter, index seek, handle, filter test, block read and block seek give the pair the lookup in the table gives. |
| TableFile.Open | table/table.cc:41-87 | For any file: the index block and metaindex handle of a file that has them; with verification on, only an index block with a valid checksum. |
| TableFile.ReadMeta | table/table.cc:89-139 | The filter block is found under the name of its policy, and under no other name. |
| TableFile.SavedAnswers | db/version.cc:24-37 | What the saver makes of the pair is the newest entry the reader sees: its value, a deletion, or nothing. |
| TableFile.Get | table/table.cc:41-331 | Opening a table file and looking up a user key at a sequence number answers with its newest visible entry, with the filter, without one, or with one of another name. |
| TableBuilder.TableBuilder.Add | table/table_builder.cc:102-140 | The entry is added; when, and only when, the size estimate reaches the block size, the block is written with exactly its entries; index entries, handles and filter keys stay in agreement with the bytes written. |
| TableBuilder.TableBuilder.Flush | table/table_builder.cc:142-192 | The bytes of the block, as many as estimated, go to the end of the file, its index entry waits for the next key, and the next filter is started; an empty block is not written. |
| TableBuilder.TableBuilder.Finish | table/table_builder.cc:223-276 | A finished file of fewer than 4 GB is a table of all entries added: footer, index, metaindex, filter and data blocks in bytes, with sorted entries and separators between blocks. If the builder filters, the file has a filter, which for each block admits every key of it, and only keys that share all their probes with the keys of the blocks that start in the same 2 KB of the file. |
| TableBuilder.TableBuilder.constructor | table/table_builder.cc:54-78 | A new builder has no entries and an empty file. |
| TableBuilder.WrittenFlushed | table/table_builder.cc:158-217 | After a block is appended, every block written so far is still where its handle says. |
| TableBuilder.WrittenRepresents | table/table_builder.cc:223-276 | The finished index has, for every block, the handle under which its bytes are in the file. |
| TableBuilder.AddedGood | table/table_builder.cc:102-140 | Adding an entry keeps blocks, offsets and separators in order. |
| TableBuilder.FlushedCovered | table/table_builder.cc:142-156 | After a block is written every key written is still covered by the filter of its block. |
| TableBuilder.ClosedIsTable | table/table_builder.cc:223-263 | With the last index entry in, the blocks are a table of all entries. |
| TableBuilder.CoveredExact | table/table_builder.cc:142-156 | The filter of a block holds just the user keys of the blocks that start in the same 2 KB of the file. |
| Merger.FindSmallest | table/merger.cc:159-172 | A child with the smallest current key; none if no child is valid. |
| Merger.FindLargest | table/merger.cc:174-187 | A child with the largest current key; none if no child is valid. |
| Merger.SmallestIsLeast | table/merger.cc:63-87 | If all children stand after a key, the smallest of their keys is the next one of the union. |
| Merger.LargestIsGreatest | table/merger.cc:89-116 | If all children stand before a key, the largest of their keys is the previous one of the union. |
| Merger.MergingIterator.SeekToFirst | table/merger.cc:39-45 | To the least key of the union. |
| Merger.MergingIterator.SeekToLast | table/merger.cc:47-53 | To the greatest key of the union. |
| Merger.MergingIterator.Seek | table/merger.cc:55-61 | To the least key of the union at or above the target. |
| Merger.MergingIterator.Next | table/merger.cc:63-87 | To the least key of the union above the current one, whatever the direction so far. |
| Merger.MergingIterator.Prev | table/merger.cc:89-116 | To the greatest key of the union below the current one, whatever the direction so far. |
| TwoLevel.SeekFinds | table/two_level_iterator.cc:90-95 | A seek in the index and then in one block leads to the lower bound in the list of all entries. |
| TwoLevel.TwoLevelIterator.SkipForward | table/two_level_iterator.cc:124-135 | Empty blocks are skipped to the next entry of the list of all entries; the loop ends. |
| TwoLevel.TwoLevelIterator.SkipBackward | table/two_level_iterator.cc:137-148 | Empty blocks are skipped to the entry before; the loop ends. |
| TwoLevel.TwoLevelIterator.InitDataBlock | table/two_level_iterator.cc:155-169 | The block the index is at is open, and not opened again if it is already. |
| TwoLevel.TwoLevelIterator.Seek | table/two_level_iterator.cc:90-95 | To the first entry of all at or above the target. |
| TwoLevel.TwoLevelIterator.SeekToFirst | table/two_level_iterator.cc:97-102 | To the first entry of all. |
| TwoLevel.TwoLevelIterator.SeekToLast | table/two_level_iterator.cc:104-109 | To the last entry of all. |
| TwoLevel.TwoLevelIterator.Next | table/two_level_iterator.cc:111-115 | To the next entry of all. |
| TwoLevel.TwoLevelIterator.Prev | table/two_level_iterator.cc:117-121 | To the entry before; invalid before the first. |
| DBIter.YieldsIsNewestValue | db/db_iter.cc:169-199 | The entries shown are exactly the newest visible ones of their user keys that are values. |
| DBIter.YieldsIncreasing | db/db_iter.cc:142-300 | They come in strictly increasing user key order, so each user key at most once. |
| DBIter.DBIter.FindNextUserEntry | db/db_iter.cc:169-199 | Finds the first entry to show beyond the key to skip. |
| DBIter.DBIter.FindPrevUserEntry | db/db_iter.cc:228-268 | Finds the last entry to show at or before the inner position. |
| DBIter.DBIter.Next | db/db_iter.cc:142-167 | To the first entry to show after the current one, also after moving backward. |
| DBIter.DBIter.Prev | db/db_iter.cc:201-226 | To the last entry to show before the current one, also after moving forward. |
| DBIter.DBIter.Seek | db/db_iter.cc:270-282 | To the first entry to show at or after the target. |
| DBIter.DBIter.SeekToFirst | db/db_iter.cc:284-293 | To the first entry to show. |
| DBIter.DBIter.SeekToLast | db/db_iter.cc:295-300 | To the last entry to show. |
| DBIter.DBIter.Key | db/db_iter.cc:66-69 | In either direction the key is that of the entry shown. |
| DBIter.DBIter.Val | db/db_iter.cc:70-73 | In either direction the value is that of the entry shown. |
| GroupCommit.BuildBatchGroup | db/db_impl.cc:1178-1223 | The group is the longest prefix of the queue in which everyone may join under the size limit and the sync rule, and its batch is the operations of the group in order. |
| GroupCommit.GroupBounded | db/db_impl.cc:1178-1223 | Once another batch has joined, the group has at most 1 MB, and at most 128 KB more than its first batch if that is small; a synced write never joins an unsynced one. |
| GroupCommit.CheckInv | db/db_impl.cc:1094-1101 | A thread that checks keeps the invariant, and only when there is no leader does one start to lead. |
| GroupCommit.TakeGroupInv | db/db_impl.cc:1103-1117 | Taking a group and releasing the lock keeps the invariant while others arrive. |
| GroupCommit.FinishInv | db/db_impl.cc:1140-1174 | Completing a group, waking its members and the next front writer, keeps the invariant. |
| GroupCommit.CheckEffect | db/db_impl.cc:1094-1101 | A thread that checks returns if and only if it was completed, and leads if and only if it is at the front. |
| GroupCommit.FinishEffect | db/db_impl.cc:1140-1174 | Completing a group completes exactly its writers, each of which has returned or is awake to do so. |
| GroupCommit.LeaderMoves | db/db_impl.cc:1103-1174 | A leader always has a next step: it takes a group, or completes one. |
| GroupCommit.NextInv | db/db_impl.cc:1088-1174 | Every step does: the queue is what has arrived and is not completed in order of arrival, and a non-empty queue without a leader has its front writer awake. |
| GroupCommit.RunInv | db/db_impl.cc:1088-1174 | The invariant holds in every state of every interleaving. |
| GroupCommit.GroupsSerial | db/db_impl.cc:1088-1174 | Groups are completed in queue order, and a later logged group has only later sequence numbers. |
| GroupCommit.CompletedOnce | db/db_impl.cc:1157-1171 | Every completed writer is in exactly one group. |
| GroupCommit.WriterReturns | db/db_impl.cc:1088-1174 | Nobody is stuck: from every state of every run some steps let any writer that has arrived return. |
| WriteBatch.WriteBatch.Put | db/write_batch.cc:103-108 | The batch has one put more; count and contents agree. |
| WriteBatch.WriteBatch.Delete | db/write_batch.cc:110-114 | The batch has one deletion more; count and contents agree. |
| WriteBatch.WriteBatch.Append | db/write_batch.cc:146-150 | The batch has the operations of the other one after its own. |
| WriteBatch.WriteBatch.SetSequence | db/write_batch.cc:99-101 | The sequence number changes and nothing else. |
| WriteBatch.Iterate | db/write_batch.cc:47-85 | For any bytes: the operations before the first malformed one are replayed, and the status is OK just when all is well formed and the count is right. |
| WriteBatch.OpsRead | db/write_batch.cc:47-85 | Reading encoded operations gives them back. |
| WriteBatch.BatchReplays | db/write_batch.cc:47-114 | A batch replays exactly the calls that built it. |
| WriteBatch.BadTagStops | db/write_batch.cc:54-79 | Any other tag than the two stops the replay and makes the batch malformed. |
| WriteBatch.CutReplays | db/write_batch.cc:47-85 | A batch cut off anywhere replays exactly the operations that are whole, and counts as well formed only if the cut is between two. |
| MemTable.EntryDecodes | db/memtable.cc:83-110 | An encoded entry decodes to itself. |
| MemTable.LessOrdered | db/memtable.cc:34-40 | The comparator of the list, which reads the keys out of the bytes, is a strict order on all byte strings. |
| MemTable.FreshBuffer | db/memtable.cc:83-110 | An operation with a new sequence number compares equal to no entry of the list, as the skip list demands. |
| MemTable.EntriesAre | db/memtable.cc:83-110 | The bottom list decodes to sorted entries that are just the operations of the history. |
| MemTable.BoundIsFirst | db/memtable.cc:112-147 | Where the skip-list search for a lookup key stops is the first entry not less than it. |
| MemTable.LatestIs | db/memtable.cc:112-147 | What is meant by the last operation on a user key up to a sequence number. |
| MemTable.AnswerIs | db/memtable.cc:112-147 | The first entry not less than the lookup key tells what that operation left. |
| MemTable.MemTable.Add | db/memtable.cc:83-110 | The encoded entry is inserted into the skip list, and the history gains the operation. |
| MemTable.MemTable.Get | db/memtable.cc:112-147 | A search of the skip list for the encoded lookup key returns the value, the deletion or nothing, as the last operation on the key up to the sequence number left it. |
| MemTable.InsertInto | db/write_batch.cc:117-139 | For any bytes: the history gains the operations up to the first malformed one, with consecutive sequence numbers from the header on, and the status says whether bytes and count were right. |
| MemTable.InsertBatch | db/write_batch.cc:117-139 | A batch inserts just the calls that built it. |
| Compaction.FirstSeenIsNewest | db/db_impl.cc:804-886 | In a sorted list the first entry a reader sees is the newest one. |
| Compaction.DropServes | db/db_impl.cc:819-855 | Dropping an entry by the rule changes no read at or above the smallest snapshot. |
| Compaction.OneOld | db/db_impl.cc:834-837 | Of each user key the output has at most one entry at or below the smallest snapshot. |
| Compaction.MaxSnapshotDropsAll | db/db_impl.cc:834-837 | With the reserved largest sequence number as smallest snapshot every entry that parses is dropped. |
| Compaction.DoCompactionWork | db/db_impl.cc:804-886 | Every reader at or above the smallest snapshot finds, for a key the index has in an input file, the same newest entry in output and input; other keys leave nothing; the output is, in order, exactly what the rule does not drop. |
| RWLock.ReadUnlockInv | util/rwmutex.cc:22-27 | The last reader out leaves a waiting writer notified. |
| RWLock.WriteUnlockInv | util/rwmutex.cc:29-37 | A writer that leaves notifies another writer, or all readers if none waits. |
| RWLock.WriterResumesInv | util/rwmutex.cc:15-20 | A woken writer that has to sleep again loses no wake-up. |
| RWLock.StepInv | util/rwmutex.cc:9-37 | Every step keeps the invariant, and a reader enters only when no writer waits or writes. |
| RWLock.WriterEnters | util/rwmutex.cc:15-20 | A thread that asks for the write lock, or asks again, has it afterwards if and only if nobody held the lock, and else waits. |
| RWLock.ReaderEnters | util/rwmutex.cc:9-13 | A thread that asks for the read lock, or asks again, has it afterwards if and only if no writer writes or waits, and else waits. |
| RWLock.StepOthers | util/rwmutex.cc:9-37 | A step changes what its own thread does with the lock; others may only be woken. |
| RWLock.HolderLeaves | util/rwmutex.cc:22-37 | A holder that unlocks gives the lock back and does not wait. |
| RWLock.CanAsk | util/rwmutex.cc:9-20 | A thread that has nothing to do with the lock can ask for either kind at any time. |
| RWLock.FreeLockIsTaken | util/rwmutex.cc:15-20 | On a free lock a waiting writer is awake and has the lock after its next check. |
| RWLock.RunInv | util/rwmutex.cc:9-37 | In every interleaving: readers and writers exclude each other, at most one writer is active, the counters are right, and a free lock with waiting writers has one of them awake. |
| RWLock.WriterNotStuck | util/rwmutex.cc:9-37 | From every state of every run some steps give any waiting writer the lock. |
| RWLock.ReaderNotStuck | util/rwmutex.cc:9-37 | And some steps let any waiting reader in. |

## Left out

- FFBtree.FFBtree.Insert: sequential only. Concurrent and crash-time readers of a page are not modelled, since `insert_key` writes the new key before its pointer and the states in between support no such claim.
- FFBtree.FFBtree.Insert: value pointers are distinct and non-null, as the index makes them; the source relies on it and does not check it. Address reuse after a free is not modelled.
- CuckooFilter.TableSize: load factors are compared as rationals, not as doubles; up to 2^32 keys, since the other bucket is 32-bit arithmetic.
- CuckooFilter.CuckooFilter.Rehash: up to a doubled capacity of 2^32 keys. A rehash is one step; lookups during it read the old table, which is not written. Waiting for the deletion flag is not modelled.
- MultiCuckooIndex.Index.FinishRehash: up to a doubled capacity of 2^32 keys.
- MultiCuckooIndex.Index.Update: the index is not said to stay sound after an update of a key that was never written; `StrayUpdateOverwrites` shows why, and `UpdateElsewhere` which reads are affected. The recovery list and the option without a tree are not modelled.
- SkipList.List.Insert: memory ordering is sequential consistency: each store and load is one step.
- INode.InternalNode.Split: for a node that is not full the source has an unfinished branch and returns nothing usable; the model returns no nodes.
- INode.InternalNode.Merge: nodes have keys, and the scratch array holds at most 28 keys. Removal, update and blocking of entries, and the tree around the nodes with its locking variants, are not modelled.
- LRUCache.LRUCache.Insert: one shard. An insertion without capacity is not cached and leaves the entry of the key as it is, as in the source, so the last insertion means the last cached one. Choosing the shard by the high hash bits, the mutex, and the destructor are not modelled.
- LogReader.Reader.ReadRecord: initial offset 0, which is all that recovery uses; reports are their numbers of dropped bytes, not their texts. File errors are not modelled.
- LogReader.Reader.ReadPhysicalRecord: initial offset 0; the texts of reports and file errors are not modelled.
- LogDamage.Resynchronises: damage that ends at a block boundary, where the reader starts anew; within a block nothing tells where the next header is.
- LogWriter.Writer.AddRecord: appending to the file does not fail.
- Bytes.Checksum.ExtendValue: the checksum is any byte-wise fold; the CRC32C tables are not modelled.
- Coding.GetVarint32Fallback: joining a group of seven bits to the value is addition, which is the same because the bits do not overlap.
- Block.DecodeEntry: `limit - p` is not cut to 32 bits, so blocks have fewer than 4 GB.
- Block.ParseEntry: blocks as the builder finishes them; the corruption exits for other bytes are not modelled.
- Block.Iter.ParseNextKey: blocks as the builder finishes them.
- Block.Iter.Next: blocks as the builder finishes them.
- Block.Iter.Prev: blocks as the builder finishes them.
- Block.Iter.Seek: blocks as the builder finishes them.
- Block.Iter.SeekToFirst: blocks as the builder finishes them.
- Block.Iter.SeekToLast: blocks as the builder finishes them.
- Bloom.Policy.CreateFilter: 0.69 is 69/100; sizes in unbounded integers. The hash is any function.
- Format.ReadBlock: blocks compressed with Snappy count as unreadable, as in a build without it; the 64-bit varint decoder is its function, not its loop.
- TableFile.InternalGet: index and data blocks as the builder writes them; other bytes are not modelled. Block caching is not modelled.
- TableFile.ReadMeta: a metaindex block as the builder writes it.
- TableFile.Get: files as the builder writes them.
- TableBuilder.TableBuilder.Finish: says nothing of files of 4 GB and more, whose 32-bit offsets wrap. Blocks are stored raw. Appending to the file does not fail. The version edit and the index queue are not modelled.
- Merger.MergingIterator.Next: keys are integers in the order of the comparator, pairwise distinct across children. Statuses and the range iterator are not modelled.
- TwoLevel.TwoLevelIterator.Seek: keys are integers in the order of the comparator.
- DBIter.DBIter.Next: user keys are integers in the order of the comparator; keys that do not parse and read sampling are not modelled.
- GroupCommit.WriterReturns: says that steps to the return exist, not that a scheduler takes them.
- GroupCommit.FinishInv: making room is an arbitrary delay that may fail; statuses are a flag per group.
- MemTable.MemTable.Add: sequence numbers increase, as group commit gives them; keys and values have fewer than 4 GB.
- MemTable.MemTable.Get: user keys of fewer than 4 GB, 56-bit sequence numbers.
- MemTable.InsertInto: the sequence numbers of the batch follow those in the memtable, as group commit gives them.
- Compaction.DoCompactionWork: the index is held fixed during the loop. Cutting output files, shutdown and flushing a memtable in between are not modelled. The smallest snapshot is below the reserved largest sequence number; MaxSnapshotDropsAll says what happens otherwise.
- RWLock.RunInv: a thread waits for one lock operation at a time. Fairness is not modelled: the results about waiting threads say that steps to the lock exist, not that a scheduler takes them.
- Persistent memory, cache-line flushes, `mmap`, POSIX files and threads themselves.
- Version and VersionControl: choosing files for compaction and eviction uses random choice and floating scores.
- Removal, page rebalancing and iterators of the FAST and FAIR tree, which the index does not use.
- The older filter in util/, the copy of the tree in index/, recovery and manifest handling, benchmarks, the C binding, dump and repair tools.
