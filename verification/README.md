# Storage internals, modelled and verified

This project models the storage core of a C port of PostgreSQL 7.x: the dynamic
hash table, the heap tuple codec with its shared offset cache, slotted pages, the
allocation-set memory manager and the tree of memory contexts, virtual file
descriptors, segmented relations with their descriptor vector, and the buffer
replacement ring. Each of these is a packed or intrusive structure that has to
agree with a simple one, and that agreement is what is proved: a hash table with
a finite map, cached offsets with a careful walk, bytes on a page with the items
on it, tiled blocks with a set of live chunks, a few kernel descriptors with any
number of permanently open files, segment files with one sequence of blocks,
index links with a queue.

`dafny verify dfyconfig.toml` checks everything.

## How the model is laid out

| files | component |
|---|---|
| `Bits`, `Lists`, `Storage` | powers of two, masks and alignment; sequences without an entry; page and alignment constants |
| `HashChains`, `HashSizing`, `DynaHash`, `HashPlan` | `dynahash.c` |
| `TupleLayout`, `HeapTuple` | `heaptuple.c`, `tupmacs.h`, `htup.h`, `heapam.h` |
| `PageLayout`, `PageCompaction`, `Page` | `bufpage.c` |
| `AsetGeometry`, `AsetChunks`, `AsetSteps`, `AsetPlaces`, `AsetStats`, `AllocSet` | `aset.c` |
| `ContextTree` | `mctx.c` |
| `FileWorld`, `VfdTable`, `VfdKernel`, `VirtualFiles`, `FileSessions`, `SteadyRuns` | `fd.c` |
| `SegmentedFile`, `MagneticDisk`, `FdVector` | `md.c` |
| `DiskFiles` | `md.c` over `fd.c` |
| `BufferRing` | `freelist.c`, `buf_init.c` |

Objects that the C code updates in place are classes. Their linked structures are
related to sequences that are kept as ghost state; lemmas about values prove what
each relinking step does, and the class methods follow the C routines. Pointers
into a pool, a heap or an array are natural numbers with 0 (or the value the code
uses) as the null value. What the operating system decides (whether and where
`malloc` succeeds, which descriptor `open` returns, how much `read` and `write`
transfer) is a parameter of the operation, constrained only by what such calls
guarantee: fresh memory, an unused descriptor, no more bytes than there are.
Outcomes that raise an error in C are results here.

## What the code does not do

These are differences between the evident intent of the code and its behaviour.
Each is stated exactly.

- A successful read or write on a virtual file whose position is marked "unknown"
  (the transfer before it returned nothing) adds the byte count to the marker -1
  and so records a wrong position (`fd.c:278-282`, `:298-302`). A later absolute
  seek to the recorded number is then skipped (`fd.c:362`), and a relative seek by
  0 answers it (`fd.c:370`). `StaleSeek` drives a file table into this state,
  `AdvanceExact` shows that a transfer keeps the record right exactly if it was
  known, `SeekExact` when a seek does and answers what lseek would. Runs without
  such a seek are transparent (`Run`, `RunProgram`); without evictions that is also
  necessary: `RunSteady` goes through exactly if the run has none, and the first one
  is noticed. `md.c` seeks before every transfer, and `CallsRun` proves that all its
  runs are safe.
- A relative seek on a physically closed virtual file is not checked for a
  negative result (`fd.c:341-343`): `SoughtPos` shows that the position stays valid
  exactly if the result is not negative, and `NegativeSeek` is one that does not.
- A transfer, or a seek to the end, on a file that cannot be reopened fails and
  loses the logical position (`fd.c:275-282`, `:347-348`): `FileRead`, `FileWrite`
  and `FileSeek` keep the position valid exactly if the file is physically open
  beforehand or the kernel's answers, given the descriptors in use beforehand, end in
  a success. Other files are not affected and stay usable. `RefusedRead` is a read
  after which nobody knows where the file was.
- A length query that fails counts as an empty segment (`md.c:973-983`). The walk of
  `md_nblocks` then stops there, and the count is right exactly if that segment has no
  whole block (`CountRight`). `md_truncate` to the wrong count succeeds and cuts
  nothing (`TruncateNothing`); below it, segments that the walk has not opened stay
  behind the new end (`TruncateShort`). `md_extend` writes behind the limit of a full
  segment (`ExtendBehindLimit`), and the next count is a fatal error. `MdNBlocks`,
  `MdExtend` and `MdTruncate` state the exact conditions.
- `md_write` behind the last segment in use leaves a short segment in the middle of
  the relation: `MdWrite` keeps the relation valid exactly if the block lies in a
  segment no later than the first one that is not full, or nothing is written.
  `WriteBehindGap` is a write that breaks an empty relation.
- `page_init` checks the special size before aligning it: the page is valid exactly
  for special sizes up to 8176 (`bufpage.c:33-40`), although its assertion admits
  a few larger ones, 8180 for example (`SpecialTooLarge`).
- Inserting an index tuple and deleting it again restores every line pointer that
  holds an item, but moves the left-over offset of a recyclable pointer that points
  at or below the new item; `InsertDelete` gives the condition and `StalePointer` a
  page where it fails.
- `dynahash.c:400` asserts that no free element was found where the lines behind it
  need one; the model has the evident meaning. The chain variables at
  `dynahash.c:640-641` are indices. `heaptuple.c:393` and `:407` call the functions
  at `:29` and `:47` by another spelling. `get_free_buffer` hands out a buffer with
  no pin; `pin_buffer` may not be called on it before its reference count is set,
  which is why `Pin` requires a buffer that is not claimed. `Adopt` sets that count
  and one private count to 1, and `Replace` does both in one step.

## Model

| member | source | states |
|---|---|---|
| HashChains.BucketIsMod | src/backend/utils/hash/dynahash.c:86-99 | the two masks of call_hash reduce any hash value, negative ones included, modulo the current or the next power of two |
| HashChains.GrownValid | src/backend/utils/hash/dynahash.c:667-681 | raising max_bucket, and the masks when a power of two is crossed, keeps low = 2^k-1, high = 2^(k+1)-1 and low <= max_bucket <= high |
| HashChains.SplitMovesOneBucket | src/backend/utils/hash/dynahash.c:670-686 | after an expansion only hashes that addressed old_bucket can change bucket, and they go to old_bucket or new_bucket |
| HashChains.ChainsDisjoint | src/backend/utils/hash/dynahash.c:272-420 | collision chains share no element |
| HashChains.EnterKeepsChains | src/backend/utils/hash/dynahash.c:402-411 | linking a new element behind the last of its chain leaves every chain linked |
| HashChains.EnterKeepsPlacement | src/backend/utils/hash/dynahash.c:402-411 | after an insertion every key is in exactly the chain call_hash names |
| HashChains.EnterKeepsFree | src/backend/utils/hash/dynahash.c:390-403 | the free list loses exactly the element taken |
| HashChains.RemoveKeepsChains | src/backend/utils/hash/dynahash.c:343-359 | unlinking an element leaves every chain linked, in the same order |
| HashChains.RemoveKeepsPlacement | src/backend/utils/hash/dynahash.c:343-359 | after a removal every other key is still in the chain call_hash names |
| HashChains.RemoveKeepsFree | src/backend/utils/hash/dynahash.c:350-353 | the removed element joins the free list, which holds exactly the elements that no key maps to |
| HashChains.RelinkStep | src/backend/utils/hash/dynahash.c:696-706 | one round of the relinking loop appends the element to the chain under construction and leaves the rest of the old chain readable |
| HashChains.SplitKeepsPlacement | src/backend/utils/hash/dynahash.c:683-710 | after the relinking loop every element is in exactly the chain call_hash names under the new masks |
| HashChains.SplitKeepsChains | src/backend/utils/hash/dynahash.c:696-710 | the split leaves all chains linked |
| HashChains.SplitKeepsFree | src/backend/utils/hash/dynahash.c:696-710 | the split leaves the free list alone |
| HashSizing.MyLog2 | src/backend/utils/hash/dynahash.c:802-809 | the least exponent whose power of two reaches the number |
| HashSizing.HashSelectDirsize | src/backend/utils/hash/dynahash.c:525-539 | the default directory size doubled just until it covers the segments for the planned entries |
| HashSizing.HashEstimateSize | src/backend/utils/hash/dynahash.c:484-523 | for any number of entries, zero and negative ones included, the bytes of header, directory, segments and groups of 30 records, where a record is the least multiple of 16 with room for the link and all bytes of key and data |
| HashSizing.RecordUnique | src/backend/utils/hash/dynahash.c:510-513 | there is only one such record size, so that the estimate and the allocation of groups use the same one |
| HashSizing.PlanIsLeast | src/backend/utils/hash/dynahash.c:491-513 | for at least one entry the planned groups, buckets and segments are the least numbers, the last two the least powers of two, that hold what they must |
| HashSizing.ExpansionStaysWithin | src/backend/utils/hash/dynahash.c:413-417 | an expansion that the fill factor calls for never exceeds the bucket count planned for the maximum number of keys |
| HashSizing.SegmentsCover | src/backend/utils/hash/dynahash.c:647-665 | the planned segments contain every bucket header up to the planned count |
| HashSizing.BucketsMonotone | src/backend/utils/hash/dynahash.c:741-763 | planning for more entries never plans fewer buckets |
| HashSizing.SegmentsMonotone | src/backend/utils/hash/dynahash.c:760-763 | more buckets never need fewer segments |
| HashSizing.DirSizeUnique | src/backend/utils/hash/dynahash.c:525-539 | the estimate and the selection choose the same directory size |
| DynaHash.Walk | src/backend/utils/hash/dynahash.c:312-329 | the chain walk ends at the first element with the key, or at the end of the chain if none has it |
| DynaHash.FoundIffMapped | src/backend/utils/hash/dynahash.c:302-333 | the walk finds an element exactly if the key is mapped, and then the one it is mapped to |
| DynaHash.HashTable.InitHtab | src/backend/utils/hash/dynahash.c:741-795 | an empty valid table with exactly the planned masks and segments; fails exactly when a given directory is too small or memory is refused |
| DynaHash.HashTable.CallHash | src/backend/utils/hash/dynahash.c:86-99 | an existing bucket, the one the masks name for the key |
| DynaHash.HashTable.BucketAlloc | src/backend/utils/hash/dynahash.c:557-593 | a group of fresh elements enters the front of the free list in the order of their addresses; keys, chains and user data are untouched, elements total a multiple of the increment, and the bytes held grow by 30 records |
| DynaHash.GroupHolds | src/backend/utils/hash/dynahash.c:557-593 | each record of a group has room for its link, key and data before the next one and before the end of the group |
| DynaHash.HashTable.DirRealloc | src/backend/utils/hash/dynahash.c:595-625 | a larger directory shows the same headers; refused for a fixed directory |
| DynaHash.HashTable.ExpandTable | src/backend/utils/hash/dynahash.c:627-713 | grows the masks by one bucket and splits one, keeping the order within both halves and what every key maps to; a failed expansion changes no lookup and no mask |
| DynaHash.SplitBucket | src/backend/utils/hash/dynahash.c:683-710 | the chain of the old bucket becomes two chains in the original order, by the bucket call_hash now names |
| DynaHash.HashTable.UnlinkFound | src/backend/utils/hash/dynahash.c:343-359 | the key is no longer mapped, its element is first on the free list, the rest of its chain keeps its order, all else is as before |
| DynaHash.HashTable.LinkNew | src/backend/utils/hash/dynahash.c:402-411 | the key is mapped to the former head of the free list, which no key had, at the end of its chain |
| DynaHash.HashTable.Grow | src/backend/utils/hash/dynahash.c:413-417 | the expansion behind an insertion stays within the plan and fails only for want of memory or of directory |
| DynaHash.HashTable.HashSearch | src/backend/utils/hash/dynahash.c:272-420 | find, enter and remove refine a finite map, frame all other keys and user data, and return NULL exactly when an insertion gets no memory; the table is expanded exactly when a new key brings the keys above the fill factor per bucket, and then has exactly one bucket more unless memory or directory is refused |
| DynaHash.HashTable.SearchLoaded | src/backend/utils/hash/dynahash.c:413-417 | each operation keeps the keys below (fill factor + 1) times the buckets, a failed expansion counting as one |
| DynaHash.LoadStep | src/backend/utils/hash/dynahash.c:413-417 | one expansion behind an insertion that exceeds the fill factor restores that bound |
| DynaHash.HashTable.SearchRun | src/backend/utils/hash/dynahash.c:272-420 | any run, whatever the allocator refuses, is a trace of finite maps from the contents before to those after, in which each answer and found flag is what that map gives; no NULL if groups are granted; the keys stay below (fill factor + 1) times the buckets plus the expansions that failed, and none fails if segments and directories are granted; planned for n entries with a fixed directory and granted segments, none fails while the trace holds at most n keys |
| DynaHash.FreshTableFits | src/backend/utils/hash/dynahash.c:741-763 | a table initialised for at most n entries is within the plan for n, and within the fill factor |
| DynaHash.FitsWithinEstimate | src/backend/utils/hash/dynahash.c:484-523 | within the plan for n the bytes added up at each allocator call never exceed the estimate for n, and reach it when all planned segments and groups are there |
| HashPlan.PlannedTable | src/backend/utils/hash/dynahash.c:741-795 | a table made with the directory chosen for n entries and initialised for at most n fails only for want of segments |
| HashPlan.PlannedRun | src/backend/utils/hash/dynahash.c:484-539 | while it holds at most n keys, no run of operations fails for want of directory; the bytes added up at its allocator calls never exceed the estimate for n, and equal it once all planned segments and groups are allocated; the load stays bounded by the fill factor |
| TupleLayout.FetchImage | src/include/rdbms/access/tupmacs.h:33-80 | a value stored in the data area reads back as itself, by-value ones masked to their length |
| TupleLayout.FetchHolds | src/include/rdbms/access/tupmacs.h:33-66 | a fetched value is one its attribute can hold, and storing it changes nothing |
| TupleLayout.AlignedFirst | src/include/rdbms/access/tupmacs.h:50-66 | for each alignment code the aligned offset is the first one, from the given one on, on the boundary that the code names |
| TupleLayout.HeaderWord | src/include/rdbms/postgres.h:50-68 | the size, the external and the compressed flag of a varlena are the low 30 and the two high bits of its first word |
| TupleLayout.ClearBelow | src/backend/access/common/heaptuple.c:205-207 | the one-operation test of the final byte finds a null below the attribute exactly if there is one |
| TupleLayout.ClearInByte | src/backend/access/common/heaptuple.c:212-216 | a bitmap byte differs from 0xFF exactly if one of its bits is clear |
| TupleLayout.HeaderFits | src/include/rdbms/access/htup.h:93-96 | with nulls the bitmap is the least positive multiple of 4 bytes with a bit for every attribute, the header offset is the least multiple of 16 behind it, and that fits 8 bits for up to 1600 attributes |
| TupleLayout.WalkIsFixed | src/backend/access/common/heaptuple.c:285-311 | without nulls or varlenas before it, the careful walk arrives at the offset that the descriptor alone determines |
| TupleLayout.WalkFollowsLayout | src/backend/access/common/heaptuple.c:285-311 | in a formed tuple the careful walk follows the layout that data_fill used |
| TupleLayout.FormedReads | src/backend/access/common/heaptuple.c:362-413 | a tuple with the given values at their layout offsets reads back as those values and exactly those nulls |
| HeapTuple.CachedIsWalk | src/backend/access/common/heaptuple.c:226-227 | where nothing null precedes it, a cached offset is where the careful walk would arrive |
| HeapTuple.NullsBefore | src/backend/access/common/heaptuple.c:200-219 | true exactly if an attribute before the given one is null |
| HeapTuple.TupleDesc.VarlenaUpTo | src/backend/access/common/heaptuple.c:228-239 | true exactly if an attribute up to the given one is not of fixed length |
| HeapTuple.TupleDesc.FillCache | src/backend/access/common/heaptuple.c:246-270 | caches the offsets up to the wanted attribute, and behind it up to the first attribute that is null, cached already or in a tuple with varlenas not of fixed length; each is the true fixed-prefix offset and no other entry changes |
| HeapTuple.TupleDesc.CarefulWalk | src/backend/access/common/heaptuple.c:273-311 | arrives at the attribute's true offset while using and filling the shared cache |
| HeapTuple.TupleDesc.NoCacheGetAttr | src/backend/access/common/heaptuple.c:151-315 | returns the attribute the reference walk finds, by whichever path, and leaves every cached offset -1 or true |
| HeapTuple.TupleDesc.FastGetAttr | src/include/rdbms/access/heapam.h:96-108 | the cached read returns the same attribute as the reference walk, or null exactly if it is null |
| HeapTuple.TupleDesc.HeapGetAttr | src/include/rdbms/access/heapam.h:122-130 | the same, and null for attributes beyond those the tuple has |
| HeapTuple.TupleDesc.HeapGetAttrs | src/backend/access/common/heaptuple.c:137-150 | any sequence of reads over any tuples through one descriptor returns what each tuple holds, whatever earlier reads cached |
| HeapTuple.ComputeDataSize | src/backend/access/common/heaptuple.c:29-45 | exactly where the layout of the row ends |
| HeapTuple.PointerAlignment | src/backend/access/common/heaptuple.c:47-102 | aligning the data pointer of data_fill is aligning the offset |
| HeapTuple.DataFill | src/backend/access/common/heaptuple.c:47-102 | writes every value at its layout offset and zeros in between, fills exactly the bytes counted, sets one bitmap bit per attribute and each info-mask bit exactly if the row has a null, a varlena, an external or a compressed one |
| HeapTuple.HeapFormTuple | src/backend/access/common/heaptuple.c:362-413 | a tuple that reads back as the given values and nulls, with exactly the bytes of the layout, no bitmap without nulls or else the least multiple of 4 bytes for all attributes, and the header offset the least multiple of 16 behind it; an error exactly for more than 1600 attributes |
| HeapTuple.HeapModifyTuple | src/backend/access/common/heaptuple.c:415-469 | attributes marked 'r' read as their replacements, all others as before; an error exactly for another mark or too many attributes |
| HeapTuple.HeapAttIsNull | src/backend/access/common/heaptuple.c:104-135 | agrees with the reference reading for user attributes; errors exactly for attribute 0 and unknown system attributes |
| PageLayout.InsertKeepsPage | src/backend/storage/page/bufpage.c:116-137 | a new item below pd_upper keeps all storage disjoint and between the boundaries |
| PageLayout.StillShows | src/backend/storage/page/bufpage.c:131-137 | an insertion, which writes below pd_upper only, leaves the bytes of every other item |
| PageLayout.InsertKeepsItem | src/backend/storage/page/bufpage.c:116-137 | after an insertion the item at any other place shows its old bytes from its new place in the line pointers |
| PageLayout.DeleteKeepsPage | src/backend/storage/page/bufpage.c:324-351 | after a deletion the shifted storage is disjoint and the freed space is at pd_upper |
| PageLayout.DeleteKeepsContent | src/backend/storage/page/bufpage.c:336-341 | every other item consists of the same bytes after the move |
| PageLayout.DeleteKeepsItem | src/backend/storage/page/bufpage.c:324-351 | after a deletion the item at any other place shows its old bytes from its new place |
| PageLayout.InsertDelete | src/backend/storage/page/bufpage.c:68-140 | adding at k in shuffle mode and deleting k restores every item's line pointer, and all of them exactly if the new item takes no space or every line pointer lies above it |
| PageLayout.StalePointer | src/backend/storage/page/bufpage.c:365-377 | a valid page with one recyclable line pointer that does not come back |
| Page.SlottedPage.constructor | src/backend/storage/page/bufpage.c:30-42 | an empty page, valid exactly for special sizes up to 8176 |
| Page.SpecialTooLarge | src/backend/storage/page/bufpage.c:30-42 | special size 8180 passes the assertions and leaves no valid page |
| Page.SlottedPage.GetFreeSpace | src/backend/storage/page/bufpage.c:276-288 | the largest n for which an n-byte item and a new line pointer still fit between the boundaries |
| Page.SlottedPage.FindRecyclable | src/backend/storage/page/bufpage.c:104-114 | the first recyclable line pointer, or the first unallocated one |
| Page.SlottedPage.AddItemAnywhere | src/backend/storage/page/bufpage.c:68-140 | accepts exactly if the item fits; stores it in the first recyclable slot, or a new one if there is none; no other byte changes and every other item keeps its bytes |
| Page.SlottedPage.AddItemShuffled | src/backend/storage/page/bufpage.c:84-137 | inserts at the given offset; every other item keeps its bytes, at its place or the next |
| Page.SlottedPage.AddItemOverwriting | src/backend/storage/page/bufpage.c:95-137 | uses the given slot exactly if it is recyclable and the item fits; every other item keeps its bytes |
| Page.AddFitting | src/backend/storage/page/bufpage.c:276-288 | fits exactly if the aligned size and a line pointer have room, and then the item is always accepted; otherwise exactly if a line pointer can be recycled and the item alone has room |
| Page.SlottedPage.AdjustLines | src/backend/storage/page/bufpage.c:365-377 | shifts exactly the line pointers at or before the deleted item |
| Page.SlottedPage.IndexTupleDelete | src/backend/storage/page/bufpage.c:303-351 | removes that entry, in use or not, moves exactly the bytes below the item up over its aligned space, and every other item keeps its bytes, at its place or the one before |
| Page.SlottedPage.AddAndDelete | src/backend/storage/page/bufpage.c:68-140 | page_add_item in shuffle mode and page_index_tuple_delete of the same offset restore pd_lower, pd_upper and every item with its bytes; the line pointers too exactly under the stated condition |
| Page.MoveBytes | src/backend/storage/page/bufpage.c:339-341 | an overlapping move leaves the source bytes at the destination and all else unchanged |
| Page.MoveStep | src/backend/storage/page/bufpage.c:262-269 | copying in the right direction never overwrites a byte still to be copied |
| Page.SlottedPage.GatherUsed | src/backend/storage/page/bufpage.c:212-254 | names exactly the used line pointers and deallocates the others |
| Page.SlottedPage.RepairFragmentation | src/backend/storage/page/bufpage.c:202-273 | every used line pointer names the same bytes as before, items stay in the order in which they lie on the page, and pd_upper is pd_special less the aligned used lengths |
| PageCompaction.SortFacts | src/backend/storage/page/bufpage.c:256-257 | the order of the moves is a permutation, descending by offset |
| PageCompaction.CompactStep | src/backend/storage/page/bufpage.c:262-269 | one overlapping move in descending order destroys no data not yet moved |
| PageCompaction.CompactEnd | src/backend/storage/page/bufpage.c:259-272 | after all moves the page is valid and every used item has its bytes |
| AsetChunks.FreeIndex | src/backend/utils/mmgr/aset.c:201-216 | the free list index of a request, in range up to the chunk limit |
| AsetChunks.IndexLeast | src/backend/utils/mmgr/aset.c:201-216 | it is the least class that holds the request |
| AsetChunks.IndexOfClass | src/backend/utils/mmgr/aset.c:70-93 | a chunk of size 16 << k belongs to list k |
| AsetChunks.PushFree | src/backend/utils/mmgr/aset.c:560-576 | list k still holds exactly the free chunks of size 16 << k, the new one first |
| AsetChunks.PopFree | src/backend/utils/mmgr/aset.c:348-357 | taking any chunk from its list leaves all lists exact and linked |
| AsetGeometry.ChunksDisjoint | src/backend/utils/mmgr/aset.c:122-154 | any two chunks, live or free, of any blocks, occupy disjoint memory |
| AsetGeometry.ChunkAligned | src/backend/utils/mmgr/aset.c:82-85 | every chunk address is aligned |
| AsetGeometry.LastOfBlock | src/backend/utils/mmgr/aset.c:690-692 | a chunk ending where a block's free space begins is that block's last chunk, because blocks are disjoint |
| AsetGeometry.BigChunkAlone | src/backend/utils/mmgr/aset.c:542-545 | a chunk above the limit is alone in its block and fills it, so the assertion on freeptr holds |
| AsetGeometry.AddChunk | src/backend/utils/mmgr/aset.c:486-492 | carving keeps every block exactly tiled by chunks up to freeptr |
| AsetGeometry.DropBlock | src/backend/utils/mmgr/aset.c:547-559 | dropping a single-chunk block keeps the rest of the set tiled and listed |
| AllocSet.FirstFits | src/backend/utils/mmgr/aset.c:337-346 | the first chunk of the request's free list is always large enough |
| AllocSet.ObtainBlock | src/backend/utils/mmgr/aset.c:427-477 | the block has the first size that malloc grants among the size wished for and its halves down to the required one, never above the maximum unless required; fails exactly if malloc refuses them all |
| AllocSet.BlocksDouble | src/backend/utils/mmgr/aset.c:427-450 | each regular block wished for is twice the one before it, from the initial size until the maximum is reached, and no more |
| AllocSet.AllocSetContext.constructor | src/backend/utils/mmgr/aset.c:225-278 | an empty set with exactly the aligned, clamped block sizes and a keeper block exactly if it is asked for and malloc grants it |
| AllocSet.ContextCreate | src/backend/utils/mmgr/aset.c:225-278 | the error branch is taken exactly if a keeper is asked for and malloc refuses its aligned size |
| AllocSet.AllocSetContext.CarveTail | src/backend/utils/mmgr/aset.c:379-425 | carves the rest of the active block into the largest chunk that fits each time, in at most nine rounds, each first on its list, leaving less than the smallest chunk; no live chunk changes |
| AsetPlaces.GreedyDescends | src/backend/utils/mmgr/aset.c:379-425 | the classes so carved strictly descend |
| AllocSet.AllocSetContext.AllocBig | src/backend/utils/mmgr/aset.c:293-332 | a dedicated block of exactly the aligned size with both headers, second in the list behind the active block, or the only one; fails exactly if malloc refuses it, and then nothing has changed |
| AllocSet.AllocSetContext.Reuse | src/backend/utils/mmgr/aset.c:348-370 | the free chunk leaves its list and becomes live again, and no block changes |
| AllocSet.AllocSetContext.Alloc | src/backend/utils/mmgr/aset.c:282-505 | an aligned chunk of the request's class that was not live, with its sentinel: the first of its free list if there is one, with no block changed; else carved at freeptr of the active block if that has room; else the first of a new active block behind the carved tail; all live chunks unchanged; fails exactly if malloc then refuses every size tried, and then nothing live has changed |
| AllocSet.AllocSetContext.Release | src/backend/utils/mmgr/aset.c:507-577 | exactly that chunk is no longer live, is first on the list of its class, or its block is given back if it had one of its own; no damage is reported |
| AllocSet.AllocSetContext.ReleaseAndAlloc | src/backend/utils/mmgr/aset.c:337-370 | a chunk released and requested again in its class is handed out again, and the set is as it was but for that chunk's content |
| AsetPlaces.BackAndForth | src/backend/utils/mmgr/aset.c:337-370 | the same of any states before, between and behind a release and an allocation |
| AllocSet.AllocSetContext.Write | src/backend/utils/mmgr/aset.c:58-63 | a client that stays inside its request changes that byte only and leaves the sentinel and the set intact |
| AllocSet.AllocSetContext.Realloc | src/backend/utils/mmgr/aset.c:582-728 | the result shows the new size, begins with the first min(old, new) bytes, replaces exactly the old chunk, and stays in place if it was large enough; where else it lies, in the grown last chunk, the moved block or a chunk as allocated, is exact; fails exactly if it must grow, cannot in place, and memory is refused |
| AllocSet.AllocSetContext.ReallocLast | src/backend/utils/mmgr/aset.c:686-718 | the last chunk of the active block grows in place to a size of some class |
| AllocSet.AllocSetContext.ReallocBig | src/backend/utils/mmgr/aset.c:613-670 | a large chunk keeps its bytes and its place in the block list when its block moves |
| AllocSet.AllocSetContext.Reset | src/backend/utils/mmgr/aset.c:746-786 | no chunk is left, every free list is empty, and exactly the keeper block, emptied, remains |
| AllocSet.AllocSetContext.Delete | src/backend/utils/mmgr/aset.c:793-817 | every block is given back, the keeper included |
| AllocSet.AllocSetContext.Stats | src/backend/utils/mmgr/aset.c:820-848 | total is the size of all blocks and free the room behind their chunks plus the free chunks with their headers; so total less free is block headers plus live chunks with their headers; the chunk count is that of the free chunks |
| AllocSet.AllocSetContext.Check | src/backend/utils/mmgr/aset.c:856-930 | in every valid state, with clients inside their requests, the check reports nothing |
| AsetStats.CheckBlocks | src/backend/utils/mmgr/aset.c:856-930 | on any set whose blocks can be walked, silence means exactly that every chunk is sound, its sentinel included, and no block but the keeper is empty |
| AsetStats.LiveAndFree | src/backend/utils/mmgr/aset.c:836-842 | every chunk is counted once, as live or on a free list |
| AsetSteps.ChunksApart | src/backend/utils/mmgr/aset.c:282-577 | in every valid state chunks are disjoint and the pointers handed out are aligned |
| ContextTree.Contexts.Create | src/backend/utils/mmgr/mctx.c:196-233 | a new first child of its parent; all other contexts and orders unchanged |
| ContextTree.Contexts.Delete | src/backend/utils/mmgr/mctx.c:86-115 | terminates; exactly the context and its descendants are gone, released once each in the post-order of the sibling links, the context last; parents and the order of remaining siblings unchanged |
| ContextTree.Contexts.DeleteChildren | src/backend/utils/mmgr/mctx.c:130-138 | exactly the proper descendants are gone, released once each, child by child in post-order |
| ContextTree.Contexts.ElderSibling | src/backend/utils/mmgr/mctx.c:96-111 | the search along the sibling links finds the predecessor of the context |
| ContextTree.Contexts.Reset | src/backend/utils/mmgr/mctx.c:79-84 | resets the context and each descendant exactly once, in post-order, the context last |
| ContextTree.Contexts.ResetChildren | src/backend/utils/mmgr/mctx.c:120-128 | resets each proper descendant exactly once, child by child in post-order |
| ContextTree.UnderChild | src/backend/utils/mmgr/mctx.c:130-138 | a proper descendant is a descendant of a child |
| ContextTree.OneAncestor | src/backend/utils/mmgr/mctx.c:120-128 | subtrees of siblings share no context |
| ContextTree.SubtreeStretch | src/backend/utils/mmgr/mctx.c:79-138 | in that order every subtree is one uninterrupted stretch that ends with its root, so every context comes behind its descendants |
| ContextTree.SamePostOrder | src/backend/utils/mmgr/mctx.c:130-138 | deleting the children one by one does not change the order of what is left |
| VfdTable.RingDeleteOk | src/backend/storage/file/fd.c:664-677 | the ring without the slot, in the same order |
| VfdTable.RingInsertOk | src/backend/storage/file/fd.c:712-727 | the ring with the slot at the most recently used end |
| VfdTable.EvictStep | src/backend/storage/file/fd.c:679-710 | closing a file physically with its position saved is invisible to all users |
| VfdTable.AttachStep | src/backend/storage/file/fd.c:730-773 | giving a closed slot a fresh descriptor keeps all others and sets only that file's position |
| VfdTable.GrowStep | src/backend/storage/file/fd.c:810-843 | new slots are exactly the free list, in ascending order |
| VfdKernel.WillingOpens | src/backend/storage/file/fd.c:555-582 | a kernel that refuses for lack of descriptors only, and not when we hold none, opens the file at one of the attempts of the retry loop |
| VfdKernel.LimitedIsWilling | src/backend/storage/file/fd.c:567-576 | a kernel with any descriptor limit of at least one is such a kernel |
| VfdKernel.DropCounts | src/backend/storage/file/fd.c:679-710 | the ring holds every kernel descriptor in use once: closing its first n leaves n fewer |
| VfdKernel.BothPhases | src/backend/storage/file/fd.c:741-762 | room making and the retry loop together close least recently used files only; their outcome and how many they close are determined by the table before both |
| VfdKernel.ClosingsDecide | src/backend/storage/file/fd.c:555-582 | the attempt that decides is the first that is not answered by a lack of descriptors, or the one made when nothing is left to close |
| FileWorld.SeekOpenCorrect | src/backend/storage/file/fd.c:355-383 | while the record is right or unknown, skipping lseek is not observable |
| FileWorld.SeekExact | src/backend/storage/file/fd.c:355-383 | a seek in an open file does and answers what lseek does, exactly unless it is skipped on the word of a wrong record |
| FileWorld.AdvanceExact | src/backend/storage/file/fd.c:278-282 | a transfer keeps the record right exactly if it was not "unknown" |
| VirtualFiles.StaleSeek | src/backend/storage/file/fd.c:267-386 | on a file table: a read at end of file, a write and a seek that answers 2 and leaves the file at 8 |
| VirtualFiles.FileTable.LruDelete | src/backend/storage/file/fd.c:679-710 | closes that file only; every logical position is as before |
| VirtualFiles.FileTable.ReleaseLru | src/backend/storage/file/fd.c:775-788 | closes the least recently used file, and reports failure exactly if none is open |
| VirtualFiles.FileTable.MakeRoom | src/backend/storage/file/fd.c:741-746 | terminates with room below the limit, having closed exactly as many least recently used files as that takes |
| VirtualFiles.FileTable.BasicOpen | src/backend/storage/file/fd.c:555-582 | terminates because every retry closes a file; its outcome is the first answer other than a lack of descriptors as the least recently used are closed one by one, or the last one, and exactly that many are closed |
| VirtualFiles.FileTable.LruInsert | src/backend/storage/file/fd.c:730-773 | reopens exactly if the attempts over the descriptors in use beforehand end in a success, on the descriptor then granted, at the saved position, as the most recently used, behind the ring less exactly the files that room and attempts cost; no file but this one needs a valid position |
| VirtualFiles.FileTable.FileAccess | src/backend/storage/file/fd.c:868-891 | succeeds exactly if the file is open or can be reopened; it is then last in the ring, the order of the others is kept and exactly as many closed as a reopening takes, no logical position, name or flags change |
| VirtualFiles.FileTable.AllocateVfd | src/backend/storage/file/fd.c:790-849 | the first free slot, in any table, or the first new one once the full array is enlarged; no open or virtual file changes |
| VirtualFiles.Enlarge | src/backend/storage/file/fd.c:810-843 | at least doubles the array and threads exactly the new slots |
| VirtualFiles.FileTable.OpenFile | src/backend/storage/file/fd.c:893-948 | a new virtual file at position 0 in the first free slot, most recently used, to be reopened with its flags less those that make or empty a file; or -1 with every file as before and the slot free again; fails exactly if the file may not be opened or the attempts end in a refusal; other files may have lost their positions |
| VirtualFiles.FileTable.FillSlot | src/backend/storage/file/fd.c:921-945 | the slot holds the name, the descriptor, position 0 and the given flags less those that make, empty or insist on a new file |
| VirtualFiles.FileTable.FileClose | src/backend/storage/file/fd.c:216-254 | exactly that virtual file, its position known or not, and its kernel descriptor are gone, the ring keeps the order of the others and the slot is the first free one |
| VirtualFiles.FileTable.FileRead | src/backend/storage/file/fd.c:267-285 | returns the file's bytes at its own position, advances it and makes it the most recently used; fails and loses the position exactly if the file is closed and cannot be reopened; other files unchanged |
| VirtualFiles.FileTable.FileWrite | src/backend/storage/file/fd.c:287-309 | writes at the file's own position, advances it and makes it the most recently used; fails and loses the position exactly if the file is closed and cannot be reopened; other files unchanged |
| VirtualFiles.FileTable.FileTruncate | src/backend/storage/file/fd.c:388-401 | changes the length of that file, keeping what is before it, and makes it the most recently used; fails exactly if the file cannot be opened or the kernel refuses; no position is lost either way |
| VirtualFiles.FileTable.FileSeek | src/backend/storage/file/fd.c:325-386 | rejected exactly for a negative absolute offset or an unknown mode; on a closed file only the record is set, except that a seek to the end reopens it or loses the position; on an open file lseek, or the record alone if it claims that nothing would change; the ring changes only by a reopening; other files unchanged |
| VirtualFiles.FileTable.SeekInOpen | src/backend/storage/file/fd.c:355-383 | in an open file the kernel is not asked exactly if the recorded position is the one sought, or is known and the file is not to move; otherwise it is moved as lseek moves it |
| VirtualFiles.SoughtPos | src/backend/storage/file/fd.c:325-386 | a seek keeps the position valid exactly unless a relative one leaves the start of a closed file or a closed file cannot be reopened to find its end |
| VirtualFiles.SoughtExact | src/backend/storage/file/fd.c:325-386 | it then does and answers what lseek does on a permanently open file, exactly unless it is skipped on the word of a wrong record |
| VirtualFiles.NegativeSeek | src/backend/storage/file/fd.c:341-343 | a relative seek of -1 on a closed file at 0 takes effect |
| VirtualFiles.RefusedRead | src/backend/storage/file/fd.c:267-285 | a read of a closed file that the kernel will not reopen loses its position |
| VirtualFiles.FileTable.CloseAllVfds | src/backend/storage/file/fd.c:589-601 | every file is physically closed and the ring empty, with no change in logical state |
| VirtualFiles.FileTable.Run | src/backend/storage/file/fd.c:216-401 | any interleaving of reads, writes, seeks, truncations, closes and evictions of one or all files, under a kernel that may lack descriptors whenever we hold one, answers and ends as if each file were permanently open; excluded are only a seek skipped on the word of a record that may be wrong, and a relative seek before the start |
| VirtualFiles.FileTable.PerformOpen | src/backend/storage/file/fd.c:893-948 | under such a kernel a file is opened exactly if it exists or may be created, however many are open |
| FileSessions.UseStep | src/backend/storage/file/fd.c:216-401 | which slots files occupy makes no difference to any operation |
| FileSessions.RunProgram | src/backend/storage/file/fd.c:216-401 | any program that opens, uses and closes files on any table, with slots reused and files evicted, is told what it would be told with a descriptor of its own for each file, under the same two exclusions |
| SteadyRuns.StepSteady | src/backend/storage/file/fd.c:267-386 | with all files physically open an operation does and answers what it does on permanently open files, exactly unless it is a seek skipped on the word of a wrong record |
| SteadyRuns.RunSteady | src/backend/storage/file/fd.c:267-386 | a run over physically open files goes through as on permanently open ones exactly if it has no such seek, and differs at the first one |
| SegmentedFile.InRange | src/backend/storage/smgr/md.c:46-50 | every block of the relation lies whole inside its segment |
| SegmentedFile.WriteStep | src/backend/storage/smgr/md.c:382-413 | writing one block disturbs no other, across segments |
| SegmentedFile.HoleStep | src/backend/storage/smgr/md.c:382-413 | a block written behind the end in the last segment keeps all blocks, with zeros in between |
| SegmentedFile.Extended | src/backend/storage/smgr/md.c:218-235 | the whole blocks of the file and behind them the new block; or what arrived of it, or nothing if that could be cut off |
| SegmentedFile.ExtendStep | src/backend/storage/smgr/md.c:205-260 | a block written behind the last whole one is the next block of the flat sequence |
| SegmentedFile.CutStep | src/backend/storage/smgr/md.c:630-670 | full segments before the cut, the shortened segment and empty or missing ones behind it stand for the prefix |
| MagneticDisk.CountRight | src/backend/storage/smgr/md.c:973-983 | the count is right exactly if no length query fails on the way or the segment where one does has no whole block; it is never too high |
| MagneticDisk.Relation.MdNBlocks | src/backend/storage/smgr/md.c:554-599 | the length of the flat sequence, or the blocks before the first segment whose length query fails; an error exactly if a segment not yet open on the way there cannot be opened; the relation is unchanged, the counts on the way are recorded, and no file is made but an empty one behind a full last segment |
| MagneticDisk.Relation.GetSeg | src/backend/storage/smgr/md.c:839-876 | opens up to the block's segment without changing the relation, creating exactly that segment if it is missing, and recording the count of each segment it opens; fails exactly if one on the way is missing or cannot be opened |
| MagneticDisk.Relation.MdExtend | src/backend/storage/smgr/md.c:205-260 | appends exactly one block, or leaves the sequence unchanged if the seek fails or the write falls short; the relation stays valid exactly unless the walk stopped at a full segment with a failed query and bytes stay behind its limit; the count hint is right if no query failed; an error exactly if a segment on the way cannot be opened |
| MagneticDisk.Relation.MdRead | src/backend/storage/smgr/md.c:338-378 | the block of the flat sequence, or zeros behind its end; error and failure each exactly when a segment is out of reach, and when the read fails or finds part of a block behind the end; no file changes |
| MagneticDisk.Relation.MdWrite | src/backend/storage/smgr/md.c:382-413 | for any block number: replaces exactly that block, or extends the sequence to it with zeros in between; a short write disturbs no other block and no other file changes; error exactly if the segment is out of reach; the relation stays valid exactly up to the first segment that is not full |
| MagneticDisk.Relation.MdTruncate | src/backend/storage/smgr/md.c:604-682 | error, refusal and success each with its exact condition, and the files after each; on success the relation is the n-block prefix exactly if n is the true length or, when less than the count, every segment with bytes had been opened, which always holds when no query fails; the recorded counts are those of n blocks |
| MagneticDisk.ExtendBehindLimit | src/backend/storage/smgr/md.c:205-260 | a full segment with a failed query takes a block behind its limit, and the files stand for no sequence of blocks |
| MagneticDisk.TruncateNothing | src/backend/storage/smgr/md.c:604-620 | with a failed query a cut to nothing succeeds and one block is left |
| MagneticDisk.TruncateShort | src/backend/storage/smgr/md.c:604-670 | with a failed query of the second of three full segments the cut leaves the third behind the new end |
| MagneticDisk.WriteBehindGap | src/backend/storage/smgr/md.c:382-413 | writing the first block of segment 1 of an empty relation leaves files that stand for no sequence of blocks |
| MagneticDisk.DropSegments | src/backend/storage/smgr/md.c:630-670 | the loop over the chain keeps earlier segments, shortens the one with block n and deletes the later ones |
| DiskFiles.CallRun | src/backend/storage/smgr/md.c:205-413 | each use of a segment file (length, read, write, extension, cut) positions before it transfers, so that its file operations may be run on virtual files, and leaves the bytes that the operations on a relation leave |
| DiskFiles.CallsRun | src/backend/storage/smgr/md.c:205-413 | the same for any run of such uses of any open segments |
| DiskFiles.RunCalls | src/backend/storage/smgr/md.c:205-413 | run on a table of virtual files under eviction, the files hold the relation's segments |
| FdVector.NoneLeft | src/backend/storage/smgr/md.c:933-936 | the free list is empty exactly when every entry has been used, so the fatal branch is never taken |
| FdVector.Descriptors.constructor | src/backend/storage/smgr/md.c:86-105 | all entries free, in order |
| FdVector.Descriptors.Alloc | src/backend/storage/smgr/md.c:911-960 | an unused entry: the last one freed, or else CurFd; the free list stays freed entries below CurFd followed by CurFd and all above in order, across growth |
| FdVector.Descriptors.Release | src/backend/storage/smgr/md.c:963-970 | the entry is on top of the stack of freed ones |
| FdVector.Descriptors.Commit | src/backend/storage/smgr/md.c:692-716 | the scan below CurFd visits every entry in use exactly once, in order, and fails only at the first that cannot be synced, with all before it visited |
| BufferRing.CountStep | src/backend/storage/buffer/freelist.c:82-104 | how one backend's count changes the set of backends that pin a buffer |
| BufferRing.RingIsUnpinned | src/backend/storage/buffer/freelist.c:48-133 | the ring links exactly the buffers neither pinned nor claimed |
| BufferRing.BufferPool.constructor | src/backend/storage/buffer/buf_init.c:94-109 | all buffers free, in the order 1, 2, ..., n-1, 0 |
| BufferRing.BufferPool.Attach | src/backend/storage/buffer/freelist.c:48-62 | the buffer is last in the ring |
| BufferRing.BufferPool.Pin | src/backend/storage/buffer/freelist.c:65-92 | the backend's count rises, refcount stays the number of backends with a positive count, and the buffer is not in the ring |
| BufferRing.BufferPool.Unpin | src/backend/storage/buffer/freelist.c:95-110 | the buffer joins the end of the ring exactly when no backend pins it any more |
| BufferRing.BufferPool.GetFreeBuffer | src/backend/storage/buffer/freelist.c:113-133 | NULL exactly when every buffer is pinned or claimed; otherwise the buffer released longest ago, which no backend pins |
| BufferRing.BufferPool.Replace | src/backend/storage/buffer/freelist.c:113-133 | the buffer released longest ago leaves the ring pinned once by the caller; refused exactly if the ring is empty |
| BufferRing.BufferPool.Run | src/backend/storage/buffer/freelist.c:65-133 | any run of pins, unpins and replacements by any number of backends behaves as a queue of buffers beside a table of counts |
| BufferRing.InitialPool | src/backend/storage/buffer/freelist.c:141-157 | inserting the header behind buffer 0 makes the circular list the ring that starts at buffer 1 |

## Left out

- `HASH_FIND_SAVE`, `HASH_REMOVE_SAVED`, `hash_destroy`, `hash_seq` and `hash_stats`: the first two are an empty branch, the third is broken by its own account, the others only read.
- Shared-memory placement of the hash table (`segbase` offsets): elements have addresses, and the header words of the two chains being relinked are written once at the end of the loop.
- System attributes (`heap_get_sys_attr`), `heap_copy_tuple` and `heap_add_header`: field copies. `heap_modify_tuple` is stated for user attributes; the header fields it copies are not modelled.
- Integer widths: quantities that the source keeps in fixed-width integers are unbounded, except for the 8-bit header offset and the masked by-value attributes. By-value attributes are little-endian, of 1, 2, 4 or 8 bytes, and alignment is 16 bytes at most.
- `page_add_item` past the first unallocated slot or in shuffle mode without room (callers must exclude both), and the temporary-page routines. Line pointers are kept beside the byte array, not inside it.
- Page.SlottedPage.IndexTupleDelete: does not model the deletion of an unused line pointer whose left-over offset lies outside the item space, where the length of the move at `bufpage.c:340` is negative or reaches past the page.
- Page.SlottedPage.SortItems: stands for `qsort`; it is an insertion sort in descending order of offset, and nothing depends on the order of equal offsets.
- The link between a context in the tree and its allocation set: deletion and reset of contexts are logged, and the allocation set is proved separately.
- fsync and dirty bits, temporary files and their unlinking, stdio files beyond their number, and path building in `fd.c`.
- The descriptor chains of closed relations (`md_close_fd`), blind writes, unlinking and relation opening by name in `md.c`: a relation is its segment files and the list of those it has opened. `DiskFiles` speaks of segments that are open; which descriptor each has is not part of `Relation`.
- The buffer manager proper (`bufmgr.c`), locks, catalogs, lists and the other utility files: stubs, plumbing or easier than what is here.
