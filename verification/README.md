# Two storage managers of a small operating system

This project models, and proves properties of, two components that keep state in place:

- the dlmalloc 2.8.4 heap in `code/MiddleWare/runtime/dlmalloc.c`: boundary tags, small bins,
  bitwise tries of large chunks, the designated victim, the top, segments, and `malloc`,
  `calloc`, `free`, `realloc` and `memalign` on them;
- the Coffee flash file system in `code/Contiki/core/cfs/cfs-coffee.c`: extents found by a
  header walk, the garbage collector, allocation, micro logs, merges, the cache of files, the
  descriptors, and `cfs_open`, `cfs_close`, `cfs_seek`, `cfs_read`, `cfs_write` and
  `cfs_remove`.

For each there is a refinement to what a client sees. A block of the heap is an array that no
call on another block touches (`HeapRuns`). An open file is an array of bytes that all
descriptors on it share, a call changes only the file it is on, and a read returns what the
last write there has put there, also after the file has been closed and opened again
(`FileRuns`). Classes with mutable fields stand for `malloc_state`, its bins, the flash device,
the store and the file layer; specifications are functions and predicates on values, and the
lemmas about these do most of the work.

Modules: `Words`, `BinIndex` and `Alignment` are the arithmetic of the macros. `Rings`,
`SmallBins`, `Trie`, `Forest` and `TreeBins` are the bins. `Chunks`, `Blocks`, `BoundaryTags`,
`Layout`, `Placement`, `Policy`, `Coalescing` and `Growth` are the chunks in memory and what
the operations do to them. `Memory` holds the clients' bytes. `Heap`, `Traversal`, `HeapRuns`,
`HeapClient` and `HeapExamples` put these together. `CoffeeConfig`, `FlashBytes` and `FlashDevice` are the
device. `Extents`, `Sectors`, `Collector`, `Sweeping`, `Allocation`, `Reserving` and
`CoffeeStore` are its pages.
`MicroLog`, `FileContent`, `FileSystem`, `FileCache` and `FileWrites` are the files, `Coffee`,
`FileRuns` and `FileClient` their operations, and `FileFailures` has runs that go wrong.

## Hypotheses

About the heap:

- The IAR configuration: 32-bit words, 8-byte alignment, no mmap, no morecore, no footers, no
  mspaces, no trimming, no locks; the portable forms of the index macros.
- Callers free, and reallocate, only blocks they hold.
- A region from the system lies apart from earlier ones, ends on a word boundary below 2^32 and
  has room for a top. A region right before a segment has room for the padded request and one
  more chunk, which the code does not look at (see Findings).
- Alignments are at most 2^31. The words of chunks are kept in maps from addresses, apart from
  the bytes that clients store; `HeapRuns.WordsApart` says that the two do not meet.

About the file system:

- The dimensions are symbolic. Pages per sector are a power of two, pages are fewer than 2^14,
  so that no 16-bit page number or its double overflows, and a header fits in a page. The
  dimensions of logs are a constant of their own (`CoffeeConfig.LOGS`): a default log has a
  record of a page, and fits one batch of its table. Nothing on extents, collection and
  allocation depends on them. The port in `code/MiddleWare/fs/cfs-coffee-arch.h` (52-79: pages of
  256 bytes, four to a sector, names of 20 bytes, 4 files, 8 descriptors) is an instance of these
  results (`CoffeeConfig.PortOk`); it leaves micro logs out, and its log size of 128 is no instance of those on logs.
- Multi-byte fields lie in memory with the low byte first, headers without padding, and the
  page type has 16 bits with sign. Erasing sets bytes to zero, writing replaces bytes, and
  reading behind the device gives zeros.
- A name is an array of the length of the header's field, padded with zeros.
- An operation that allocates begins while `next_free` is on the header walk (`!lost`), and what
  is said of its result holds if it still is there at the end, that is, if each collection
  meanwhile has met the condition of `Collector.LoweredOnWalk`. Beyond that the model stops
  allocating, and the code goes on as `Allocation.CollectionStrands` says.
- A call of the file system finds files with different names (`Valid`). It keeps them so, except
  in the cases that its contract names (`leak`).
- The options for I/O semantics and for append-only use are off. Extended wear levelling is on, as it
  is by default (cfs-coffee.c:89-91), so that removal does not collect garbage.

## Model

| member | source | states |
|---|---|---|
| BinIndex.TreeIndexExact | code/MiddleWare/runtime/dlmalloc.c:2836-2867 | `compute_tree_index` is exact: the size is at least the minimum of its bin and, but for the last bin, below that of the next |
| BinIndex.TreeIndexUnique | code/MiddleWare/runtime/dlmalloc.c:2864-2867 | no other bin has this property |
| BinIndex.ComputeTreeIndex | code/MiddleWare/runtime/dlmalloc.c:2836-2852 | the branch-free macro with its shifts and borrows computes that index for all 32-bit sizes |
| BinIndex.Request2SizeIsLeast | code/MiddleWare/runtime/dlmalloc.c:2193-2206 | the padded size is the least multiple of 8, at least the minimum chunk, that holds the request and its overhead |
| BinIndex.CallocRequest | code/MiddleWare/runtime/dlmalloc.c:4958-4971 | the 32-bit product with its overflow test is the exact product, or else the size that cannot be served |
| Words.NextMarked | code/MiddleWare/runtime/dlmalloc.c:2885-2933 | `left_bits`, `least_bit` and `compute_bit2idx` together give the next marked bin above an index, or nothing when there is none |
| Words.NearMarked | code/MiddleWare/runtime/dlmalloc.c:4749-4753 | when the test of `smallmap >> idx` with 3 succeeds, the index it leads to is that of the bin itself, if that is marked, and otherwise that of the next one, which is |
| Chunks.PackedHead | code/MiddleWare/runtime/dlmalloc.c:2211-2235 | size and flags packed into a head word come back out of it |
| SmallBins.SmallBins.Insert | code/MiddleWare/runtime/dlmalloc.c:3524-3541 | the chunk goes to the front of its bin's ring and the bin is marked; all other bins are unchanged |
| SmallBins.SmallBins.Unlink | code/MiddleWare/runtime/dlmalloc.c:3543-3561 | exactly this chunk leaves its bin, from any place in the ring; a bin that becomes empty is unmarked, its header links left stale |
| SmallBins.SmallBins.UnlinkFirst | code/MiddleWare/runtime/dlmalloc.c:3563-3575 | exactly the first chunk of the bin is taken |
| TreeBins.TreeBins.Insert | code/MiddleWare/runtime/dlmalloc.c:3597-3646 | a new size becomes a leaf on its bit path, a size that is there gets the chunk at the end of its queue; the trie invariant is kept |
| TreeBins.TreeBins.Unlink | code/MiddleWare/runtime/dlmalloc.c:3665-3734 | exactly one chunk leaves and the trie is kept: every remaining size is on its own bit path, parents and children agree, nodes have distinct sizes, queues of equal sizes keep their order |
| TreeBins.TreeBins.BestFit | code/MiddleWare/runtime/dlmalloc.c:4309-4357 | the search of `tmalloc_large` finds the least size that holds the request over all tree bins, and of that size the oldest chunk, or none exactly when none fits |
| TreeBins.TreeBins.SmallestFit | code/MiddleWare/runtime/dlmalloc.c:4380-4400 | the search of `tmalloc_small` finds the least chunk of all tree bins |
| TreeBins.RemainderTest | code/MiddleWare/runtime/dlmalloc.c:4312-4326 | comparing remainders that wrap around below zero is comparing sizes, with sizes that are too small never chosen |
| Policy.ChoiceExists | code/MiddleWare/runtime/dlmalloc.c:4713-4847 | the placement policy names a chunk exactly when the bins, the designated victim and the top are not exhausted for the request |
| Policy.HandedUsed | code/MiddleWare/runtime/dlmalloc.c:4735-4822 | handing out a chunk adds one chunk to those in use, less than the minimum chunk larger than asked for |
| Coalescing.FreedUsed | code/MiddleWare/runtime/dlmalloc.c:4869-4944 | freeing a chunk, with all its coalescing, takes exactly that chunk from those in use |
| Heap.Heap.DlMalloc | code/MiddleWare/runtime/dlmalloc.c:4713-4847 | keeps the heap invariant; from stock it hands out exactly the chunk the policy chooses, the first of its list, cut as the policy says, and the remainder of a small request becomes the designated victim; otherwise it grows by the region offered, and says how the chunks then lie; it fails if and only if the stock is exhausted and no region is offered, or one that does not serve the request itself and leaves the top too small |
| Heap.Heap.DlFree | code/MiddleWare/runtime/dlmalloc.c:4849-4956 | keeps the heap invariant; the chunk and its free neighbours become one free chunk, the designated victim or part of the top, and no other chunk changes; the designated victim is then that chunk if it was behind the one freed, the same place with the new size if it was before, none if it is now part of the top, and otherwise as before |
| Heap.Heap.ConsolidateForward | code/MiddleWare/runtime/dlmalloc.c:4895-4944 | the four cases of what follows the freed chunk: top, designated victim, binned chunk, chunk in use; and what each makes of the designated victim |
| Heap.Heap.DlCalloc | code/MiddleWare/runtime/dlmalloc.c:4958-4971 | a block for the exact product, all zeros, every other byte unchanged; or failure, if and only if a request of that size is refused |
| Heap.Heap.DlRealloc | code/MiddleWare/runtime/dlmalloc.c:4419-4490 | the block gives way to one of the new size that keeps the bytes both have room for (section 7.22.3.5 of ISO/IEC 9899:2011): in place if and only if the chunk is large enough, or the top follows and is; otherwise in the chunk that the policy chooses, after which the old one is freed; it fails if and only if the request is too big, or it cannot stay and is refused; failure leaves all as it was |
| Heap.Heap.ResizeInPlace | code/MiddleWare/runtime/dlmalloc.c:4436-4463 | a chunk that stays gives back what is a chunk or more, which joins what is free behind it, or takes what it needs from the top; its size is then less than a minimum chunk above the one asked for |
| Heap.Heap.DlMemalign | code/MiddleWare/runtime/dlmalloc.c:4494-4577 | the block is aligned to the power of two the alignment is rounded to, its chunk holds the request; when the stock is not exhausted, it is cut out of the chunk that the policy chooses, what is before it and behind it is freed in this order, and it is 16 bytes larger than needed if and only if that chunk is 8 bytes larger than asked for and the spot 16 bytes into it is aligned; it fails if and only if the larger request is too big or refused, or, for alignments up to 8, if and only if the request itself is |
| Alignment.AlignedSizeIs | code/MiddleWare/runtime/dlmalloc.c:4520-4561 | the arithmetic of it: of both sizes that may be handed out, what the cuts leave; the size is exact unless the spot 16 bytes into the chunk is aligned |
| HeapExamples.LargerBlock | code/MiddleWare/runtime/dlmalloc.c:4552-4561 | a run from an empty heap: two blocks of 52 bytes, the first freed, then 12 bytes aligned to 16 come in a chunk 16 bytes larger than needed |
| Alignment.RoundedIsLeast | code/MiddleWare/runtime/dlmalloc.c:4495-4503 | the alignment used is the least power of two, at least 16, that is not below the one asked for |
| Alignment.SpotFits | code/MiddleWare/runtime/dlmalloc.c:4520-4537 | the aligned spot is the chunk itself or at least a minimum chunk behind its start, and always leaves room for the request |
| Heap.Heap.PrependAlloc | code/MiddleWare/runtime/dlmalloc.c:3882-3921 | the start of the region becomes the chunk handed out; the rest joins the first chunk of the segment in each of its four cases; the segment grows by the region |
| Heap.Heap.AddSegment | code/MiddleWare/runtime/dlmalloc.c:3924-3974 | the old top becomes a free chunk, if there is room for one, a record and fenceposts up to the segment's old end; the region becomes the newest segment |
| Heap.Heap.WriteFences | code/MiddleWare/runtime/dlmalloc.c:3952-3962 | at least two fenceposts are written, and they end exactly at the old end of the segment |
| Growth.AddedUsed | code/MiddleWare/runtime/dlmalloc.c:3924-3974 | clients lose nothing and gain nothing when the top is retired |
| Growth.PrependedUsed | code/MiddleWare/runtime/dlmalloc.c:3882-3921 | prepending hands out exactly one chunk, of the padded size, at the start of the region |
| Growth.PrependNeeds | code/MiddleWare/runtime/dlmalloc.c:3884-3893 | the 32-bit differences of `prepend_alloc` are right if and only if the region has room for the request and a further chunk |
| Growth.PrependWraps | code/MiddleWare/runtime/dlmalloc.c:3884-3893 | for a request that is too big its assertions hold all the same |
| Growth.PrependOverlaps | code/MiddleWare/runtime/dlmalloc.c:3882-3921 | then the chunk returned reaches over the whole first chunk of the segment |
| Growth.PrependWitness | code/MiddleWare/runtime/dlmalloc.c:4159-4168 | a concrete heap and region where that first chunk is in use |
| Traversal.Conserved | code/MiddleWare/runtime/dlmalloc.c:3370-3398 | the traversal of a segment meets each of its chunks, and their sizes add up to the segment, before and after any operation |
| Traversal.Coalesced | code/MiddleWare/runtime/dlmalloc.c:3211-3231 | what follows a free chunk is in use, is marked as following a free one, and starts with that one's size |
| HeapRuns.SafeBlocks | code/MiddleWare/runtime/dlmalloc.c:3234-3245 | any two blocks held are disjoint |
| HeapRuns.SafeBlock | code/MiddleWare/runtime/dlmalloc.c:3234-3245 | every block held is aligned and inside a segment, with all the bytes asked for |
| HeapRuns.WordsApart | code/MiddleWare/runtime/dlmalloc.c:3166-3231 | no word that the allocator keeps lies in the payload of a chunk in use |
| HeapRuns.StepSafe | code/MiddleWare/runtime/dlmalloc.c:4713-4998 | every call keeps the state safe: blocks held are exactly the chunks in use, each large enough and not much larger |
| HeapRuns.StepOthers | code/MiddleWare/runtime/dlmalloc.c:4713-4998 | no call changes the contents of a block it is not for |
| HeapRuns.StepArrays | code/MiddleWare/runtime/dlmalloc.c:4419-4490 | `calloc` gives zeros, `realloc` keeps the common part, a store changes one byte |
| HeapRuns.RunSafe | code/MiddleWare/runtime/dlmalloc.c:3370-3398 | every state of every run is safe: the chunks tile the segments, and the blocks held are exactly the chunks in use, each large enough and not much larger |
| HeapRuns.RunKeeps | code/MiddleWare/runtime/dlmalloc.c:4713-4998 | over a whole run, a block that no call is for stays, and keeps its contents |
| HeapClient.Client.Realloc | code/MiddleWare/runtime/dlmalloc.c:4973-4994 | the operation on the heap is a step of the run model, and fails if and only if the request is refused; so are the other methods of this class |
| HeapClient.Client.Malloc | code/MiddleWare/runtime/dlmalloc.c:3401-3427 | so is this one; and what the check of the whole state looks at, bins, tags, marks, designated victim and top, is kept with it (`Heap.Valid`) |
| FlashBytes.EncodeDecode | code/Contiki/core/cfs/cfs-coffee.c:221-237 | a header put into bytes and taken out again is the same header |
| FlashDevice.Flash.WriteHeader | code/Contiki/core/cfs/cfs-coffee.c:221-226 | the header is written at the start of its page, marked valid, and no other byte changes |
| CoffeeConfig.PortOk | code/MiddleWare/fs/cfs-coffee-arch.h:47-79 | the dimensions of the port are within the bounds that the results on extents, collection and allocation need |
| CoffeeConfig.NextSectorIs | code/Contiki/core/cfs/cfs-coffee.c:409-427 | the mask arithmetic leads to the start of the next sector |
| Extents.WalkFindsAll | code/Contiki/core/cfs/cfs-coffee.c:409-427 | the walk from page 0 comes exactly to the first pages of the extents |
| CoffeeStore.Store.GetSectorStatus | code/Contiki/core/cfs/cfs-coffee.c:246-343 | the counts, with what is carried from sector to sector, are those of classifying every page of the sector; the isolation count is positive exactly when an extent not in use ends inside the next sector |
| CoffeeStore.Store.CollectGarbage | code/Contiki/core/cfs/cfs-coffee.c:365-406 | in both modes: every sector that can be erased is, up to and including the first where a reluctant collection stops, and of all other sectors only pages of a removed extent that was cut off are set aside; extents in use stay, with all their bytes, and the headers again tile the device; `next_free` stays on the walk if and only if the first sector erased starts an extent of its own or lies behind |
| Sweeping.SectorErased | code/Contiki/core/cfs/cfs-coffee.c:385-403 | what the sectors before have been through, and which sectors ahead can be erased, is unchanged by an erasure; a reluctant collection stops exactly if a removed extent ends inside the next sector |
| Sweeping.OneCollection | code/Contiki/core/cfs/cfs-coffee.c:365-406 | so the extents after a greedy collection are determined by the state before it |
| Collector.LoweredOnWalk | code/Contiki/core/cfs/cfs-coffee.c:387-398 | that condition, on the state before collection, is exact |
| Collector.Stranding | code/Contiki/core/cfs/cfs-coffee.c:387-398 | a concrete store where it fails |
| Allocation.CollectionStrands | code/Contiki/core/cfs/cfs-coffee.c:536-569 | whenever it fails, the next extent of up to a sector goes to a page that the walk never comes to, before or after |
| CoffeeStore.Store.FindContiguousPages | code/Contiki/core/cfs/cfs-coffee.c:536-569 | the first place from `next_free` on with enough free pages, in spite of skipping whole extents and free rests of sectors; or none exactly when none fits |
| Allocation.TakenTiled | code/Contiki/core/cfs/cfs-coffee.c:628-667 | the new extent and what is left of the free pages tile the device with the others; on the walk a free page still means a free rest of its sector |
| CoffeeStore.Store.Allocate | code/Contiki/core/cfs/cfs-coffee.c:639-655 | a new extent with its header, blank behind it, all others unchanged, at the first place that fits; garbage is collected, and then only once, if and only if nothing fits at first and no removal is waited for; on failure nothing fits before, and either a removal is waited for and nothing changes, or nothing fits after the collection and from then on a removal is waited for, or collection has lost the place; on a device of one sector that fills from the front, it is found exactly if the end of the device is far enough, and allocation goes on behind it |
| Reserving.RefusedOrGranted | code/Contiki/core/cfs/cfs-coffee.c:639-655 | from no state can a search both fail and succeed in these terms |
| Reserving.OneGrant | code/Contiki/core/cfs/cfs-coffee.c:639-655 | and when it succeeds, the place and the extents that are left are determined |
| MicroLog.GetRecordIndex | code/Contiki/core/cfs/cfs-coffee.c:700-738 | the batched backward search returns the greatest index whose entry names the region, or -1 |
| MicroLog.FindNextRecord | code/Contiki/core/cfs/cfs-coffee.c:871-906 | the batched forward search as the code has it, where only the last batch has a say |
| MicroLog.SearchForwardRight | code/Contiki/core/cfs/cfs-coffee.c:889-901 | it finds the first unused record if and only if the table fits one batch, or that record is in the last batch |
| MicroLog.SearchForwardWrong | code/Contiki/core/cfs/cfs-coffee.c:889-901 | concrete tables, one record longer than a batch: a blank one and a full one, and what the search returns |
| FileContent.ReadThroughLog | code/Contiki/core/cfs/cfs-coffee.c:1128-1143 | the loop of `cfs_read` returns the bytes of the file, each from the last record for its region or from the extent; it goes on for ever if and only if 2^16 bytes or more are left to read, since they are kept in a field of 16 bits |
| FileContent.LoopEnds | code/Contiki/core/cfs/cfs-coffee.c:1131-1143 | some number of rounds leaves nothing if and only if fewer than 2^16 bytes are asked for |
| FileContent.LoopHangs | code/Contiki/core/cfs/cfs-coffee.c:1133-1140 | with 65536 bytes no round reads any |
| FileContent.BuildRecord | code/Contiki/core/cfs/cfs-coffee.c:948-961 | the copy holds the old contents of the region with the data spliced in |
| FileContent.LoggedByte | code/Contiki/core/cfs/cfs-coffee.c:963-975 | a record changes the file in its region and nowhere else |
| FileContent.RecordSplices | code/Contiki/core/cfs/cfs-coffee.c:910-979 | with the copy as it is built, the file is what it was with the data spliced in |
| FileContent.FileEnd | code/Contiki/core/cfs/cfs-coffee.c:502-533 | the end is behind the last byte of the extent that is not zero |
| FileCache.RemovedCache | code/Contiki/core/cfs/cfs-coffee.c:590-610 | after removal the cache is well-formed: reference counts are the numbers of open descriptors, and none is on the extent |
| FileCache.MergedCache | code/Contiki/core/cfs/cfs-coffee.c:841-867 | handing the descriptors over, and removing the old file, keeps the cache well-formed |
| Coffee.Coffee.constructor | code/Contiki/core/cfs/cfs-coffee.c:1346-1365 | a formatted device has no files, and the invariant holds |
| Coffee.Coffee.LoadFile | code/Contiki/core/cfs/cfs-coffee.c:430-469 | the extent is given the first free slot, if there is one, and otherwise the last that no descriptor refers to; none only when all are referred to |
| Coffee.Coffee.FindFile | code/Contiki/core/cfs/cfs-coffee.c:472-499 | a file with the name is found, in the cache or on the device; it is not if and only if there is none, or it is not cached and descriptors refer to all slots |
| Coffee.Coffee.Reserve | code/Contiki/core/cfs/cfs-coffee.c:628-667 | a new blank extent where the search puts it, no file changes; it is cached, in the slot that `load_file` picks, if and only if one is free, and left behind otherwise; when the search fails, it has been refused the pages |
| Coffee.Coffee.CreateLog | code/Contiki/core/cfs/cfs-coffee.c:773-795 | the file has an empty log, where the search puts it, and every byte it had; no slot but its own and the one that `load_file` picks changes; on failure no file changes, and the pages were refused or there is no slot; whenever there is room for the log's extent, it fails, and leaves that behind, if and only if no slot is free |
| Coffee.Coffee.WriteLogPage | code/Contiki/core/cfs/cfs-coffee.c:910-979 | the file is merged with its log if and only if it has one and no record is unused; otherwise a piece of the data is spliced in through a record, of the length that the region has room for; or no file has changed, and the log is full and the merge was refused, or there is none and a new one was; no slot is needed for a record in a log that is there; on a device that fills from the front, which of these it is, by numbers known before the call |
| Coffee.Coffee.MergeLog | code/Contiki/core/cfs/cfs-coffee.c:799-867 | the new extent, where the search puts it, holds the bytes of file and log up to the end and zeros behind, under the same name and with the same log configuration; all descriptors are on it at their offsets; old extent and log are no longer in use, and no removal is waited for; no other file changes, and no slot but that of the old log and the one that `load_file` picks; on failure none does, and there was no descriptor, or the pages were refused, or an extent of the same name is left behind: whenever there are a descriptor and room, it fails so if and only if no slot is free |
| FileWrites.MergedData | code/Contiki/core/cfs/cfs-coffee.c:799-867 | after a merge the file's bytes are the ones before |
| FileWrites.MergeStep | code/Contiki/core/cfs/cfs-coffee.c:1173-1220 | what a write has written so far survives a merge or an extension in its middle |
| FileWrites.PieceStep | code/Contiki/core/cfs/cfs-coffee.c:1207-1219 | a further piece lands right behind the ones before |
| FileWrites.DummyStep | code/Contiki/core/cfs/cfs-coffee.c:1222-1230 | the dummy byte changes the file exactly when no record stands for the last byte written |
| FileWrites.ForetellIs | code/Contiki/core/cfs/cfs-coffee.c:1195-1220 | the rounds of the log loop by the numbers: nothing is left exactly if there is room for all the merges and new logs that the pieces take |
| FileWrites.EnoughForetold | code/Contiki/core/cfs/cfs-coffee.c:1195-1220 | with records enough in the log, nothing is left, whatever room there is |
| FileWrites.NextPieces | code/Contiki/core/cfs/cfs-coffee.c:928-941 | data at an offset takes one round for each region it touches, the first of which goes to the end of its region |
| FileWrites.WrittenData | code/Contiki/core/cfs/cfs-coffee.c:1150-1250 | after a write the file is the old byte array with the data spliced in at the offset |
| Coffee.Coffee.CfsWrite | code/Contiki/core/cfs/cfs-coffee.c:1150-1250 | exactly that, through extension, log creation, full logs and plain extents; every descriptor on the file follows it; no other file changes and no name is new; the extent is doubled as often as the data needs and no more often; what was written is nothing if and only if -1 is returned, and all unless a merge to twice the length was refused, or the log was full and a merge refused, or a new log was; what the last byte is; 2^16 bytes or more never go through a log: the loop is idle until there is no room; on a device that fills from the front, or with records enough, how many rounds are missing, computed before the call; the byte before the end is marked in the extent when data has moved the end through the log; names stay different if and only if nothing is left behind, for which no slot was free |
| Coffee.Coffee.Extend | code/Contiki/core/cfs/cfs-coffee.c:1173-1183 | the extent is doubled until the data fits, and never when it does; it fails only when the data does not fit and there is no descriptor, no slot, or the pages for twice the length were refused, by this call if it is the first time |
| FileWrites.DoubledLeast | code/Contiki/core/cfs/cfs-coffee.c:1173-1183 | so, when the data fits, the length is the least of the lengths got by doubling for which it does |
| FileFailures.PartialWrite | code/Contiki/core/cfs/cfs-coffee.c:1198-1230 | a run from a formatted device: the full size is returned, the last byte is not written, and the one before is lost to the dummy byte |
| FileFailures.TightExample | code/Contiki/core/cfs/cfs-coffee.c:1198-1230 | dimensions for it: sixteen pages of 256 bytes |
| Coffee.Coffee.CfsRead | code/Contiki/core/cfs/cfs-coffee.c:1093-1147 | the bytes from the offset up to the end, and no more than asked for; only the offset moves; for a file with a log, it does not come back if and only if this is 2^16 bytes or more |
| Coffee.Coffee.CfsSeek | code/Contiki/core/cfs/cfs-coffee.c:1042-1071 | accepted if and only if the target is within the extent's size; the invariant survives if and only if it is within the capacity |
| Coffee.Coffee.SeekTooFar | code/Contiki/core/cfs/cfs-coffee.c:1062-1064 | on every open file there is a target that is accepted and breaks it |
| Coffee.Coffee.CfsOpen | code/Contiki/core/cfs/cfs-coffee.c:996-1029 | a file of the name is opened on the first free descriptor, or a new blank one made, where the search puts it; descriptors, reference counts, all other files and all other slots are kept; the end is the one cached, or what the device says; it fails only if there is no descriptor, if a file that is not found is to be read only, or if the pages were refused; whenever there are a descriptor and room, a file that is there and not cached, with no slot free, is not found, and an empty one of its name is left behind, so that names are no longer different; and in no other case |
| Coffee.Coffee.EndOnOpening | code/Contiki/core/cfs/cfs-coffee.c:1021-1023 | the end on opening is one it had before if and only if that is cached, or is behind the last byte of the extent that is not zero |
| Coffee.Coffee.MarkedEnd | code/Contiki/core/cfs/cfs-coffee.c:1222-1230 | where the dummy byte has been written, and zeros follow, that is so |
| FileFailures.FullCache | code/Contiki/core/cfs/cfs-coffee.c:472-499 | a run from a formatted device with one slot: while another file is open, opening a file that is there for writing fails, and makes a second file of its name |
| FileFailures.OneSlotExample | code/Contiki/core/cfs/cfs-coffee.c:472-499 | dimensions for it |
| Coffee.Coffee.CfsClose | code/Contiki/core/cfs/cfs-coffee.c:1031-1039 | the descriptor is free and its file has one reference less |
| Coffee.Coffee.CfsRemove | code/Contiki/core/cfs/cfs-coffee.c:1074-1090 | no file has the name; file and log are no longer in use, exactly the descriptors on it are closed, other files are unchanged, and garbage may be collected again; it fails if and only if there is no such file, or it is not cached and no slot is free |
| FileClient.WriteRefines | code/Contiki/core/cfs/cfs-coffee.c:1150-1250 | the effect of `cfs_write` is a step of the flat model: the array behind each descriptor on the file is spliced, all other arrays stay |
| FileClient.SeekRefines | code/Contiki/core/cfs/cfs-coffee.c:1042-1071 | so is a seek within the capacity; beyond the end it adds zeros if the extent is blank there |
| FileClient.OpenRefines | code/Contiki/core/cfs/cfs-coffee.c:996-1029 | so is opening, and a descriptor on a file that is open sees the same array as the others |
| FileClient.RemoveRefines | code/Contiki/core/cfs/cfs-coffee.c:1074-1090 | so is removal |
| FileClient.Write | code/Contiki/core/cfs/cfs-coffee.c:1150-1250 | the call on the file system makes that step, whatever slots are free, and a step on the files of the device; so do the other methods of the module |
| FileClient.WriteDisk | code/Contiki/core/cfs/cfs-coffee.c:1150-1250 | on the device, exactly the file that is written changes, where it is written; behind its end bytes may become zero |
| FileClient.Open | code/Contiki/core/cfs/cfs-coffee.c:996-1029 | opening changes no file, and makes only one of the name asked for, of zeros; what it leaves behind, and when |
| FileClient.AlwaysBacked | code/Contiki/core/cfs/cfs-coffee.c:1093-1147 | the arrays that descriptors see are what is on the device |
| FileRuns.StepConsistent | code/Contiki/core/cfs/cfs-coffee.c:1093-1250 | all descriptors on one file go on seeing the same bytes, at offsets within them |
| FileRuns.RunByte | code/Contiki/core/cfs/cfs-coffee.c:1093-1250 | over any run of calls, while a descriptor stays open, each byte of its file is the one last written there, through whichever descriptor, or the one that was there at first; zeros where a seek has extended it |
| FileRuns.RunRead | code/Contiki/core/cfs/cfs-coffee.c:1093-1147 | and these are the bytes that a read returns |
| FileRuns.FileByteKept | code/Contiki/core/cfs/cfs-coffee.c:996-1250 | over any run of calls in which a file is not removed, whatever is opened, closed and opened again, each byte of it is the one last written, provided that it is not written to while the byte is behind its end |
| FileRuns.ReadBack | code/Contiki/core/cfs/cfs-coffee.c:1093-1147 | and that is what a read returns after the file has been opened again |

## Findings

Where the code does not do what its comments say, the model follows the code, and lemmas give
the exact condition and an input.

- `prepend_alloc` never looks at the size of the region (dlmalloc.c:3882-3893). It is right if
  and only if the region has room for the request and one more chunk (`Growth.PrependNeeds`).
  A request that is too big, for which `dlmalloc` pads to 2^32 - 1 so that it must fail
  (dlmalloc.c:4797-4798), is served from any region right before a segment: the assertions
  hold by wrap-around (`PrependWraps`) and the block covers the chunk behind it
  (`PrependOverlaps`, `PrependWitness`).
- `collect_garbage` lowers `next_free` to the start of a sector it has erased
  (cfs-coffee.c:387-398), which may lie inside an obsolete extent that starts in a sector still
  standing. `CollectGarbage` says exactly when; `Collector.Stranding` is such a store. The next
  file is then put where no walk comes to (`Allocation.CollectionStrands`).
- `find_next_record` leaves only its inner loop (cfs-coffee.c:889-901), so that for a table of
  more than one batch the last batch decides (`SearchForwardRight`, `SearchForwardWrong`).
- `cfs_seek` bounds the offset by the size of the extent with its header
  (cfs-coffee.c:1062-1064). The file then ends behind its extent (`CfsSeek`, `SeekTooFar`).
- `cfs_write` returns the full size after a partial write (cfs-coffee.c:1198-1203, 1249), and
  the dummy byte it writes then may replace the last byte written: exactly if the end has moved
  and the file has no log when the call returns (`CfsWrite`, `FileWrites.DummyStep`), as after a
  merge that is followed by a failure to make a log. `FileFailures.PartialWrite` is such a call.
  All is written if the log has records enough; if the device has one sector and fills from the
  front, if and only if the numbers before the call say so (`FileWrites.ForetellIs`).
- The log loops keep the bytes that are left in a field of 16 bits (cfs-coffee.c:200, 1133,
  1196). `cfs_read` does not come back from 2^16 bytes or more of a file with a log
  (`FileContent.LoopEnds`, `LoopHangs`), and `cfs_write` goes round until a merge or a new log
  fails.
- `find_file` returns the NULL of `load_file` for a file that is there (cfs-coffee.c:491-495),
  and `reserve` writes the header first (657-661). With a descriptor on every slot, `cfs_open`
  and `merge_log` leave a second file of the same name behind, and `create_log` a log of no file
  (`CfsOpen`, `MergeLog`, `CreateLog`). `FileFailures.FullCache` is such a run.
- `internal_memalign` gives a trailer back only if more than a minimum chunk is left over
  (dlmalloc.c:4552-4561), so a chunk may be exactly 16 bytes larger than needed, one step more
  than after `malloc`: if and only if the chunk it is cut from was handed out with 8 bytes to
  spare, and the spot 16 bytes into that is aligned (`DlMemalign`, `Alignment.AlignedSizeIs`).
  `HeapExamples.LargerBlock` is such a run. The run model keeps the stricter bound for all other
  calls.

## Left out

- Heap.Heap.DlMalloc: what the system returns is a parameter, the region or none; the loops of
  `sys_alloc` around mmap and morecore are compiled out in this configuration.
- Heap.Heap.DlMemalign: does not say that the spot is the first that fits, only where it is.
- HeapRuns.RunKeeps: addresses and sizes, not time: that a request succeeds is stated by
  `Heap.Heap.DlMalloc` for one call.
- Coffee.Coffee.CfsOpen: names are of the length of the header's field. Longer ones are cut by
  `strncpy` (cfs-coffee.c:655) and then match no file, so that each open for writing makes
  another. Flags without reading, writing or appending, for which the code counts a reference
  that no descriptor has, are left out.
- CoffeeStore.Store.Allocate: gives up once collection has taken `next_free` off the walk, where
  the code goes on, with the effect that `Allocation.CollectionStrands` states.
- Coffee.Coffee.CfsWrite: nor is it followed beyond that point; how often a loop that is idle
  goes round is a parameter; and which slots that no descriptor refers to are given away is said
  of each merge and each new log (`MergeLog`, `CreateLog`), not of the call.
- Coffee.Coffee.CfsSeek: after a seek beyond the capacity nothing is promised of the file.
- FileRuns.FileByteKept: a byte that is behind the end found on opening may be lost when the file
  is merged; whether the end found is the one before is said by `Coffee.Coffee.EndOnOpening`.
- FileWrites.ForetellIs: on devices of several sectors, collection in the middle of a write is
  not foretold; there the condition on the records in the log is sufficient only.
- Detection of corrupted heaps, statistics, trimming, mspaces, `ialloc`.
- The directory calls of Coffee, `cfs_coffee_reserve` and `cfs_coffee_configure_log`, the
  option for I/O semantics, and loss of power between two writes to the device.
- The other file systems, the shell, the network and the user interface of the repository.
