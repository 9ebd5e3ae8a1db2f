# Sprite, modelled and verified

Sprite is a small x86 kernel. This project models the parts of it that are algorithms rather than
hardware, in Dafny, and proves what they promise, or exactly when they do not keep the promise:

- **The block cache** (`ProbeTable`, `Ring`, `LruCache`, `Recency`): an open-addressed table with
  linear probing whose `erase` leaves no tombstone, an intrusive circular queue and a pool of nodes.
  It refines a sequence of keys in order of last access, and that sequence is a function of the trace.
- **The block layer and the tables on disk** (`BlockLayer`, `BlockRuns`, `Persistence`): whatever the
  cache evicts, every block keeps its meaning; records written to a run of blocks come back; after
  `sync_all` and a reboot, `init_fs` recovers the tables.
- **Files and paths** (`CStrings`, `Names`, `Zones`, `Directory`, `Paths`): the zone map, directory
  traversal, and `namei` against splitting the path and looking names up exactly.
- **The kernel heap** (`Tiles`, `HeapTiles`, `Heap`, `KernelHeap`): headers and payloads in one byte
  memory, first fit, splitting, forward merging, 32-bit subtraction and all.
- **Physical pages and paging** (`PhysicalPages`, `PageTables`, `DemandPaging`): the page stack, the
  two-level tables drawn from a reserve, and runs of page faults.
- **Tasks** (`RoundRobin`, `Scheduler`): the ring of tasks under submit, schedule and kill, where the
  task that runs may kill itself.
- **The console** (`Console`): an 80 by 25 window on a terminal without a bottom.

The model keeps the source's form: what changes in place there is a class with the same fields, or an
array, here, and each method is proved against a function whose properties are proved as lemmas.
Sizes and addresses are unbounded numbers with the 32-bit wrap written out where the code can wrap.
A failed kernel assertion halts the machine; a method whose code asserts reports that with its result.
`hide` statements in proofs only keep definitions away from the solver; they assume nothing.

Where code and comments disagree the model follows the code:

- `lrucache.hpp:106-108` says Promote moves a node to the head; it moves it to the end, and the head is
  what is evicted.
- `fs.cc:96` writes an evicted block through `write_block`, which calls `Get` on the block being
  evicted. The cache is right with a callback that does not call back; with this one, every eviction
  breaks the queue (`SetWithUncache`).
- `namei` compares entry names with a `strcmp` that accepts prefixes, against the whole rest of the
  path. It gives paths their meaning exactly when no entry shadows a component (`WalkIsResolve`).
- `ILAllocator.hpp:39-47` splits a block even when no header fits behind it. The heap survives exactly
  when the slack is neither 2, nor 0 in a block that is not the last (`TakeOutcome`); the second round
  of the kernel's own `test_kmalloc` hits slack 0 (`TestKmalloc`). `free` of the last block reads a word
  beyond the heap (`FreeOutcome`). `kmalloc.h` speaks of 128 MB; the heap is 16 MB.
- `pmm.cc:63` reports that memory is out while one page is left; the model never hands that page out.
  `pmm.cc:43-47` bounds the memory map by its length in bytes as if that counted entries; the model
  takes the entries that the loop reads, and the pages are distinct exactly when one of them has any.
- `scheduler.h:98-126`: a task can be killed safely exactly when it is neither the head of the list nor
  its last task (`Kill`).

## Model

| member | source | states |
|---|---|---|
| ProbeTable.HoleMeansAbsent | src/include/lrucache.hpp:69-75 | In a table where every key is reachable, a probe that meets an empty slot has proved its key absent, although erase leaves no tombstone. |
| ProbeTable.PassedAll | src/include/lrucache.hpp:72-75 | A probe that has passed N slots has seen the whole table. |
| ProbeTable.FillFirstHole | src/include/lrucache.hpp:88-96 | Filling the first hole of a key's probe path keeps every key reachable. |
| ProbeTable.FillKeepsReachable | src/include/lrucache.hpp:82-96 | So does filling the only hole of a table that was full before its eviction: the reason why erasing needs no tombstone. |
| ProbeTable.CloserAfterRehash | src/include/lrucache.hpp:121-127 | Every rehash brings a probe closer to any slot it has not reached, so erase's loop ends. |
| Ring.BridgedLinks | src/include/lrucache.hpp:156-160 | Unlinking any node of a ring leaves the ring of the others in order, prev and next inverse. |
| Ring.ExtendedLinks | src/include/lrucache.hpp:162-175 | Linking a node in before the first leaves the ring with that node last. |
| LruCache.LRUCache.constructor | src/include/lrucache.hpp:25 | A new cache satisfies the invariant and holds nothing. |
| LruCache.LRUCache.Detach | src/include/lrucache.hpp:156-160 | Removes exactly the node at its place from the ring; a node that was alone keeps pointing to itself. |
| LruCache.LRUCache.PushBack | src/include/lrucache.hpp:162-175 | Appends a node to the ring, also when the queue still points to that very node. |
| LruCache.LRUCache.PopFront | src/include/lrucache.hpp:177-185 | Removes exactly the first node from the ring; of a ring of one it leaves the queue dangling there. |
| LruCache.LRUCache.Promote | src/include/lrucache.hpp:109-114 | Moves the node to the end of the queue and keeps the order of the others. |
| LruCache.LRUCache.Probe | src/include/lrucache.hpp:70-75 | The probe loop stops at the slot of the key if it is resident, and otherwise at a hole or after N steps. |
| LruCache.LRUCache.Get | src/include/lrucache.hpp:69-78 | Null exactly when the key is not resident; on a hit the key's own node, and the key moved to the end of the recency order. |
| LruCache.LRUCache.AllocNode | src/include/lrucache.hpp:136-144 | A node is made only when the pool is empty. |
| LruCache.LRUCache.FreeNode | src/include/lrucache.hpp:146-151 | The victim's key and value reach the backing store, and the node becomes the first of the pool. |
| LruCache.LRUCache.SlotOf | src/include/lrucache.hpp:123-127 | In a full table the probe of erase meets the key without passing an empty slot. |
| LruCache.LRUCache.Erase | src/include/lrucache.hpp:123-130 | Erases exactly the key's slot, and hands its value to the callback. |
| LruCache.LRUCache.FindHole | src/include/lrucache.hpp:88-92 | The probe of Set ends, at the first hole on the key's path. |
| LruCache.LRUCache.Insert | src/include/lrucache.hpp:88-104 | From what an eviction leaves, the full invariant is restored with the new key last; the node is the spare one if there is one, and otherwise new. |
| LruCache.LRUCache.Evict | src/include/lrucache.hpp:82-86 | The first key of the order leaves, with its value given to the callback. |
| LruCache.LRUCache.Set | src/include/lrucache.hpp:63-105 | For a key that is not resident: the recency order becomes Touch of the old one; a full cache loses exactly its least recent entry, to the backing store, and a cache with room nothing; no more than N nodes are ever made. |
| LruCache.LRUCache.Assign | src/lib/fs.cc:261-263 | Writing through a returned pointer changes that key's value only. |
| LruCache.LRUCache.ResidentFacts | src/include/lrucache.hpp:192-197 | Slots, queue and values always agree on what is resident. |
| LruCache.LRUCache.MadeAtMostN | src/include/lrucache.hpp:132-151 | No more than N nodes are ever made, over any run. |
| LruCache.LRUCache.EvictReentrant | src/lib/fs.cc:96 | With the callback of fs.cc the victim is put back into the queue while it is being freed. |
| LruCache.LRUCache.SetWithUncache | src/lib/fs.cc:96 | With that callback Set keeps the invariant when nothing is evicted, and otherwise leaves a node that is its own predecessor beside another node. |
| LruCache.SelfLinkBreaksRing | src/lib/fs.cc:96 | A queue with such a node is no ring. |
| BlockLayer.Serve | src/lib/fs.cc:20-36 | An empty cache that serves any trace by read_block and get_block then holds exactly the keys of Run, in that order: the results on traces below speak of the cache. |
| Recency.TouchKeepsDistinct | src/include/lrucache.hpp:81-105 | An access keeps the keys distinct and within capacity. |
| Recency.RecentDistinct | src/lib/fs.cc:20-36 | The recency list of a trace lists exactly its keys, once each. |
| Recency.RecentInOrder | src/lib/fs.cc:20-36 | It lists them in order of last access. |
| Recency.RunIsLastOfRecent | src/lib/fs.cc:20-36 | The cache's order after any trace is the last cap keys of that list. |
| Recency.TraceDeterminesOrder | src/lib/fs.cc:20-36 | After any trace: distinct keys in order of last access, each key resident exactly when fewer than cap others were accessed since. |
| Recency.HitExactlyWhenRecent | src/lib/fs.cc:28-36 | A key is resident exactly when its stack distance is below the capacity. |
| Recency.Inclusion | src/include/lrucache.hpp:81-114 | On the same trace a larger cache holds all that a smaller one holds; the smaller order is a suffix of the larger. |
| BlockLayer.Blocks.GetBlock | src/lib/fs.cc:20-26 | Changes at most the meaning of its own block, and that not when it is cached; the disk changes at most by writing out what blocks mean anyway. |
| BlockLayer.Blocks.ReadBlock | src/lib/fs.cc:28-36 | Returns what the block means and leaves the meaning of every block unchanged, through any eviction. |
| BlockLayer.Blocks.WriteBlock | src/lib/fs.cc:38-44 | True exactly when the block is cached; then disk and meaning agree on it, and nothing else changed. |
| BlockLayer.EntryKeepsView | src/lib/fs.cc:20-36 | Entering one block and evicting another leaves all others with their content. |
| BlockRuns.RecordFits | src/lib/fs.cc:65-71 | Records of a size that divides a block never straddle two blocks. |
| BlockRuns.HeldInBytes | src/lib/fs.cc:59-91 | Byte j of record i of a run is byte i * size + j, counted through 1024-byte blocks from the first one on. |
| BlockRuns.SpanInBlocks | src/lib/fs.cc:75-91 | A run takes as many blocks as its bytes need, and at least one. |
| BlockRuns.ReadBlocks | src/lib/fs.cc:59-73 | Returns the records of the run, in order, for every count; no block changes its meaning. |
| BlockRuns.PutStep | src/lib/fs.cc:81-88 | Copying a record in at the loop's position extends the records written by one and spoils none. |
| BlockRuns.WriteBlocks | src/lib/fs.cc:75-91 | Afterwards the run holds the records, in memory and on disk; outside the run no block changes its meaning. |
| Persistence.HoldsAllAgree | src/lib/fs.cc:59-91 | Two readings of the same run with the same count give the same records: what was written is what is read. |
| Persistence.StoredIsLaidOut | src/lib/fs.cc:101-130 | The disk layout in bytes: block 1 starts with the super block, whose fields at 0, 2, 4 and 6 place the inode bitmap from block 2 on, the zone bitmap behind its blocks, and the inodes behind both, 32 to a block and from 1 on. |
| Persistence.BeyondTables | src/lib/fs.cc:107-123 | Block 0 and every block behind the inode table, by the counts in bytes, belong to no table. |
| Persistence.LoadedAreStored | src/lib/fs.cc:205-221 | Tables that an image stores and tables loaded from it are the same on their disk part. |
| Persistence.SettledKept | src/lib/fs.cc:125-130 | A region once written stays written while a disjoint one is written. |
| Persistence.FileSystem.SyncSuperBlock | src/lib/fs.cc:101-105 | The super block's 20-byte disk part is in block 1, on disk too, and no other block changed its meaning. |
| Persistence.FileSystem.SyncImap | src/lib/fs.cc:107-111 | The inode bitmap's bytes are laid out from block 2 on, and only that run changed. |
| Persistence.FileSystem.SyncZmap | src/lib/fs.cc:113-117 | Likewise the zone bitmap, from the block that the field at byte 4 places it at. |
| Persistence.FileSystem.SyncInodes | src/lib/fs.cc:119-123 | Likewise the 32 bytes of each inode from 1 on, from the block that the fields at bytes 4 and 6 place them at. |
| Persistence.FileSystem.SyncAll | src/lib/fs.cc:125-130 | All four tables are laid out in bytes as the disk format has them, in what blocks mean and on the disk, and no block outside them changed its meaning. |
| Persistence.FileSystem.LoadSuperBlock | src/lib/fs.cc:207 | Only the super block in memory changes, to the start of block 1. |
| Persistence.FileSystem.LoadInodes | src/lib/fs.cc:211-213 | Inode k is the 32 bytes at its place in the layout, for every k that the super block counts; the other entries stay. |
| Persistence.FileSystem.LoadImap | src/lib/fs.cc:215-217 | The counted bytes of the inode bitmap are those at its place in the layout; the others stay. |
| Persistence.FileSystem.LoadZmap | src/lib/fs.cc:218-220 | Likewise the zone bitmap. |
| Persistence.FileSystem.InitFs | src/lib/fs.cc:205-221 | All four tables are what the disk holds at the places that block 1's own bytes give, whatever they were before. |
| Persistence.StoredIsLoadable | src/lib/fs.cc:205-221 | The super block found after a sync describes regions that are there and fit. |
| Persistence.SyncThenReboot | src/lib/fs.cc:125-221 | sync_all, then a machine with nothing but the disk, any cache size and any memory: init_fs recovers the tables. |
| CStrings.CStringIs | src/lib/string.cc:16-50 | A C string is what stands before the first NUL. |
| Names.Strcmp | src/lib/string.cc:16-25 | Zero exactly when the first string is a prefix of the second. |
| Names.Strfind | src/lib/string.cc:40-44 | The first position that holds the character or the final NUL. |
| Names.PrefixLookupExact | src/lib/fs.cc:179-183 | A lookup by prefix finds what a lookup by name finds exactly when no earlier entry shadows it. |
| Names.FirstPrefixFound | src/lib/fs.cc:167-172 | The lookup by prefix is the first name that is a prefix of the rest, and none exactly when no name is. |
| Names.FirstExactFound | src/lib/fs.cc:176-183 | The lookup by name is the first occurrence of the name, and none exactly when it does not occur. |
| Names.NoProperPrefixUnshadowed | src/lib/fs.cc:179-201 | Names without slashes, none a proper prefix of the component, shadow nothing. |
| Names.PrefixNameShadows | src/lib/string.cc:16-25 | An entry "te" before an entry "test" is found for "test". |
| Zones.ZoneBlockIndexesAllZones | src/lib/fs.cc:138-151 | For every zone below 7 + 512 + 512 * 512, the block is that of the flat zone list at that index. |
| Zones.ZonesInBytes | src/lib/fs.cc:138-151 | The flat zone list in bytes: the inode's own seven numbers, then the little-endian 16-bit numbers of the indirect block, then those of each block that the doubly indirect one names. |
| Zones.DirectoryBits | src/include/fs.h:31 | An inode is a directory exactly when its file type bits are 040000. |
| Zones.Tables2At | src/lib/fs.cc:146-150 | Entry i of the concatenated tables is entry i % 512 of table i / 512. |
| Zones.ReadZone | src/lib/fs.cc:138-151 | Returns the content of the zone's block; no block changes its meaning. |
| Directory.EntryIsFileContent | src/lib/fs.cc:162-172 | Entry i of a directory is found at byte 32 * i of its content, across zones. |
| Directory.EntryCount | src/lib/fs.cc:165 | A directory has one entry for every whole 32 bytes of its size. |
| Directory.EntrySpells | src/lib/fs.cc:167-171 | The name of entry i is what the content spells from byte 32 * i + 2 up to a NUL. |
| Directory.LookupInBytes | src/lib/fs.cc:158-183 | A lookup over the entries is a lookup over the bytes of the content: the number before the first name that is a prefix of the path, and none exactly when no entry within the size has one. |
| Directory.TryEntry | src/lib/fs.cc:167-171 | One round of the traversal looks at entry i, in the zone it lies in, and compares its name. |
| Directory.SearchEntries | src/lib/fs.cc:158-174 | Entries are visited in order up to the first match, whose inode number is returned. |
| Directory.FindEntry | src/lib/fs.cc:179-183 | The same, in bytes of the content, of find_entry: the 16-bit number of the first entry whose name is a prefix of the path, none exactly when no entry within the size matches, and none in a file whose type bits are not a directory's. |
| Directory.Namei | src/lib/fs.cc:188-201 | Ends as the walk of the path does, and as the path means when the way is clear; it terminates and changes no block's meaning. |
| Paths.JoinSplit | src/lib/fs.cc:193-199 | The components of a path have no slashes, and joined they are the path. |
| Paths.SplitJoin | src/lib/fs.cc:193-199 | They are the only such list. |
| Paths.Component | src/lib/fs.cc:193-199 | Advancing delim in memory is going on to the next component of the string. |
| Paths.WalkRound | src/lib/fs.cc:193-199 | Each round of namei's loop keeps the outcome of the walk. |
| Paths.ResolveIsChain | src/lib/fs.cc:188-201 | A path is found at an inode exactly when a chain of inodes leads there from the start, each the target of the first entry with the component's name. |
| Paths.WalkIsResolve | src/lib/fs.cc:188-201 | namei follows the entries that the path means, to the same end, if and only if no entry on the way shadows a component and all but the last are there. |
| Paths.NamesWithoutPrefixes | src/lib/fs.cc:188-201 | So it does when no directory on the way has a name that is a proper prefix of the component looked for there, and all components but the last resolve. |
| Paths.SlashAlone | src/lib/fs.cc:188-201 | The path "/" is missing unless an entry has no name: it never names the root. |
| Paths.ShadowedPath | src/lib/fs.cc:188-201 | With "te" before "test" in the root, "/test" leads to te's inode. |
| Paths.MissingDirectoryFaults | src/lib/fs.cc:188-201 | On a way without shadowing namei hits just the entries that the path means; it ends otherwise only when a directory on the way is missing, and then it faults. |
| Tiles.StoreThenWord | src/include/ILAllocator.hpp:74-80 | A stored 32-bit header reads back, byte by byte. |
| Tiles.TiledUnique | src/include/ILAllocator.hpp:84-88 | Memory determines the blocks that next_block visits. |
| Tiles.OvershotHeader | src/include/ILAllocator.hpp:84-88 | A header that points beyond the end leaves no way to read the heap as blocks. |
| HeapTiles.RoundedCovers | src/include/ILAllocator.hpp:34 | Rounding gives an even size, at most one more than any request but 2^32 - 1, which wraps to 0. |
| HeapTiles.FirstFitIs | src/include/ILAllocator.hpp:36-52 | A walk that has met no fitting block and stands at one, or at the end, has found the first fit, or that there is none. |
| HeapTiles.FirstFitLowest | src/include/ILAllocator.hpp:36-52 | First fit is the lowest block that is free and at least as large as the request; there is none exactly when no free block is. |
| HeapTiles.HeaderInBytes | src/include/ILAllocator.hpp:74-82 | A block's header in bytes: the low bit of the first is the allocated bit, the rest is the little-endian size. |
| HeapTiles.TakeOutcome | src/include/ILAllocator.hpp:39-48 | The words written make the intended blocks, unless slack is 2, or 0 before another block; then memory is no heap at all. |
| HeapTiles.OverrunDestroys | src/include/ILAllocator.hpp:40-44 | In those cases the wrapped size left over destroys the tiling. |
| HeapTiles.NoHeap | src/include/ILAllocator.hpp:40-44 | Memory that no row of blocks tiles is no heap, whatever blocks one names. |
| HeapTiles.TakenIsUsed | src/include/ILAllocator.hpp:39-48 | The block handed out is allocated, and has the rounded size or up to 4 bytes more; the blocks before it stay. |
| HeapTiles.FreedIsFree | src/include/ILAllocator.hpp:57-66 | The block freed is free and no smaller; the blocks before it stay. |
| HeapTiles.FitsLastTile | src/include/ILAllocator.hpp:40-44 | A perfect fit in the last block is as intended, but writes 2^32 - 4 just beyond the heap. |
| HeapTiles.FreeOutcome | src/include/ILAllocator.hpp:57-66 | free merges forward as intended, but for the last block if and only if the word beyond the heap is odd or 2^32 - 4. |
| HeapTiles.TakeKeepsOthers | src/include/ILAllocator.hpp:39-48 | alloc changes no byte of another block, and outside the heap none but, on a perfect fit, the next word. |
| HeapTiles.FreeKeepsOthers | src/include/ILAllocator.hpp:57-66 | free changes only the header of its block. |
| HeapTiles.PayloadWrite | src/include/ILAllocator.hpp:69-88 | A write inside a payload changes no header. |
| HeapTiles.SpanPrefix | src/include/ILAllocator.hpp:84-88 | Blocks are disjoint, in order, and inside the heap. |
| HeapTiles.FreedTaken | src/include/ILAllocator.hpp:39-66 | Freeing at once what was taken restores the blocks exactly when the block was split or had no free block behind it. |
| HeapTiles.StackDiscipline | src/include/ILAllocator.hpp:39-66 | Any sequence of allocations that each split, freed in reverse order, restores the block list. |
| HeapTiles.SessionIs | src/include/ILAllocator.hpp:32-66 | Such a session asks for the sizes in order, each getting its first fit, and then releases in reverse just what was got. |
| HeapTiles.ServedKeepsSpan | src/include/ILAllocator.hpp:32-66 | One request keeps the sum of size + 4. |
| HeapTiles.RunKeepsSpan | src/include/ILAllocator.hpp:32-66 | Any run of requests does. |
| Heap.ImplicitListAllocator.constructor | src/include/ILAllocator.hpp:12-27 | The heap starts as one free block. |
| Heap.ImplicitListAllocator.Record | src/include/ILAllocator.hpp:74-76 | Stores the header word and touches nothing else. |
| Heap.ImplicitListAllocator.Alloc | src/include/ILAllocator.hpp:32-52 | Null and no change exactly when no free block is large enough; else the payload of the first fit, an allocated block of at least the size asked for, with the heap intact exactly when the request is safe. |
| Heap.ImplicitListAllocator.Free | src/include/ILAllocator.hpp:57-66 | The block becomes free and merges with a free one behind it; the heap is intact exactly when FreeOutcome says so. |
| Heap.ImplicitListAllocator.Write | src/include/ILAllocator.hpp:4-8 | A client's write into its payload keeps the heap. |
| KernelHeap.FirstRequests | src/lib/kmalloc.cc:27-32 | The three requests of the test's round split the heap one after the other. |
| KernelHeap.FirstReleases | src/lib/kmalloc.cc:34-36 | Freed in order of allocation they leave two free blocks unmerged, and the next request of 50 meets slack 0. |
| KernelHeap.TakeThree | src/lib/kmalloc.cc:27-32 | The first round gets the addresses that the test asserts. |
| KernelHeap.TestKmalloc | src/lib/kmalloc.cc:21-39 | The first request of the second round gets the address that the test asserts, and destroys the heap. |
| PhysicalPages.PagesAt | src/lib/pmm.cc:50-57 | An entry contributes exactly the pages from its start on, below its end and up to the supported size. |
| PhysicalPages.AllPagesAre | src/lib/pmm.cc:47-58 | A page is pushed exactly when some entry of type 1 at 0x100000 has it: 4096 * k behind the kernel, below the entry's end and up to 0x20000000, with sums of 32 bits. |
| PhysicalPages.KernelKept | src/lib/pmm.cc:50 | No page below the kernel's end is pushed, unless the end wraps. |
| PhysicalPages.OneEntryFits | src/lib/pmm.cc:50-57 | One entry never overflows the stack. |
| PhysicalPages.PagesDistinct | src/lib/pmm.cc:47-59 | The pages pushed are distinct exactly when at most one entry contributes any. |
| PhysicalPages.ApplyConserves | src/lib/pmm.cc:62-81 | On a stack with a page, an operation loses and duplicates no page if and only if it does not free a page that was not handed out. |
| PhysicalPages.RunConserves | src/lib/pmm.cc:62-81 | Over any run that frees only pages handed out and asks none of an empty stack, free pages and pages handed out are always the initial ones. |
| PhysicalPages.RunKeepsDistinct | src/lib/pmm.cc:62-81 | From distinct pages, no such run makes a page free twice, or free and handed out. |
| PhysicalPages.PushKeepsDistinct | src/lib/pmm.cc:78-81 | Freeing a page keeps the stack distinct if and only if the page is not on it: nothing guards against a second free. |
| PhysicalPages.PagesInFrames | src/lib/pmm.cc:47-59 | The pages of a single region lie in different frames, wherever the kernel ends. |
| PhysicalPages.PageStack.FreePage | src/lib/pmm.cc:78-81 | Pushes the page, as a step of the runs above; halts exactly when the stack is full. |
| PhysicalPages.PageStack.AllocPage | src/lib/pmm.cc:62-65 | Pops the top page, as a step of the runs above; halts exactly when it is the only one left, and reads beyond the stack exactly when there is none. |
| PhysicalPages.PageStack.AllocPageAt | src/lib/pmm.cc:67-76 | Takes the given page out, as a step of the runs above, the top page moving to its place; 0 and no change exactly when it is not there; searches beyond the stack exactly when it is empty. |
| PhysicalPages.SwapRemoved | src/lib/pmm.cc:71 | Of the stack without the page taken, the last one has that page's place and all others keep theirs. |
| PhysicalPages.PageStack.PushPages | src/lib/pmm.cc:53-57 | Pushes the pages of one entry and counts them. |
| PhysicalPages.PageStack.InitPmm | src/lib/pmm.cc:38-60 | The stack holds exactly the pages that AllPagesAre describes, entry by entry in order, and phy_page_count is their number; it halts exactly when they are too many. |
| PageTables.ZeroMeans | src/include/vmm.h:35-46 | at returns 0 for a page that is not mapped, and for the first byte of frame 0 as well. |
| PageTables.PageOfAddress | src/include/vmm.h:75-77 | Dictionary and table index together are the 20-bit page number. |
| PageTables.FlagsKeepFrame | src/include/vmm.h:52-71 | Flag bits set in an entry take nothing from its frame. |
| PageTables.PdeDecodes | src/include/vmm.h:141-159 | A table's physical address with flags, turned back into a pointer, is that table, whatever the wrap at 4 GB. |
| PageTables.PdeIsPhysical | src/include/vmm.h:141-144 | An entry for a table is the table's address less 0xC0000000, in 32 bits, plus the present and write bits. |
| PageTables.PageDictionary.HardwareWalk | src/include/vmm.h:102-127 | The processor's own walk over the raw words, top ten bits, physical table address, next ten bits, gives for every address exactly the frame that the page is mapped to, present and writable, or an absent entry. |
| PageTables.PageTable.Insert | src/include/vmm.h:67-72 | Changes the entry of the page only. |
| PageTables.PageTable.Subscript | src/include/vmm.h:52-62 | A present entry is only read; an absent one gets the frame on top of the stack. |
| PageTables.Words.InUse | src/include/vmm.h:164-168 | An entry is present exactly when a table is its own, and leads to that table. |
| PageTables.Words.InstalledValid | src/include/vmm.h:141-168 | Putting the next reserve table at an absent entry changes no mapping and shares no table. |
| PageTables.Words.PutValid | src/include/vmm.h:67-72 | Writing one page's entry changes that page's mapping and no other's. |
| PageTables.TablesCounted | src/include/vmm.h:164-175 | Tables in use belong to distinct entries and are as many as the entries present. |
| PageTables.PageDictionary.constructor | src/include/vmm.h:173-175 | A zeroed dictionary maps nothing. |
| PageTables.PageDictionary.At | src/include/vmm.h:89-96 | Refines lookup in a map from page numbers to frame numbers. |
| PageTables.PageDictionary.Table | src/include/vmm.h:105-111 | An address with no table gets the next of the reserve; the entry holds that table's physical address and flags; halts exactly when there is none left. |
| PageTables.PageDictionary.Insert | src/include/vmm.h:117-127 | Maps vma's page to pma's frame in that map and changes no other page. |
| PageTables.PageDictionary.Subscript | src/include/vmm.h:102-112 | Returns the translation; a page not mapped gets the top frame of the stack, and nothing else changes; says exactly when it halts. |
| DemandPaging.RunReturns | src/lib/vmm.cc:22-25 | A run of faults returns if and only if there is a frame to spare beyond those for its new pages, and a table in the reserve for each of its new dictionary entries. |
| DemandPaging.FaultsOutcome | src/lib/vmm.cc:22-25 | After any run of faults that return: old translations unchanged, the j-th new page on the j-th frame from the top, one frame gone from the stack for each and no other. |
| DemandPaging.FaultsDoNotAlias | src/lib/vmm.cc:22-25 | Frames mapped by such faults are pairwise different and no longer free. |
| DemandPaging.FaultsInjective | src/lib/vmm.cc:22-25 | No frame is mapped twice exactly when none handed out was mapped before. |
| DemandPaging.WindowTranslates | src/lib/vmm.cc:35-43 | Through the kernel window, 0xC0000000 + a translates to a, for every a below 4 MB. |
| DemandPaging.WindowShared | src/lib/vmm.cc:7-43 | With the kernel window, no frame is mapped twice until a page of the first 4 MB is handed out. |
| DemandPaging.BootedPaging | src/lib/pmm.cc:38-60 | So it is on the stack that init_pmm builds from a single region. |
| DemandPaging.InitVmm | src/lib/vmm.cc:35-43 | Maps exactly the window, with one table. |
| DemandPaging.PageFaultHandler | src/lib/vmm.cc:7-26 | A fault at an absent page is a step of the paging model, and goes wrong exactly when that one does not return; a protection fault does nothing. |
| RoundRobin.StepDistance | src/include/scheduler.h:59-74 | A turn brings a waiting task one closer; a new task delays it by one at most; a killed one, be it the one that runs, not at all. |
| RoundRobin.SelfExit | src/lib/kthread.cc:19-21 | A task that kills itself leaves every other one exactly as many turns away as it was. |
| RoundRobin.BoundedWaiting | src/include/scheduler.h:37-82 | Over any run of turns, submits and kills that leave the scheduler in order, self-exits included, a task runs after no more turns than its distance plus the tasks submitted meanwhile. |
| RoundRobin.Counted | src/include/scheduler.h:37-74 | The numbers in that bound are those of the schedule events and of the submit events. |
| RoundRobin.RunsAtSomePoint | src/include/scheduler.h:70-74 | To run in a run of events is to be the running task after some first part of it. |
| RoundRobin.TurnsAt | src/include/scheduler.h:70-74 | After k turns the task runs that is k places on, also when the first turn is from a killed task. |
| RoundRobin.FullRound | src/include/scheduler.h:70-74 | In n turns each of n tasks runs exactly once, and then the first again. |
| Scheduler.TaskScheduler.constructor | src/include/scheduler.h:22-35 | The boot task alone, on itself. |
| Scheduler.TaskScheduler.Submit | src/include/scheduler.h:37-68 | Inserts a new task just before the head, as a step of the ring of turns; the loop ends; pids stay distinct until the counter wraps. |
| Scheduler.TaskScheduler.Schedule | src/include/scheduler.h:70-74 | The next task of the cycle runs, a step of the ring of turns, also after the running one was killed; nothing without a running task. |
| Scheduler.TaskScheduler.FindTask | src/include/scheduler.h:98-106 | Null exactly when no task but possibly the last has the pid (of a single task, when that has not), and else the first that has. |
| Scheduler.TaskScheduler.Exit | src/include/scheduler.h:108-127 | The others stay one cycle in their order, with distinct pids; when the scheduler survives this is a step of the ring of turns; a single task leaves an open list and nothing running. |
| Scheduler.TaskScheduler.Kill | src/include/scheduler.h:80-82 | A task is found exactly when one but the last, or the only one, has the pid; exactly the first of them leaves, and pids stay distinct; the scheduler survives, by a step of the ring of turns, if and only if it is not the head and is not what a killed running task would go on with. |
| Scheduler.TaskScheduler.InTurn | src/include/scheduler.h:70-74 | In every state in order, a killed running task included, what runs next and after that are successors on the ring. |
| Scheduler.HeadLost | src/include/scheduler.h:60-64 | Once the head is killed, submit's walk never comes back to it. |
| Console.TextFills | src/lib/console.cc:75-83 | Printable text fills the terminal row by row from the cursor on. |
| Console.TextKeeps | src/lib/console.cc:75-83 | It changes nothing before the cursor. |
| Console.CellInBits | src/lib/console.cc:22-28 | A cell is the character, then four bits of foreground and four of background; blanks are white on black. |
| Console.TextAfterLineFeed | src/lib/console.cc:70-73 | Text behind a line feed fills from column 0 of the next row. |
| Console.TextAfterReturn | src/lib/console.cc:67-69 | Text behind a carriage return overwrites from column 0 of the row. |
| Console.TextAfterTab | src/lib/console.cc:64-66 | Text behind a tab starts at the next multiple of eight, behind the last one in the next row. |
| Console.TextAfterBackspace | src/lib/console.cc:60-63 | Text behind a backspace overwrites the column before the cursor, in column 0 the cursor's own. |
| Console.ControlsWriteNothing | src/lib/console.cc:59-79 | Other characters than printable ones change no cell, and all but these four do nothing. |
| Console.Console.Screen | src/lib/console.cc:43-54 | Cell for cell, the screen is rows 0 to 24 of the terminal, or its last 25 rows with the cursor in the last. |
| Console.ScrollShows | src/lib/console.cc:43-53 | Moving the rows up by one shows the terminal one row further down. |
| Console.Console.Clear | src/lib/console.cc:30-41 | The screen shows an empty terminal. |
| Console.Console.MoveUp | src/lib/console.cc:46-51 | Every row takes the content of the next, the last is blank. |
| Console.Console.PutChar | src/lib/console.cc:56-86 | After every character the screen is the last 25 rows of the terminal, and the cursor is on it. |
| Console.Console.Write | src/lib/console.cc:88-92 | So for every string, up to its NUL. |

## Left out

- LruCache.LRUCache.Set: assumes a callback that does not call back into the cache; the callback that does is SetWithUncache.
- LruCache.LRUCache.Set: for a key that is not resident, as get_block and read_block see to by calling Get first; Set with a value has no caller.
- `LRUCache::clear` and the destructor: nothing calls them while the kernel runs, and `clear` does not reset the count.
- BlockLayer.Blocks.ReadBlock: the block exists on the disk; sector numbers 2 * bno are taken not to wrap, and the IDE port protocol is a map from block numbers to 1024 bytes.
- BlockLayer.Blocks.GetBlock: the stale content of a fresh buffer is arbitrary; the count and lock bytes of a buffer are not modelled.
- BlockRuns.ReadBlocks: for record sizes that divide a block, and equal to the stride on disk, as all callers have.
- BlockRuns.WriteBlocks: likewise; get_block is modelled as never returning null, as in the source.
- Persistence.FileSystem.SyncAll: for counts that fit the tables and regions, as the super block declares them; other counts run over the tables in memory.
- Persistence.SyncThenReboot: the bitmaps are plain byte arrays; the operations of bitmap.hpp, which divides by the wrong width, are not part of this model.
- Directory.Namei: every directory's zones exist and each entry name ends before its block does; a null inode, or one beyond the table, is a fault, not a read of whatever lies there.
- `list_entries`: display only, and it relies on buffers that outlive their eviction.
- Heap.ImplicitListAllocator.Free: of the address of a block, as alloc returned it; other pointers are not modelled, nor is memory that faults.
- Heap.ImplicitListAllocator.constructor: for bounds an even distance, at least 4, apart.
- PhysicalPages.PageStack.AllocPage: of an empty stack it says that memory beyond the array is read, and not what comes of that.
- PhysicalPages.PageStack.AllocPageAt: likewise.
- PhysicalPages.RunConserves: for runs that free only pages handed out and ask none of an empty stack; ApplyConserves and PushKeepsDistinct say what other calls do.
- DemandPaging.FaultsOutcome: for runs of faults that return; the first one that does not stops the kernel, or reads beyond an empty stack.
- PageTables.PageDictionary.constructor: the dictionary lies page-aligned and does not wrap around the address space.
- DemandPaging.PageFaultHandler: the fault address and error code are parameters; cr2, cr3 and the TLB are not modelled.
- Scheduler.TaskScheduler.Submit: kmalloc gives a block; the initial stack frame and `kstack` are not modelled.
- Scheduler.TaskScheduler.Schedule: switch_to is setting the running task; the context it saves and restores is not modelled.
- Scheduler.TaskScheduler.Kill: the killed task's memory keeps its content until the next turn, so no submit in between gets that memory; exit of a null pointer, after a pid that is not found, is reported and not modelled.
- Concurrency: every operation runs without being interrupted.
- Console.Console.PutChar: the hardware cursor is not modelled.
- Hardware, boot code, keyboard, printk formats, ELF symbols, the atexit table, pairs and atomics: thin, or not algorithms.
