# FG-OS memory management and mount table: a verified model

This project models the memory-management stack of the FG-OS kernel and the mount table of its
virtual file system, and proves what they keep over every history of calls.

- **Memory** is an array of bytes indexed by address; address 0 is NULL. Words are naturals below
  2^64, and the C operators `&`, `|`, `~`, `<<` and `>>` are defined bit by bit (`Bits.dfy`), so the
  kernel's masks are proved to be divisions and remainders rather than assumed to be. Additions that
  can wrap are written with `Wrap` or `% 0x1_0000_0000`.
- **Byte utilities** (`Memory.dfy`): the overlap-safe copy and the word-wide fill.
- **Page allocator** (`PageRuns.dfy`, `Pmm.dfy`): the bitmap is stored at 0x100000 of the same memory
  whose pages it describes, and allocated pages are cleared in that memory, so the proofs deal with
  the allocator overwriting its own bookkeeping.
- **Page tables** (`PageTables.dfy`, `KernelMap.dfy`, `Vmm.dfy`): four levels of little-endian 64-bit
  entries in frames drawn from the page allocator, in that same memory (section 4.5 of the Intel 64
  and IA-32 Architectures Software Developer's Manual, volume 3A). The tree is proved to refine a flat
  map from 36-bit page numbers to entries.
- **Kernel heap** (`HeapBlocks.dfy`, `HeapRuns.dfy`, `HeapMemory.dfy`, `HeapUpdates.dfy`, `Heap.dfy`):
  40-byte headers (fields at offsets 0, 8, 16, 24 and 32) in the heap's own bytes, next to the user's
  bytes. A list of blocks is the specification; every operation is proved to implement it on bytes.
- **Mount table** (`Mounts.dfy`, `MountTable.dfy`): a linked list of nodes and an array of 64 slots.

Runs of the heap and histories of the page allocator are sequences of calls with the source's own
arguments, and each is carried out on bytes by a `Serve` method that is proved to follow the model; heap
runs include the callers' writes into the blocks they hold.

Code that changes state is a class with methods over arrays and fields; each method is tied to a
function or a pointwise description of the old state, and the laws over whole histories are lemmas
about those functions. `hide` statements keep definitions out of proofs that do not need them. Lemmas
whose names end in `Means` or `Mean` spell a definition out in plain terms, with the source's constants as
literals; they have a row below where that takes an argument.

## Where the code does less than it appears to promise

Each is stated as an exact condition, or as a concrete input together with one.

- `kmalloc` covers the request exactly for sizes up to 2^64 - 48. Above that the rounded total wraps;
  between 2^64 - 47 and 2^64 - 16 it is smaller than a header, and then the block list survives exactly
  if the block found is not split (`TotalCovers`, `WrappedSplit`).
- `kcalloc` multiplies in 64 bits; a block it returns holds all elements exactly when their total size
  is at most 2^64 - 48 (`CallocHolds`), and its fill stays inside the block exactly when the 64-bit
  product is (`RoomForRequest`).
- `krealloc` copies the old payload without looking at the new block's size. The copy stays inside the new
  block exactly when that block has room for it, which is known before the call (`RoomMeans`); it always
  has for sizes up to 2^64 - 48. Reallocating a 64-byte block to 2^64 - 1 finds none (`RoomFails`).
- Rounding requests to 16 does not make payloads 16-aligned, because the header takes 40 bytes and every
  total is an odd multiple of 8. Over every run payloads are 8-aligned (`RunAligned`); a new payload is
  16-aligned exactly when the block it is taken from stands at an odd multiple of 8 (`PayloadAligned`);
  in a fresh heap at a 16-aligned address the first allocation and every second one after it are not
  (`FreshHeapMisaligns`).
- `krealloc` does not look at the allocated field. Given a pointer that was already freed it returns that
  pointer as if it were live when the new size fits the stale header, and otherwise allocates and copies.
  That is the only case in which the pointer it returns is not live (`ReallocatedLive`); freeing a block
  and reallocating it to no more than it held is such a case (`FreeThenRealloc`).
- `memory_align_up` is a ceiling exactly when the addition does not wrap (`AlignUpIsCeiling`).
- `vmm_protect` touches the promised page numbers exactly when rounding up the end does not wrap
  (`RangeIsPromised`).
- `vmm_protect` reads address 0 as "not mapped", so it skips pages that lead to frame 0; with flags that lack
  the present bit it makes every other page of the range untranslatable (`ReflagFlags`, `ProtectHides`).
- Flag bits above bit 11 passed to `vmm_map_page` are or-ed into the frame number; the translation is
  right exactly when they change nothing there (`EntryTranslates`, `StrayFlagMovesPage`).
- `vmm_init` leaves the kernel heap's address range unmapped, because the heap starts where the mapped
  256 MiB end (`HeapStartUnmapped`).
- `pmm_init` counts pages by summing sizes, so a memory map with holes loses pages; the boot map loses
  4096 of them (`CoverageIsExact`, `BootMapFacts`).
- `pmm_alloc_page` clears the page it hands out. That removes just this page from the free set exactly
  when it clears no bit of a page that is in use; with a bitmap of one page, exactly when the page is not
  the bitmap's own (`ClaimIsExact`, `ClaimedCount`). The boot map makes the bitmap's page the lowest free
  one, so the first allocation after boot marks every page free, and the next one returns 0
  (`BootClaimsBitmap`). `vmm_init` after `pmm_init` on the boot map therefore fails (`Boot`).

## Model

| member | source | states |
|---|---|---|
| Bits.AlignDownIsFloor | kernel/mm/memory_utils.c:180-183 | for a power-of-two alignment the mask gives the largest multiple at or below the address |
| Bits.AlignUpIsCeiling | kernel/mm/memory_utils.c:169-172 | the result is the smallest multiple at or above the address if and only if the addition does not wrap; otherwise it is 0 |
| Bits.ZeroAlignment | kernel/mm/memory_utils.c:169-183 | alignment 0 leaves the address as it is, in both directions |
| Memory.MemoryCopy | kernel/mm/memory_utils.c:21-40 | for every overlap the destination ends up with the original source bytes and no other byte changes; NULL arguments change nothing |
| Memory.ReplicatedValue | kernel/mm/memory_utils.c:57-60 | the three shift-and-or steps put the byte in all eight places of the word |
| Memory.ReplicatedBytes | kernel/mm/memory_utils.c:57-67 | storing that word writes the byte eight times |
| Memory.SetWords | kernel/mm/memory_utils.c:55-67 | the word loop fills exactly its range with the byte |
| Memory.MemorySet | kernel/mm/memory_utils.c:48-78 | for every size, alignment and value the effect is a plain byte fill; NULL changes nothing |
| Memory.LittleEndian | kernel/include/types.h:67-69 | words in memory are the sums of their bytes, low byte first |
| PageRuns.FirstRunIsLowest | kernel/mm/pmm.c:223-253 | the search finds the lowest run of free pages of the given length and fails exactly when there is none |
| PageRuns.FirstRunPages | kernel/mm/pmm.c:223-253 | every page of the run found is free, and every run that starts lower has a page that is not |
| PageRuns.ReleasedPages | kernel/mm/pmm.c:191-272 | which pages a release reaches: the named page, or the pages of the run, in range and not page 0; nothing for 0 or an unaligned address |
| PageRuns.PartitionMeans | kernel/mm/pmm.c:162-272 | the invariant of histories says that every page of the pool is free or held, never both, and none is held twice |
| PageRuns.StepKeepsPartition | kernel/mm/pmm.c:162-272 | any call keeps the partition of the pool into free and held pages if and only if it releases no page that is neither held nor free |
| PageRuns.HistoryKeepsPartition | kernel/mm/pmm.c:162-272 | over every history in which callers release only pages they hold, whole runs or parts, free and held pages partition the pool, no page is held twice, and once nothing is held the free set is the pool |
| PageRuns.DisciplinedEach | kernel/mm/pmm.c:162-272 | a history is disciplined exactly when each release, at its turn, names only pages that are held or free |
| PageRuns.NotHandedOutTwice | kernel/mm/pmm.c:162-254 | after every such history an allocation returns no page that is still held |
| PageRuns.GiveTwice | kernel/mm/pmm.c:191-272 | releasing the same pages again changes nothing |
| PageRuns.GivesCommute | kernel/mm/pmm.c:191-272 | releases may come in any order |
| PageRuns.TakeThenGive | kernel/mm/pmm.c:213-272 | releasing an allocation at once restores the state |
| Pmm.TestPage | kernel/mm/pmm.c:149-156 | the byte-and-mask test says whether the page is in the free set |
| Pmm.SetUsedFreeSet | kernel/mm/pmm.c:113-118 | or-ing the bit removes exactly that page from the free set |
| Pmm.SetFreeFreeSet | kernel/mm/pmm.c:132-137 | masking the bit out adds exactly that page to the free set |
| Pmm.AllOnesFreeSet | kernel/mm/pmm.c:80-81 | filling the bitmap with 0xFF leaves no page free |
| Pmm.ClearedFreeSet | kernel/mm/pmm.c:176-177 | clearing memory adds to the free set exactly the pages whose bits lie in the cleared bytes |
| Pmm.StatsTake | kernel/mm/pmm.c:119-121 | marking a page used keeps both byte counts equal to page counts times 4096, without wrapping |
| Pmm.StatsGive | kernel/mm/pmm.c:138-140 | marking a page free keeps them likewise |
| Pmm.RunInMemory | kernel/mm/pmm.c:242-245 | clearing a run of pool pages stays in memory and touches no bitmap byte |
| Pmm.TooFewPages | kernel/mm/pmm.c:217-221 | with fewer free pages than requested there is no run, so the early return is right |
| Pmm.SumAvailable | kernel/mm/pmm.c:56-62 | the loop is the 64-bit sum of the available sizes; `PagesCounted` says how many pages that is |
| Pmm.UnavailableIgnored | kernel/mm/pmm.c:56-62 | a region that is not available adds nothing, wherever it stands in the map |
| Pmm.PagesCounted | kernel/mm/pmm.c:56-64 | over regions of whole pages that share none, the sum is 4096 times the number of pages they list, modulo 2^64 |
| Pmm.CoverageIsExact | kernel/mm/pmm.c:56-93 | all listed pages are managed if and only if each available region ends at or below the page count |
| Pmm.BootMapFacts | kernel/src/main.c:138-151 | the boot map yields 12288 pages, loses its last 4096, and makes the page that holds the bitmap the first one handed out |
| Pmm.BitmapDetermined | kernel/mm/pmm.c:110-142 | the free set and the unused bits of the last byte determine every byte of the bitmap |
| Pmm.ClaimIsExact | kernel/mm/pmm.c:170-179 | marking and clearing a page removes exactly that page if and only if every page whose bit it clears was free and is another one; with a one-page bitmap, if and only if it is not the bitmap's page |
| Pmm.UsedRunFreeSet | kernel/mm/pmm.c:236-239 | marking a run used removes exactly its pages and writes only the bitmap |
| Pmm.ClaimedCount | kernel/mm/pmm.c:116-119 | the free-page counter is right after claiming a run if and only if the cleared bytes hold no bit of a page outside the rest of the free set |
| Pmm.BootClaimsBitmap | kernel/mm/pmm.c:162-185 | the first allocation after boot returns 0x100000 and marks every page free, itself included; the next search stops at page 0 |
| Pmm.PageAllocator.IsPageFree | kernel/mm/pmm.c:149-156 | true exactly for pages in the free set; pages out of range are not free |
| Pmm.PageAllocator.MarkPageUsed | kernel/mm/pmm.c:110-123 | removes exactly the page, keeps the counter equal to the number of clear bits and writes only the bitmap |
| Pmm.PageAllocator.MarkPageFree | kernel/mm/pmm.c:129-142 | adds exactly the page if in range, keeps the counter and writes only the bitmap |
| Pmm.PageAllocator.StartBitmap | kernel/mm/pmm.c:64-81 | page count, bitmap size and an empty free set |
| Pmm.PageAllocator.FreeRegion | kernel/mm/pmm.c:85-92 | frees exactly the in-range pages of an available region, even if some were visited before |
| Pmm.PageAllocator.FreeRegions | kernel/mm/pmm.c:83-93 | frees exactly the in-range pages that some kept region lists |
| Pmm.PageAllocator.Init | kernel/mm/pmm.c:39-104 | -1 and no change for an empty map; otherwise at most 32 regions are kept, the free set is exactly the pages that available ones list below the page count, whatever the order or overlap of regions, with one bitmap bit a page and all counters right; the pool is valid if and only if it avoids page 0 and the bitmap and exists in memory |
| Pmm.PageAllocator.Claim | kernel/mm/pmm.c:235-248 | the new memory on any state; the counters stay right if and only if the cleared bytes hold no bit of a page in use; on a valid pool exactly the run is removed and cleared |
| Pmm.PageAllocator.AllocPage | kernel/mm/pmm.c:162-185 | the lowest free page, cleared, on any state, sound or not, with the exact condition for staying sound; on a valid pool 0 exactly when none is free, and a step of the history; the final error path is not reached while the counter is right |
| Pmm.PageAllocator.RunIsFree | kernel/mm/pmm.c:225-233 | the inner loop says whether all pages of the run are free |
| Pmm.PageAllocator.AllocPages | kernel/mm/pmm.c:213-254 | the lowest run of free pages, cleared, on any sound state, with the exact condition for staying sound; on a valid pool exactly the run is removed, 0 exactly when the count is 0 or there is no run, and a step of the history |
| Pmm.PageAllocator.FreePage | kernel/mm/pmm.c:191-206 | adds exactly the page; page 0, unaligned, out-of-range or already free pages change nothing; a step of the history, and the pool stays valid if and only if the page was held or free |
| Pmm.PageAllocator.FreePages | kernel/mm/pmm.c:261-272 | adds exactly the in-range pages of the run, with addresses wrapping at 2^64; invalid arguments change nothing; a step of the history, and the pool stays valid if and only if the pages were held or free |
| Pmm.PageAllocator.TakeAndGive | kernel/mm/pmm.c:213-272 | allocating a run and freeing it restores every bitmap byte, the free set and all counters but the allocation count, and leaves memory outside the run unchanged |
| Pmm.PageAllocator.Serve | kernel/mm/pmm.c:162-272 | every disciplined sequence of calls on the allocator is the history of the set model |
| PageTables.PresentIsOdd | kernel/mm/vmm.c:85 | the present test is the low bit |
| PageTables.FrameOfValue | kernel/mm/vmm.c:97 | masking with ~0xFFF rounds down to a page |
| PageTables.LinkValue | kernel/mm/vmm.c:92-97 | a link is frame plus 3; it reads as present and leads back to the frame |
| PageTables.TranslateValue | kernel/mm/vmm.c:185-188 | a present entry gives frame plus offset, any other gives 0 |
| PageTables.MakeEntryParts | kernel/mm/vmm.c:124 | low 12 bits are the flags' low bits, the rest is the frame number or-ed with the flags' high bits |
| PageTables.EntryTranslates | kernel/mm/vmm.c:122-124 | a present entry translates to the mapped frame if and only if the high flag bits are already in the frame number |
| PageTables.StrayFlagMovesPage | kernel/mm/vmm.c:122-124 | flag bit 12 moves a page mapped to frame 0 to frame 1 |
| PageTables.IndicesOfAddress | kernel/mm/vmm.c:77-81 | the four shifted and masked indices are the base-512 digits of the 36-bit page number |
| PageTables.SameSlot | kernel/mm/vmm.c:77-81 | two page numbers use the same leaf slot only if they are equal |
| PageTables.LeafWritten | kernel/mm/vmm.c:122-124 | writing a leaf slot keeps the tree and changes the flat map at one page number only |
| PageTables.LinkKeepsTree | kernel/mm/vmm.c:83-94 | linking in a cleared frame keeps tables in distinct frames with exact links |
| PageTables.LinkKeepsFlat | kernel/mm/vmm.c:83-94 | linking in an empty table changes no entry of the flat map |
| PageTables.ReferencedOnce | kernel/mm/vmm.c:83-120 | each table but the root is referenced by exactly one present upper-level entry, its parent's |
| PageTables.RootNotReferenced | kernel/mm/vmm.c:83-120 | no entry references the root |
| PageTables.Descend | kernel/mm/vmm.c:145-151 | following an upper-level slot: present exactly if the child table exists, and the frame bits lead to it |
| PageTables.TablesAreLinks | kernel/mm/vmm.c:83-120 | table frames number one plus the present entries of the upper three levels |
| KernelMap.LowStep | kernel/mm/vmm.c:44-52 | the tables an identity-mapped page still needs, and the tables present afterwards |
| KernelMap.HighStep | kernel/mm/vmm.c:54-63 | the same for a page of the higher half |
| KernelMap.Counts | kernel/mm/vmm.c:28-67 | the two mappings and the root need 2184 frames, and no partial map needs more |
| KernelMap.FinishedMap | kernel/mm/vmm.c:44-63 | the first 4 GiB translate to themselves, 256 MiB from KERNEL_BASE to physical 0 on, every other address to 0 |
| KernelMap.WritableEntry | kernel/mm/vmm.c:47-58 | an entry made present and writable is the frame address plus 3 |
| KernelMap.FinishedEntries | kernel/mm/vmm.c:44-63 | every entry of the finished map: page address plus 3 on both ranges, 0 elsewhere |
| KernelMap.HeapStartUnmapped | kernel/mm/vmm.c:54-63 | 256 MiB from KERNEL_HEAP_START on stay unmapped |
| Vmm.NewTableLinked | kernel/mm/vmm.c:85-94 | allocate, store the link, clear: an empty table is linked in and no other slot of any table changes |
| Vmm.TreeSurvives | kernel/mm/vmm.c:83-189 | memory that agrees on every table frame holds the same tree and the same flat map |
| Vmm.TakenSparesTables | kernel/mm/pmm.c:235-248 | pages handed out to others hold no table frame |
| Vmm.RangeIsPromised | kernel/mm/vmm.c:199-205 | the page numbers the loop touches are the promised ones if and only if rounding the end up does not wrap |
| Vmm.RangeMeans | kernel/mm/vmm.c:199-205 | without wrap-around the loop visits exactly the pages that share a byte with the range |
| Vmm.ReflagTwice | kernel/mm/vmm.c:205-216 | visiting a page twice is the same as once |
| Vmm.ReflagFlags | kernel/mm/vmm.c:205-216 | for every flags value: an entry that leads to a nonzero frame gets the flags, their bits above 11 or-ed into the frame number, and no longer translates if they lack the present bit; every other entry stays |
| Vmm.ReflagTranslates | kernel/mm/vmm.c:205-216 | with the present flag and no stray bits every translation is preserved and mapped pages get the new flags |
| Vmm.EmptyTree | kernel/mm/vmm.c:38-42 | a cleared frame is a tree with no mappings |
| Vmm.MapSeen | kernel/mm/vmm.c:122-189 | writing an entry makes every address on the page translate to the frame plus its offset, given the present flag and no stray bits, and changes no address on another page |
| Vmm.UnmapSeen | kernel/mm/vmm.c:136-189 | clearing an entry makes every address on the page translate to 0 and changes no other |
| Vmm.ProtectSeen | kernel/mm/vmm.c:167-219 | changing flags over a range keeps the translation of every address, given the present flag and no stray bits |
| Vmm.ProtectHides | kernel/mm/vmm.c:167-219 | flags without the present bit make every address of the touched pages translate to 0, unless the page led to frame 0; other pages keep their translation |
| Vmm.AddressSpace.GetPhysical | kernel/mm/vmm.c:167-189 | the walk is the translation of the flat map's entry |
| Vmm.AddressSpace.CreateTable | kernel/mm/vmm.c:85-94 | allocate, link, clear: one empty table more in a frame that was free, no entry changed; 0 and no change exactly when no page is free |
| Vmm.AddressSpace.NextTable | kernel/mm/vmm.c:83-97 | returns the child table, created first if missing; 0 exactly when it is missing and no page is free; the flat map is unchanged |
| Vmm.AddressSpace.EnsureTables | kernel/mm/vmm.c:83-123 | the three upper levels: fails exactly when fewer pages are free than tables are missing; new tables take frames that were free |
| Vmm.AddressSpace.StoreLeaf | kernel/mm/vmm.c:122-124 | the flat map changes at one page number; allocator state is untouched |
| Vmm.AddressSpace.MapPage | kernel/mm/vmm.c:76-130 | success exactly when each missing table has a free page; then only this page's entry changes and its addresses translate to the frame plus offset, on failure no translation changes; tables plus free pages are conserved; only table frames and bitmap are written |
| Vmm.AddressSpace.UnmapPage | kernel/mm/vmm.c:136-160 | this page's entry becomes 0, its addresses translate to 0, and no other entry or translation changes |
| Vmm.AddressSpace.ReprotectPage | kernel/mm/vmm.c:206-215 | unmap and map again: new flags if mapped to a nonzero frame, no frame taken, error branch unreachable |
| Vmm.AddressSpace.Protect | kernel/mm/vmm.c:198-219 | every touched page mapped to a nonzero frame gets the new flags, no other entry or translation changes, every translation is kept if the page stays present and becomes 0 if it does not, tables and allocator stay as they are, and it never fails |
| Vmm.AddressSpace.OthersTake | kernel/mm/pmm.c:213-254 | an allocation by anyone else keeps the tree and every entry |
| Vmm.AddressSpace.OthersGive | kernel/mm/pmm.c:261-272 | a release by anyone else keeps every entry, and the address space stays valid if and only if no released page holds a table |
| Vmm.AddressSpace.NewRoot | kernel/mm/vmm.c:31-42 | a cleared root with no mappings, or failure exactly when no page is free |
| Vmm.AddressSpace.MapLow | kernel/mm/vmm.c:46-52 | one identity-mapped page, whose entry is its address plus 3, and exactly the frames it needs; on failure the address space is still valid and no page is free |
| Vmm.AddressSpace.MapHigh | kernel/mm/vmm.c:56-63 | one higher-half page, whose entry is its physical address plus 3, and exactly the frames it needs; on failure likewise |
| Vmm.AddressSpace.Init | kernel/mm/vmm.c:28-67 | success exactly with 2184 free pages, all of them and no more used, and the finished map installed, every entry of it present and writable; a failed call has used up every free page and leaves the allocator valid |
| Vmm.AddressSpace.InitAtBoot | kernel/mm/vmm.c:28-91 | on the pool of the boot map the root lands on the bitmap and the first vmm_map_page is refused a table, so the call fails although pages are counted free |
| Vmm.AddressSpace.Boot | kernel/src/main.c:138-160 | pmm_init on the boot map and then vmm_init: the latter returns -1 |
| HeapBlocks.TotalCovers | kernel/mm/heap.c:91-95 | the rounded total covers request and header if and only if the request is at most 2^64 - 48; where it falls below a header; it is always an odd multiple of 8 |
| HeapBlocks.TotalValue | kernel/mm/heap.c:91-95 | without wrap-around the total is the request rounded up to 16 plus 40 |
| HeapBlocks.WrappedSplit | kernel/mm/heap.c:104-107 | in that window the list stays a tiling if and only if the chosen block is too small to split |
| HeapBlocks.FirstFit | kernel/mm/heap.c:223-234 | the first free block that is large enough, or none |
| HeapBlocks.AllocateKeeps | kernel/mm/heap.c:97-115 | taking bytes from a free block keeps tiling and coalescing, moves exactly the block's bytes between the counters, and adds one live block of bounded size |
| HeapBlocks.AbsorbNextKeeps | kernel/mm/heap.c:267-275 | the first merge loop does at most one round and moves only free space |
| HeapBlocks.AbsorbPrevKeeps | kernel/mm/heap.c:277-286 | the second likewise |
| HeapBlocks.ReleaseKeeps | kernel/mm/heap.c:204-213 | freeing keeps tiling and coalescing and removes exactly that live block |
| HeapBlocks.LayoutUnique | kernel/mm/heap.c:241-287 | a coalesced tiling is determined by its live blocks |
| HeapRuns.MallocInv | kernel/mm/heap.c:88-122 | the invariant is kept; NULL means no change; otherwise exactly one new live block, at most 64 bytes larger than the total |
| HeapRuns.FreeInv | kernel/mm/heap.c:188-216 | the invariant is kept, and exactly the named live block goes |
| HeapRuns.ServableExact | kernel/mm/heap.c:97-107 | the requests the model admits are exactly those that leave the block list a tiling |
| HeapRuns.RoomForRequest | kernel/mm/heap.c:130-139 | the block found for a request has room for it if and only if the request is at most 2^64 - 48, or no block is found |
| HeapRuns.StepInv | kernel/mm/heap.c:88-216 | each legal operation keeps the invariant and the heap's range |
| HeapRuns.LegalAlways | kernel/mm/heap.c:88-216 | in every state callers may ask for sizes up to 2^64 - 48, resize, free and write what is live, pass NULL, and free again what they just freed |
| HeapRuns.RequestsLegal | kernel/mm/heap.c:88-139 | every series of such requests is a legal run |
| HeapRuns.FreeTwice | kernel/mm/heap.c:147-202 | freeing a live pointer twice is legal and the second free changes nothing; reallocating it to 0 is the same as freeing it |
| HeapRuns.RefusedChangesNothing | kernel/mm/heap.c:88-182 | an operation that allocates nothing, or resizes in place, leaves the heap and what may be freed again as they were |
| HeapRuns.InvMeans | kernel/mm/heap.c:53-287 | the invariant as neighbours see it: each block starts where the one before ends, from start to end, holds a header, and is not free next to a free one; byte counters add up to the heap, allocations minus frees is the number of live blocks modulo 2^32 |
| HeapRuns.RunInv | kernel/mm/heap.c:53-287 | over every legal run blocks tile the heap, free neighbours are merged, used and free are the real sums and add up to the size, allocations minus frees is the number of live blocks modulo 2^32 |
| HeapRuns.RunKeepsLive | kernel/mm/heap.c:88-216 | over every legal run a live block keeps its place and size until it is freed or reallocated |
| HeapRuns.BlocksDisjoint | kernel/mm/heap.c:16-22 | distinct blocks, headers and payloads, share no byte |
| HeapRuns.SameLiveSameHeap | kernel/mm/heap.c:188-287 | heaps with the same live blocks have the same layout and byte counters, whatever happened before |
| HeapRuns.MallocThenFree | kernel/mm/heap.c:88-216 | freeing a fresh allocation restores block list and byte counters exactly |
| HeapRuns.FreeLive | kernel/mm/heap.c:188-216 | the live blocks after a free are those with another payload address |
| HeapRuns.FreesCommute | kernel/mm/heap.c:188-287 | the order of two frees does not matter |
| HeapRuns.NothingLive | kernel/mm/heap.c:188-287 | when nothing is live the heap is one free block again |
| HeapRuns.RunAligned | kernel/mm/heap.c:91-118 | over every legal run payloads are 8-aligned |
| HeapRuns.FreshRunAligned | kernel/mm/heap.c:53-122 | from a fresh heap at an 8-aligned address every run keeps every payload 8-aligned |
| HeapRuns.PayloadAligned | kernel/mm/heap.c:91-118 | a new payload is 16-aligned if and only if the first block that fits stands at an odd multiple of 8 before the call |
| HeapRuns.PointersAlternate | kernel/mm/heap.c:91-118 | successful allocations with nothing freed alternate between the two residues of 8 modulo 16 |
| HeapRuns.FreshHeapMisaligns | kernel/mm/heap.c:53-122 | in a fresh heap at a 16-aligned address the first allocation, and every second one after it, is not 16-aligned |
| HeapRuns.FailsIffNoSpan | kernel/mm/heap.c:97-102 | kmalloc returns NULL if and only if no contiguous span of free bytes holds the rounded request and header |
| HeapRuns.NullReallocFails | kernel/mm/heap.c:147-148 | krealloc of NULL fails if and only if no span of free bytes holds the rounded request and header, and does what kmalloc does |
| HeapMemory.Relink | kernel/mm/heap.c:241-287 | replacing a stretch of blocks and redirecting the next header's back link represents the changed list |
| HeapMemory.PatchedPayloads | kernel/mm/heap.c:241-287 | such a change leaves the payload bytes of every other block alone, live or free |
| HeapUpdates.SplitRep | kernel/mm/heap.c:246-259 | the headers written by a split represent the two halves |
| HeapUpdates.JoinRep | kernel/mm/heap.c:269-274 | the headers written by one merge represent the merged list |
| HeapUpdates.JoinStale | kernel/mm/heap.c:269-274 | a merge keeps every header left in free space unallocated, with its magic number, describing bytes of the same free block and no fewer than before |
| HeapUpdates.MarkStale | kernel/mm/heap.c:204-205 | freeing a block makes its own header one of those |
| HeapUpdates.InitialSizeValue | kernel/mm/heap.c:56-61 | the initial size becomes one page below one page, the least multiple of 4096 not below it up to 2^64 - 4096, and 0 above |
| HeapUpdates.NewBlockSize | kernel/mm/heap.c:91-107 | the block returned has the request rounded up to 16 plus 40 bytes, or all of a free block that is at most 64 bytes larger |
| HeapUpdates.PayloadWrite | kernel/mm/heap.c:134-136 | writing inside a block's payload disturbs neither headers nor other payloads |
| HeapUpdates.StaleSurvives | kernel/mm/heap.c:154-179 | a stale header stays stale while its free block stays in the list with its payload unchanged |
| HeapUpdates.CallocHolds | kernel/mm/heap.c:130-138 | the block kcalloc returns holds count times size bytes if and only if that product is at most 2^64 - 48 |
| HeapUpdates.RoomMeans | kernel/mm/heap.c:169-176 | a copy of so many bytes stays inside the block kmalloc returns if and only if the block it takes has room, as seen before the call |
| HeapUpdates.RoomFails | kernel/mm/heap.c:169-176 | a concrete heap in which reallocating 64 bytes to 2^64 - 1 takes a block with no payload |
| HeapUpdates.SparedNext | kernel/mm/heap.c:88-216 | blocks that a run spares are live after its first operation and spared by the rest |
| KernelHeap.Allocator.Init | kernel/mm/heap.c:53-81 | one free block over the range, whose size is the least multiple of 4096 not below the request and at least 4096; counters zero, only its header written; a valid heap if and only if it does not start at NULL, the rounding does not wrap and the range lies in memory below 2^64 |
| KernelHeap.Allocator.FindFreeBlock | kernel/mm/heap.c:223-234 | walking the next links finds the first fit, NULL exactly if there is none |
| KernelHeap.Allocator.SplitBlock | kernel/mm/heap.c:241-260 | splits exactly when more than 64 bytes would remain, keeps the chain and all live payloads |
| KernelHeap.Allocator.MarkBlock | kernel/mm/heap.c:109-110 | only the block's allocated field changes |
| KernelHeap.Allocator.JoinHeaders | kernel/mm/heap.c:269-284 | the net effect of one merge on the headers, and no other byte changes |
| KernelHeap.Allocator.JoinPair | kernel/mm/heap.c:269-285 | one merge on bytes: the chain holds for the merged list, live payloads and stale headers are kept |
| KernelHeap.Allocator.MergeNext | kernel/mm/heap.c:267-275 | the loop is the first absorption |
| KernelHeap.Allocator.MergePrev | kernel/mm/heap.c:277-286 | the loop is the second absorption |
| KernelHeap.Allocator.MergeBlocks | kernel/mm/heap.c:266-287 | both loops |
| KernelHeap.Allocator.TakeBlock | kernel/mm/heap.c:104-110 | split if too large, then mark: the list is the allocation of the model, and every other block's payload is kept |
| KernelHeap.Allocator.Kmalloc | kernel/mm/heap.c:88-122 | result and new heap are those of the block-list model; payloads of all other blocks and bytes outside the heap are unchanged; a request for 0 bytes returns NULL, and NULL means no byte or counter changed |
| KernelHeap.Allocator.LiveLooksValid | kernel/mm/heap.c:294-299 | every live pointer passes the validity check, reads as allocated, and shows its true size |
| KernelHeap.Allocator.HeaderInMemory | kernel/mm/heap.c:16-22 | size, allocated, next, prev and magic number of every block at offsets 0, 8, 16, 24 and 32, the links leading to the neighbours |
| KernelHeap.Allocator.RefusedNotLive | kernel/mm/heap.c:188-202 | NULL, addresses outside the heap, a wrong magic number or a clear allocated field are refused, and no live pointer is among them |
| KernelHeap.Allocator.Kfree | kernel/mm/heap.c:188-216 | new heap is that of the model; no effect unless the pointer is live; other payloads kept; the freed header, and all stale ones, read as not allocated and describe no less than before |
| KernelHeap.Allocator.StaleFreeIsNoOp | kernel/mm/heap.c:194-202 | after a free with no allocation in between the pointer still passes the validity check but reads as not allocated, so a second free changes nothing, even if the header was swallowed by a merge |
| KernelHeap.Allocator.Kcalloc | kernel/mm/heap.c:130-139 | as kmalloc of the 64-bit product, with that many bytes zeroed, so every element reads 0; the block holds all elements if and only if their total size is at most 2^64 - 48 |
| KernelHeap.Allocator.CopyToNew | kernel/mm/heap.c:169-176 | a new block that starts with the old bytes; every live payload and the source block are unchanged; on failure nothing changes |
| KernelHeap.Allocator.Move | kernel/mm/heap.c:169-181 | for a live pointer the old block is freed after the copy; for one already freed the last step does nothing and the heap is that after kmalloc |
| KernelHeap.Allocator.Krealloc | kernel/mm/heap.c:147-182 | all five branches as in the model, NULL as kmalloc and size 0 as kfree, and the two outcomes for a pointer already freed; a moved block keeps all its old bytes, blocks live before and after keep theirs |
| KernelHeap.Allocator.ReallocatedLive | kernel/mm/heap.c:147-182 | the pointer krealloc returns is live unless, and only unless, it is the old one, already freed and large enough |
| KernelHeap.Allocator.FreeThenRealloc | kernel/mm/heap.c:147-216 | freeing a block and reallocating it to no more than it held returns its pointer, which is not live |
| KernelHeap.Allocator.UserWrite | kernel/mm/heap.c:117-121 | a byte stored in a live payload disturbs no header, no stale header and no other payload |
| KernelHeap.Allocator.ServeOne | kernel/mm/heap.c:88-216 | one operation of a run on bytes is the model's step, and keeps every live block it does not name |
| KernelHeap.Allocator.Serve | kernel/mm/heap.c:88-287 | every legal run on bytes is the run of the model, and no byte changes in a live block that the run neither frees, reallocates nor writes |
| Mounts.LookupIsBest | kernel/fs/fs.c:293-313 | with distinct paths the scan finds the unique longest non-empty mount path that is a prefix, and nothing exactly when there is none |
| Mounts.LookupFindsOwn | kernel/fs/fs.c:293-313 | a mounted path, and every path below it, finds its own mount unless a longer mount path is a prefix too |
| Mounts.LookupIgnoresOrder | kernel/fs/fs.c:293-313 | two lists of the same mounts in any order give the same answer, or none in both |
| Mounts.MountThenUnmount | kernel/fs/fs.c:150-285 | unmounting what was just mounted restores the list |
| Mounts.HistoryEnd | kernel/fs/fs.c:150-285 | a history carries out its requests in turn |
| Mounts.HistoryKeepsDistinct | kernel/fs/fs.c:159-166 | over every history mount paths stay distinct and every lookup is unique |
| MountTable.SlotOf | kernel/fs/fs.c:268-269 | a mounted file system sits at the mirrored slot and nowhere else |
| MountTable.InStepRemove | kernel/fs/fs.c:270-275 | shifting the array mirrors removal from the list |
| MountTable.KeptNothing | kernel/fs/fs.c:97-103 | shutdown empties the table if and only if no mount is busy or refused |
| MountTable.KeptMembers | kernel/fs/fs.c:97-103 | shutdown keeps exactly the mounts that are busy or refused |
| MountTable.OwnMatch | kernel/fs/fs.c:293-313 | the longest match of a mounted path is that mount |
| MountTable.Manager.FindMount | kernel/fs/fs.c:231-241 | the mount with this path and its predecessor, or none |
| MountTable.Manager.GetFilesystem | kernel/fs/fs.c:293-313 | the file system of a longest non-empty mount path that is a prefix of the path; NULL exactly when there is none, for no path, or before initialisation |
| MountTable.Manager.Scan | kernel/fs/fs.c:293-313 | the loop over the links is the scan of the list |
| MountTable.Manager.MountThenGet | kernel/fs/fs.c:150-313 | after a mount, looking up its path finds the file system just mounted |
| MountTable.Manager.DoMount | kernel/fs/fs.c:150-218 | the result of every check in order; on success the mount heads the list with the given path and type and takes the next slot, a step of the history; otherwise nothing changes |
| MountTable.Manager.Insert | kernel/fs/fs.c:204-212 | list and array stay in step |
| MountTable.Manager.RemoveSlot | kernel/fs/fs.c:267-278 | the array is in step with the list without that mount, later slots empty |
| MountTable.Manager.Unlink | kernel/fs/fs.c:260-265 | the links are those of the list without that mount |
| MountTable.Manager.Unmount | kernel/fs/fs.c:226-285 | the result of every check in order; on success exactly that mount goes from list and array, a step of the history; otherwise nothing changes |
| MountTable.Manager.UnmountAll | kernel/fs/fs.c:97-103 | exactly the mounts that are busy or whose driver refuses survive, in order |

## Left out

- KernelHeap.Allocator.Kmalloc: excludes requests whose total wraps below a header and that would split a block; `TotalCovers` and `WrappedSplit` say exactly which they are and that they break the list.
- KernelHeap.Allocator.Kfree: a pointer whose preceding bytes look like a valid allocated header must be live; the code trusts those bytes and cannot tell a forged header from a real one.
- KernelHeap.Allocator.Krealloc: a pointer that looks valid must be live or stale; for a stale one that has to move, the block kmalloc takes must not contain the stale header, since the copy may overwrite it before the final free reads it. The copy must stay inside the new block; `RoomMeans` and `RoomForRequest` say exactly when it does.
- KernelHeap.Allocator.CopyToNew: likewise the source bytes are not in the block that kmalloc takes.
- KernelHeap.Allocator.Kcalloc: the fill must stay inside the new block; `RoomForRequest` says exactly when it does. The product itself may wrap, as in the code.
- KernelHeap.Allocator.Init: memory for the first header must exist.
- HeapRuns.RunInv: legal runs leave out calls on which the source overwrites headers: requests whose total wraps below a header and that would split a block, and kcalloc and krealloc sizes whose fill or copy would leave the new block. Pointers in runs are NULL, live, or, to be freed, freed since the last allocation.
- Pmm.PageAllocator.Init: the bitmap must lie in memory.
- Pmm.PageAllocator.AllocPages: the counters agree with the bitmap; `AllocPage` has no such restriction. Both need every free page to exist in memory.
- Vmm.AddressSpace.Init: the pool leaves out page 0 and the bitmap's pages; `InitAtBoot` covers the pool of the boot map.
- MountTable.Manager.DoMount: fewer than 64 mounts (the code does not check the array bound) and a path that fits its buffer with the terminator; kernel allocation and driver results are parameters.
- MountTable.Manager.UnmountAll: driver results are parameters; the cache, journal and driver shutdown after the loop are not modelled.
- Field padding in headers, the TLB flush (an empty stub) and log output are not modelled.
- `memory_compare` (byte-wise comparison), `memory_find` (first occurrence of a byte), `memory_is_zero`, `memory_checksum` (rotating sum), `memory_dump` and the statistics printers are not modelled.
- `vmm_create_area` and `vmm_destroy_area` are placeholders in the source.
- The scheduler, device drivers, interrupts, hardware abstraction layer, boot code and the file-system drivers are not part of this model.
- Concurrency: the modelled functions take no locks and are modelled as sequential calls.
