# Memory management of the kernel, verified

A Dafny model of the kernel's memory stack and of its process switch, layer by layer, with proofs of
what each layer promises to the next.

* **Buddy frame allocator** (`Blocks`, `FreeLists`, `FreeSets`, `BuddyMap`, `BitmapLayout`,
  `FrameAllocator`, `FrameRuns`). Free lists and buddy-map words are changed in place by the loops of the
  source. `FreeLists` says, from the lists alone, which blocks a request takes and what it leaves. The
  centre is the canonical form: between calls the free blocks are exactly the maximal aligned free runs,
  so the set of free pages alone determines every free list and every buddy bit. That free undoes alloc,
  that release undoes removal, and that a run which returns everything ends where it began all follow.
* **Page tables and virtual ranges** (`PageTables`, `Processor`, `AddressSpace`, `VirtualRanges`). A
  three-level tree, its mapping lists and the cached location refine a flat map from pages to leaf entries,
  which is what the processor reads when it walks the tables by the bits of an address. Virtual ranges
  are a partition of the addresses below the current address into live and handed-back ones.
* **Page allocator** (`Holdings`, `FrameScan`, `Memory`, `MemoryRuns`). The two layers joined: live results
  share neither pages nor frames, nor a frame with a page table, along every run of a virtual range
  allocator that subtracts when it carves, and until the first such carving of the one that adds.
* **Slab allocator** (`SlabLayout`, `FreeChain`, `SlabStates`, `SlabFrames`, `SlabAllocator`, `SlabList`).
  Free chains through arrays, partial and full lists, headers on and off the slab, the mutual recursion of
  allocation and release, and what becomes of the frames under the pages that are given up.
* **Kernel heap** (`KernelHeap`). The slab allocator over the page allocator: along every run of kalloc and
  kfree no byte of physical memory is shared, all of it can be written by the kernel and by nobody else, and
  every frame is free, in use, or lost in a scan.
* **Entry pool** (`EntryPool`, `PoolRefills`). The re-entrant refill, the counter trick that guards it, where
  the entries lie, and how many of them the frames for a refill take at most.
* **Processes** (`ByteCopy`, `Interrupts`, `ProcessQueue`). The round-robin queue and the saving and
  restoring of registers through the user stacks, from the interrupt to the return from it.

Addresses are frame or page numbers in the frame allocator and the mapper, and bytes in the slab
allocator, the entry pool and the process queue.

## Where the code departs from its intent

The code is modelled as written. Where it departs from what it is for, the contract states exactly when
the result is still right.

* `alloc_frames` and `alloc_frames_contiguos` read the word behind the table of list heads when a
  top-order block is wanted and none is free (frame_allocator.c:131-133, 276-278). `junkPastTable` says
  whether that word is non-null; `AllocFrames` and `AllocContiguous` say exactly when it matters.
* `alloc_frames_contiguos` pops the next list without looking (frame_allocator.c:278-285). It faults
  exactly under `ContiguousFaults`; on freshly filled lists any request for one page does.
* A page count is turned into a 64-bit byte count first, so `AllocFrames` serves `Wrapped(pages)` pages.
* Carving the front off a larger virtual range adds to its page count (paging.c:290). `subtracts` says
  whether the allocator modelled does that or subtracts, as it should. `AllocAddrSpace`: the partition
  survives exactly with a subtraction or when nothing is carved (`CarveGivesPageAwayTwice` has a list where it
  does not); `MemoryRuns` has the whole runs of both.
* Unlinking the first free range stores its successor without the sign extension (paging.c:295).
  `headLost` records it, and the next walk of the list faults.
* The cached location assumes page table 0 on entering a new directory (paging.c:325). `Traverse`: it
  agrees with a full walk exactly when that is where the page lies, as it always is page by page.
* `unmap_and_free_frames` ends a run without starting the next with the current frame (paging.c:491-497),
  and asserts of a run that its length is a power of two but not that it is naturally aligned (493, 512).
  `RightForOneBlockOnly` has the three exact conditions: for nothing to be dropped, for the assertions to
  hold as well, and for the run to be a block. Frames 1 and 2 pass the first two and not the third
  (`UnalignedPairPasses`); the model stops there, the source lists a block that never was one.
* The same holds for the slab allocator, which calls free_pages for empty slabs, page allocations and pages
  that came to no use (slab_allocator.c:137, 233, 238, 269). `Kfree` ends exactly as the frames under the
  range decide that the pointer was the last on. Objects of up to 1024 bytes always go back
  (`SmallObjectGoesBack`); those of 2048 bytes unless the two frames of their slab are an unaligned pair, and
  with a frame lost unless they are neighbours (`LargeObjectGoesBack`); whole pages exactly if their frames are
  cut into blocks (`PagesGoBack`), which three neighbouring frames are not (`ThreePagesStop`).
* The kernel's pool of table pages is refilled by mapping, which may hang a table below the very entry that
  is being filled; the entry is not looked at again (paging.c:172-216). `FillEntry`: the flat map survives with
  more than ten pages in the pool, and otherwise exactly the pages below that entry are lost, as the first page
  that the kernel maps can show (`RefillLosesPages`).
* Seven caches are declared and eight used (slab_allocator.c:17, 70, 254). The eighth lies on the list of
  page allocations (`LastCacheLiesOnPageList`); the model has room for eight.
* `kalloc` writes the record of a page allocation without looking whether there was memory for it
  (slab_allocator.c:109-113). `Kalloc` faults exactly then.
* `start_user_process` leaves the new process's memory mapped (process_system.c:149, 178-179). A switch
  that follows saves the registers of the running process in the new one's memory; `ContextSwitch` says
  exactly when saved registers can be found again.
* Maps of buddy bits are sized in bytes per order but read in 8-byte words; from 2 MB of memory on every
  word lies in its own map, and with less some word does not.

## Model

| member | source | states |
|---|---|---|
| Blocks.OffsetIsRemainder | kernel/src/memory/frame_allocator.c:224 | the recursive alignment test of the model is the remainder the source computes |
| Blocks.Nested | kernel/src/memory/frame_allocator.c:95-107 | two naturally aligned blocks are nested or do not overlap |
| Blocks.BuddiesMakeParent | kernel/src/memory/frame_allocator.c:223-229 | left or right of the parent as the address test says, the buddy of the buddy is the block, and both halves share one parent |
| FreeSets.RunInOneBlock | kernel/src/memory/frame_allocator.c:197-268 | every aligned, wholly free run of 2^k pages lies inside a single free block of order at least k |
| FreeSets.CanonicalForm | kernel/src/memory/frame_allocator.c:197-268 | the set of free pages alone determines the free blocks of every order |
| FreeSets.FreeBlocksAreMaximalRuns | kernel/src/memory/frame_allocator.c:197-268 | a block is in a free list if and only if it is a maximal aligned free run |
| FreeSets.SplitBlock | kernel/src/memory/frame_allocator.c:95-107 | splitting keeps blocks disjoint and the free pages the same |
| FreeSets.MergeBlocks | kernel/src/memory/frame_allocator.c:218-266 | merging two buddies keeps blocks disjoint and the free pages the same |
| BuddyMap.SharedBit | kernel/src/memory/frame_allocator.c:64-74 | two blocks of one order share word and bit if and only if they are equal or buddies |
| BuddyMap.ExpectedIsXor | kernel/src/memory/frame_allocator.c:211-219 | a pair's bit is left free XOR right free |
| BuddyMap.ToggleMatches | kernel/src/memory/frame_allocator.c:84-93 | taking or freeing one block together with one toggle keeps every bit right |
| BuddyMap.BothBuddiesCancel | kernel/src/memory/frame_allocator.c:95-107 | adding or removing both buddies leaves their bit right without a toggle |
| BuddyMap.BuddyWords.Get | kernel/src/memory/frame_allocator.c:76-82 | reads the bit of the block's own pair out of the 64-bit words |
| BuddyMap.BuddyWords.Toggle | kernel/src/memory/frame_allocator.c:84-93 | flips the bit of the block's own pair and no other in all maps; nothing for the top order |
| BitmapLayout.WordInsideMap | kernel/src/memory/frame_allocator.c:402-411 | from 2 MB on the word of every block lies in its own order's map and in the allocated pages |
| BitmapLayout.SmallMemoryOverruns | kernel/src/memory/frame_allocator.c:454-458 | with less memory the first block of some order has its bit in a word beyond its map |
| BitmapLayout.MapsFitExactlyFromTwoMegabytes | kernel/src/memory/frame_allocator.c:402-458 | all words fit their maps if and only if there are 2 MB of memory |
| FrameAllocator.Wrapped | kernel/src/memory/frame_allocator.c:110-113 | the pages that alloc_frames serves are those of the byte count, wrapped to 64 bits, that it counts down |
| FrameAllocator.CalculateAllocationPages | kernel/src/memory/frame_allocator.c:46-53 | the pages of all blocks of the chain together |
| FrameAllocator.MinSizeOrderIsLeast | kernel/src/memory/frame_allocator.c:32-44 | the least order with room for so many pages, and past the last order exactly above 128 pages |
| FrameAllocator.FrameAllocator.constructor | kernel/src/memory/frame_allocator.c:446-482 | after the lists are filled all of memory is free, in top-order blocks in ascending order, with all buddy bits clear, and the invariant holds |
| FrameAllocator.FrameAllocator.FillTopList | kernel/src/memory/frame_allocator.c:461-482 | the top list holds every top-order block of memory once, in ascending order |
| FrameAllocator.FrameAllocator.Split | kernel/src/memory/frame_allocator.c:95-107 | unlinks a block, links its halves in order, and keeps lists, bits and free pages consistent; only the halves may be free buddies |
| FrameAllocator.FrameAllocator.LargestBelow | kernel/src/memory/frame_allocator.c:139-143 | the largest smaller order with a free block, or -1 exactly when none has one |
| FrameAllocator.FrameAllocator.FindOrder | kernel/src/memory/frame_allocator.c:128-162 | brings to the front a block of the wanted order, split from the front block of the smallest larger order that is free, else finds the largest smaller order; when it finds nothing, nothing is free; the lists are left as the lists before determine |
| FrameAllocator.FrameAllocator.TakeBlock | kernel/src/memory/frame_allocator.c:128-171 | takes a whole free block of the order that serves the wish and keeps the invariant |
| FrameAllocator.FrameAllocator.LargestFitting | kernel/src/memory/frame_allocator.c:119-126 | the largest order whose blocks are no larger than what is still wanted |
| FrameAllocator.FrameAllocator.Gather | kernel/src/memory/frame_allocator.c:117-192 | a round adds one block apart from those gathered, no larger than what is still wanted, or finds that nothing at all is free |
| FrameAllocator.FrameAllocator.GiveBack | kernel/src/memory/frame_allocator.c:146-149 | freeing what was gathered leaves exactly the free blocks from before |
| FrameAllocator.FrameAllocator.BuddyIsFree | kernel/src/memory/frame_allocator.c:219 | the merge test: below the top order and the pair bit clear |
| FrameAllocator.FrameAllocator.UnlinkPair | kernel/src/memory/frame_allocator.c:220-248 | with the pair bit clear the search for the buddy never fails; exactly the two halves leave the lists |
| FrameAllocator.FrameAllocator.Merge | kernel/src/memory/frame_allocator.c:218-266 | with the pair bit clear the buddy is always in the list; both leave it and their parent is in front of the list above |
| FrameAllocator.FrameAllocator.LinkFreed | kernel/src/memory/frame_allocator.c:211-216 | the block comes in front of its list with its bit toggled, and only it can have a free buddy |
| FrameAllocator.FrameAllocator.FreeBlock | kernel/src/memory/frame_allocator.c:199-267 | the free pages grow by exactly the block and no two buddies stay free, after at most 7 - order merges |
| FrameAllocator.FrameAllocator.FreeFrames | kernel/src/memory/frame_allocator.c:197-268 | the free pages grow by exactly the blocks of the allocation and the invariant holds |
| FrameAllocator.FrameAllocator.AllocFrames | kernel/src/memory/frame_allocator.c:109-195 | faults exactly when a read past the table finds junk; else succeeds exactly when enough pages are free, with separate aligned blocks, previously free, of exactly the pages asked for; on failure the free blocks are as before; which blocks, how many splits and which lists are left is determined by the lists before |
| FrameAllocator.FrameAllocator.RunNeedsEntry | kernel/src/memory/frame_allocator.c:276-291 | an aligned free run of 2^k pages exists exactly when some list of order k or above has an entry |
| FrameAllocator.FrameAllocator.AllocContiguous | kernel/src/memory/frame_allocator.c:270-306 | faults exactly when it pops an empty list or reads junk; else returns an aligned block of the least sufficient order exactly when a free one exists, and changes nothing when not; the block is the front of the front block of the smallest sufficient order that has one, and right halves of that block are all that comes into the lists |
| FrameAllocator.FrameAllocator.FreeContiguous | kernel/src/memory/frame_allocator.c:308-314 | the free pages grow by exactly that block |
| FrameAllocator.FrameAllocator.FindContaining | kernel/src/memory/frame_allocator.c:336-351 | the entry of a list whose block contains the address, or the knowledge that no free block of the order does |
| FrameAllocator.FrameAllocator.SplitOwner | kernel/src/memory/frame_allocator.c:353-373 | after a split exactly one half contains the address, and it can be taken |
| FrameAllocator.FrameAllocator.LargestAligned | kernel/src/memory/frame_allocator.c:320-333 | the largest order that the range starts on a boundary of and has room for |
| FrameAllocator.FrameAllocator.TakeAt | kernel/src/memory/frame_allocator.c:335-374 | takes the aligned block at an address exactly when all of it is free, splitting whatever block contains it |
| FrameAllocator.FrameAllocator.RemoveRange | kernel/src/memory/frame_allocator.c:317-381 | succeeds exactly when the whole range is free and then removes exactly it; on failure exactly those of its maximal aligned pieces, front to back, before the first that is not wholly free have been removed |
| FrameAllocator.FrameAllocator.LargestReleasable | kernel/src/memory/paging.c:586-593 | the largest order that the range starts on a boundary of and has room for |
| FrameAllocator.FrameAllocator.ReleaseRange | kernel/src/memory/paging.c:583-599 | the greedy loop frees exactly its range |
| FreeLists.SmallBlocksStayWhole | kernel/src/memory/frame_allocator.c:128-162 | with only one- and two-page blocks free, an even number of pages takes no split |
| FreeLists.OneThenTen | kernel/src/memory/frame_allocator.c:109-195 | a request for one page followed by one for ten splits at most seven blocks together, whatever the free lists hold |
| FrameRuns.HistoryDoesNotMatter | kernel/src/memory/frame_allocator.c:95-268 | two allocators with the same free pages have the same entries in every list and the same buddy bits, whatever came before |
| FrameRuns.AllocThenFree | kernel/src/memory/frame_allocator.c:109-268 | freeing what was allocated restores every free list as a set |
| FrameRuns.AllocThenFreeContiguous | kernel/src/memory/frame_allocator.c:270-314 | freeing a run with the same page count restores every free list as a set |
| FrameRuns.RemoveThenRelease | kernel/src/memory/frame_allocator.c:317-381 | removing a range and releasing it greedily restores every free list as a set |
| FrameRuns.SinglePageFaultsAtFirst | kernel/src/memory/frame_allocator.c:276-285 | on freshly filled lists a contiguous request for one page always faults |
| FrameRuns.TopRequestReadsPastTable | kernel/src/memory/frame_allocator.c:131-133 | with no top-order block free, asking for 128 pages in either way faults exactly when the word behind the table is not null |
| FrameRuns.Client.Serve | kernel/src/memory/frame_allocator.c:109-381 | any request, removal of a range included, is granted, refused or faults exactly when it must, and every page is free, held once, or lost to a removal that failed |
| FrameRuns.Client.ServeAll | kernel/src/memory/frame_allocator.c:109-381 | conservation over any sequence of requests, removals and releases included; without junk and contiguous requests it never faults |
| FrameRuns.Client.RunAndReturnAll | kernel/src/memory/frame_allocator.c:109-381 | any run followed by the return of everything brings back all pages but those failed removals lost, and without such the free lists and buddy bits it began with |
| PageTables.WalkIsInjective | kernel/src/memory/paging.c:154-163 | no page table is reached in two ways |
| PageTables.DigitsOfPage | kernel/src/memory/paging.c:30-31 | the slot and the three indices are the digits of the page number to base 512, so that equal indices mean equal pages |
| PageTables.WriteLeaf | kernel/src/memory/paging.c:351-357 | a store into a leaf changes the flat map at that page only |
| PageTables.LinkPd | kernel/src/memory/paging.c:201-216 | a fresh page directory below an empty entry leaves the flat map as it was |
| PageTables.LinkPt | kernel/src/memory/paging.c:223-238 | a fresh page table below an empty entry leaves the flat map as it was |
| PageTables.RelinkPt | kernel/src/memory/paging.c:201-216 | a fresh page table over whatever hung below the entry loses exactly the pages mapped there |
| PageTables.SecondTableLosesPages | kernel/src/memory/paging.c:171-216 | filling an entry that a refill has filled meanwhile keeps the flat map if and only if the table below it mapped nothing |
| Processor.WalkReadsView | kernel/src/memory/paging.c:243-260 | walking the tables by nine bits of the address at a time reads the flat map: frame, offset, rights and caching |
| AddressSpace.AddressSpace.constructor | kernel/src/memory/paging.c:69-89 | a new space maps nothing and its tables are well linked |
| AddressSpace.AddressSpace.Kernel | kernel/src/memory/paging.c:49-56 | the kernel's space, in slot 480 with protection 0, before anything is mapped in it |
| AddressSpace.AddressSpace.GetPageEntries | kernel/src/memory/paging.c:154-164 | the pointer of the first mapping with the frame, or none |
| AddressSpace.AddressSpace.NewTable | kernel/src/memory/paging.c:201-238 | links a zeroed page below the entry, the entry present, writable and executable, for user code exactly with protection 3, and translates nothing differently |
| AddressSpace.AddressSpace.GetOrAllocPageEntries | kernel/src/memory/paging.c:166-241 | returns the table below an entry, made exactly when there is none, and translates nothing differently |
| AddressSpace.AddressSpace.Populate | kernel/src/memory/paging.c:243-260 | the location agrees with a full walk, with exactly the missing tables made; fails exactly when there are fewer table pages than that |
| AddressSpace.AddressSpace.Traverse | kernel/src/memory/paging.c:319-344 | the cached location agrees with a full walk exactly when the page lies below the same directory or in the first page table of its own |
| AddressSpace.AddressSpace.SetLeaf | kernel/src/memory/paging.c:351-357 | a store through the cached location changes the translation of that page only |
| AddressSpace.AddressSpace.WithFlags | kernel/src/memory/paging.c:271-276 | sets the four flags, execution only where it can be disabled, and keeps frame, presence and protection |
| AddressSpace.AddressSpace.MappedIsRead | kernel/src/memory/paging.c:348-357 | a page that maps to a frame with flags is read by the processor byte by byte with exactly the rights asked for |
| AddressSpace.AddressSpace.MapPage | kernel/src/memory/paging.c:348-364 | one page maps to the frame with flags and protection, and the processor reads every byte of it so; every other page translates as before |
| AddressSpace.AddressSpace.MapRange | kernel/src/memory/paging.c:346-365 | page i maps to frame + i with the flags and protection; every other page translates as before |
| AddressSpace.AddressSpace.MapList | kernel/src/memory/paging.c:367-389 | page i maps to the i-th frame of a list; pages below one page table take no table but that one |
| AddressSpace.AddressSpace.ReplaceTable | kernel/src/memory/paging.c:201-216 | a page table put below an entry unmaps exactly the pages that were mapped below it |
| AddressSpace.AddressSpace.FillEntry | kernel/src/memory/paging.c:166-216 | with more than ten pages in stock filling an empty entry keeps the flat map; with ten or fewer it first maps the pages of a refill, and then exactly what lies below the entry is lost |
| AddressSpace.RefillLosesPages | kernel/src/memory/paging.c:166-216 | in a fresh kernel space with few table pages, filling the first entry maps the ten pages of the refill behind the page wanted and loses all of them |
| AddressSpace.AddressSpace.ClearRange | kernel/src/memory/paging.c:456-468 | unmaps exactly the range |
| AddressSpace.AddressSpace.ReflagPage | kernel/src/memory/paging.c:538-547 | gives a mapped page the flags and leaves an unmapped one alone, reporting which |
| AddressSpace.AddressSpace.RangeSetFlags | kernel/src/memory/paging.c:533-551 | sets the flags up to the first unmapped page, changes no frame, and reports whether it got to the end |
| AddressSpace.AddressSpace.VirtToPhys | kernel/src/memory/paging.c:517-531 | translates a byte address exactly when its page is mapped, to the physical address that the processor uses |
| VirtualRanges.VirtualRanges.constructor | kernel/src/memory/paging.c:78-82 | nothing is handed out, and page 0 never will be |
| VirtualRanges.VirtualRanges.Kernel | kernel/src/memory/paging.c:49-56 | the addresses of the kernel, those of the boot code handed out |
| VirtualRanges.VirtualRanges.ServeFromList | kernel/src/memory/paging.c:287-304 | from the first range that is large enough, never live pages; exactly the returned pages if and only if it subtracts or does not carve |
| VirtualRanges.VirtualRanges.AllocAddrSpace | kernel/src/memory/paging.c:278-317 | first fit or fresh addresses, never live ones; hands out exactly the returned pages if and only if it subtracts or does not carve; faults exactly on a lost list head |
| VirtualRanges.VirtualRanges.AddRange | kernel/src/memory/paging.c:262-269 | the pages handed back are no longer live, and the partition is kept |
| VirtualRanges.VirtualRanges.ClaimVirtRange | kernel/src/memory/paging.c:399-419 | succeeds exactly above the current address inside the slot, hands out exactly the range and lists the gap below it |
| VirtualRanges.WrittenCarve | kernel/src/memory/paging.c:287-291 | carving as written keeps the partition if and only if no page is carved |
| VirtualRanges.WrittenCarveReaches | kernel/src/memory/paging.c:287-293 | carving as written lists as handed back, behind the end of the range, exactly twice as many pages as were carved off its front |
| VirtualRanges.IntendedCarveHandsOut | kernel/src/memory/paging.c:287-291 | carving with a subtraction always hands out exactly the pages carved |
| VirtualRanges.LostHeadIsFollowed | kernel/src/memory/paging.c:294-307 | after an exact fit at the head of two ranges any request at all faults |
| FrameScan.EveryFrameAccountedFor | kernel/src/memory/paging.c:480-514 | every frame of the range is in exactly one freed run or dropped |
| FrameScan.NothingDropped | kernel/src/memory/paging.c:484-501 | no frame is dropped if and only if the range is one run of at most 128 frames |
| FrameScan.FreedOnce | kernel/src/memory/paging.c:480-514 | no frame is freed twice, and those freed are all but the dropped ones |
| FrameScan.RightForOneBlockOnly | kernel/src/memory/paging.c:480-514 | nothing is dropped if and only if the range is one run of at most 128 frames; the assertions hold too if and only if their number is a power of two; the run is a block if and only if it is also aligned |
| FrameScan.OneCutting | kernel/src/memory/paging.c:478-512 | there is exactly one way to cut a range into runs of at most 128 neighbouring frames, each followed by one dropped frame that does not continue it or comes after 128, or ending the range: the runs freed and frames dropped are those |
| FrameScan.ThreeFramesStop | kernel/src/memory/paging.c:511-513 | three neighbouring frames end at the power-of-two assertion |
| FrameScan.SecondFrameLost | kernel/src/memory/paging.c:488-501 | of any two frames that are not neighbours the second is dropped |
| FrameScan.UnalignedPairPasses | kernel/src/memory/paging.c:491-514 | frames 1 and 2 pass every assertion, may both be free, and are no block: no well-formed set of free blocks contains it |
| FrameScan.OneBitMeansPower | kernel/src/memory/paging.c:493 | a population count of one is exactly a power of two |
| FrameScan.FreedMeansBlocks | kernel/src/memory/paging.c:493-513 | freeing the runs ends well if and only if all of them are blocks |
| Holdings.FramesAreDistinct | kernel/src/memory/paging.c:377-383 | the concatenated frames of separate blocks never repeat |
| Holdings.FrameListOfBlock | kernel/src/memory/paging.c:377-383 | the frames of block i lie at the sum of the earlier block sizes |
| Holdings.LiveTranslationIsInjective | kernel/src/memory.c:10-18 | different pages of live results translate to different frames |
| Memory.Memory.MapBlocks | kernel/src/memory/paging.c:377-383 | block after block, each page maps to the frame at its place in the concatenated list, the location staying in agreement |
| Memory.Memory.MapAllocation | kernel/src/memory/paging.c:367-386 | virtual page i maps to the i-th frame of the concatenated blocks, at addresses that were not live, and nothing else changes |
| Memory.Memory.MapPhysRange | kernel/src/memory/paging.c:388-397 | the same for a run of frames |
| Memory.Memory.MapAllocationToRange | kernel/src/memory/paging.c:421-439 | the same at a given address, refused without any change exactly when it cannot be claimed |
| Memory.Memory.MapToRange | kernel/src/memory/paging.c:441-451 | the same for a run of frames at a given address |
| Memory.Memory.AllocPages | kernel/src/memory.c:10-18 | null exactly when too few frames are free, and then without any change; a result maps so many pages to frames that were free, those which the free lists determine, and is apart from everything live; the invariant holds unless it was carved off with an addition |
| Memory.Memory.AllocPagesContiguous | kernel/src/memory.c:22-27 | null exactly when no aligned block is free (and no fault comes first); the pages map to the front of one aligned block taken from the free ones, the front of the front block of the smallest sufficient order that has one |
| Memory.Memory.UnmapRange | kernel/src/memory/paging.c:453-469 | unmaps exactly a handed out range and hands its addresses back |
| Memory.Memory.FreePagesContiguous | kernel/src/memory.c:29-36 | gives back the whole block, unmaps the pages and leaves every other result alone |
| Memory.Memory.FreeRun | kernel/src/memory/paging.c:493-495 | frees a run that is a block, and says of any other whether the assertion stops it |
| Memory.Memory.ScanFrame | kernel/src/memory/paging.c:484-501 | the loop variables follow the scan, and the free frames grow by exactly the runs it has freed, until one is no block |
| Memory.Memory.UnmapFrames | kernel/src/memory/paging.c:474-514 | ends with the verdict on the first run that is no block; if there is none, unmaps the range and frees exactly the runs of the scan |
| Memory.Memory.FreePages | kernel/src/memory.c:20 | whichever way its frames are cut into runs and dropped frames: ends well exactly when every run is a block, and then unmaps the result and frees exactly the frames of the runs |
| Memory.AllocThenFreePagesContiguous | kernel/src/memory.c:22-36 | frames, addresses and live results are as before |
| Memory.FreeLatest | kernel/src/memory/paging.c:471-515 | free_pages ends well and brings back the free lists from before the allocation if and only if the frames are one aligned power-of-two block |
| MemoryRuns.Client.Serve | kernel/src/memory.c:10-36 | a request is served whenever frames and room allow, a loan comes back exactly when its frames are blocks, and the invariant holds as long as nothing is carved with an addition |
| MemoryRuns.Client.ServeAll | kernel/src/memory.c:10-36 | with a subtracting range allocator every run keeps the invariant, and live results share no page and no frame |
| MemoryRuns.Client.ServeUntilCarved | kernel/src/memory/paging.c:287-291 | with the addition of the source the same holds up to the first request carved off a larger range |
| MemoryRuns.Client.ValidSharesNothing | kernel/src/memory.c:10-36 | different pages of all live results are mapped, to different frames |
| MemoryRuns.KernelMemory | kernel/src/memory/frame_allocator.c:484-519 | a kernel memory to start from satisfies the invariant, its table frames removed from the frame allocator |
| SlabLayout.MinCacheOrder | kernel/src/memory/slab_allocator.c:58-62 | ends at the order the least-order function gives, or one past the last |
| SlabLayout.PagesFor | kernel/src/memory/slab_allocator.c:77 | the least page count that holds four objects |
| SlabLayout.ComputeLayout | kernel/src/memory/slab_allocator.c:79-93 | the largest object count whose free array and objects fit beside the header, for any object size that is a multiple of 16 |
| SlabLayout.LargerNeedsMore | kernel/src/memory/slab_allocator.c:83-93 | whatever fits, fewer objects fit too, so the count found is the bound of all that fit |
| SlabLayout.PartsDoNotOverlap | kernel/src/memory/slab_allocator.c:130-153 | header, free array and objects follow each other inside the slab's pages, objects aligned to 16 |
| SlabLayout.ObjectsApart | kernel/src/memory/slab_allocator.c:165 | objects of different index do not overlap |
| FreeChain.PathHasNoRepeats | kernel/src/memory/slab_allocator.c:144-150 | the free chain visits no index twice |
| FreeChain.AllocatedCount | kernel/src/memory/slab_allocator.c:165-167 | as many objects are off the chain as it is short of the array |
| FreeChain.FillFreeArray | kernel/src/memory/slab_allocator.c:144-150 | a new array chains every object from index 0 to the end |
| FreeChain.PopChain | kernel/src/memory/slab_allocator.c:165-166 | taking the first free object shortens the chain by that index, which is not on it any more |
| FreeChain.PushChain | kernel/src/memory/slab_allocator.c:210-211 | giving an object back puts its index in front of the chain |
| SlabStates.PopSlab | kernel/src/memory/slab_allocator.c:165-167 | the slab's live objects grow by exactly the one returned, which was not live |
| SlabStates.PushSlab | kernel/src/memory/slab_allocator.c:206-225 | the slab's live objects lose exactly the one given back |
| SlabStates.SwapLive | kernel/src/memory/slab_allocator.c:165-185 | a change of one slab changes the live objects of the whole allocator by exactly what changes in that slab |
| SlabStates.NothingOverlaps | kernel/src/memory/slab_allocator.c:130-165 | live objects of any caches, whole page allocations, headers and free arrays never overlap each other |
| SlabStates.LivePointersArePartStarts | kernel/src/memory/slab_allocator.c:99-190 | the live pointers are exactly the starts of those objects and page allocations |
| SlabStates.SlabPagesApart | kernel/src/memory/slab_allocator.c:126-153 | different slabs have different pages |
| SlabStates.FoundIsOwner | kernel/src/memory/slab_allocator.c:204 | the slab whose object memory contains a live pointer is the one that owns it |
| SlabStates.NothingHeldNothingOwned | kernel/src/memory/slab_allocator.c:227-243 | once callers hold nothing there is no slab, no record and no page left |
| SlabFrames.SlabIsMapped | kernel/src/memory/slab_allocator.c:126-141 | the pages of a slab are one range from alloc_pages, with as many frames as the slab has pages |
| SlabFrames.RecordIsMapped | kernel/src/memory/slab_allocator.c:104-113 | so are those of a page allocation |
| SlabFrames.AloneInSlab | kernel/src/memory/slab_allocator.c:225-228 | an object is the only thing live on its slab's pages exactly if the slab has one object |
| SlabFrames.GivesUpOffSlab | kernel/src/memory/slab_allocator.c:235-241 | freeing the last object of a slab with its header elsewhere gives up the slab and whatever that header was the last on |
| SlabFrames.PagesGiveUp | kernel/src/memory/slab_allocator.c:268-278 | freeing a page allocation gives up its pages and whatever its record was the last on |
| SlabFrames.FreedExactlyAsRangesGoBack | kernel/src/memory/slab_allocator.c:233-241 | kfree ends well if and only if every range it gives up is cut into blocks, and loses exactly the frames their scans drop |
| SlabFrames.OnePageGoesBack | kernel/src/memory/paging.c:478-512 | a single page always goes back, and no frame is lost |
| SlabFrames.TwoPagesGoBack | kernel/src/memory/paging.c:478-512 | two pages go back well unless their frames are neighbours of which the first is odd, and completely exactly if they are one block |
| SlabFrames.SmallObjectGoesBack | kernel/src/memory/slab_allocator.c:228-241 | objects of up to 1024 bytes always go back and lose no frame |
| SlabFrames.LargeObjectGoesBack | kernel/src/memory/slab_allocator.c:228-241 | objects of 2048 bytes: exactly when the last one of a slab goes back well, and which frame is lost |
| SlabFrames.PagesGoBack | kernel/src/memory/slab_allocator.c:268-280 | a page allocation goes back well exactly if its frames are cut into blocks, and completely exactly if they are one block |
| SlabAllocator.SlabAllocator.constructor | kernel/src/memory/slab_allocator.c:68-97 | all caches are laid out and empty, for 203, 112, 59, 30, 15, 7, 3 and 3 objects to the slab, and nothing is live |
| SlabAllocator.WholePages | kernel/src/memory/slab_allocator.c:104 | the least number of pages that hold so many bytes, or none when the rounding up wraps |
| SlabAllocator.SlabAllocator.Kalloc | kernel/src/memory/slab_allocator.c:99-190 | a pointer is new and aligned to 16, callers hold exactly it in addition, exactly the ranges of pages it needed come into use, and freeing it would give up exactly those; faults exactly when the record of a page allocation gets no memory; with too little memory null exactly if the pages it gives up go back well, and then nothing has changed but the frames lost |
| SlabAllocator.SlabAllocator.KallocPages | kernel/src/memory/slab_allocator.c:102-116 | the pointer is the pages' address, recorded in front with the rounded-up page count |
| SlabAllocator.SlabAllocator.KallocObject | kernel/src/memory/slab_allocator.c:118-190 | a new object of the right cache; with no partial slab and no memory for a new one, null or the stop of free_pages |
| SlabAllocator.SlabAllocator.TakeObject | kernel/src/memory/slab_allocator.c:165-190 | takes a new, aligned object off the first partial slab, the one that comes next there, and moves the slab exactly when it is full |
| SlabAllocator.SlabAllocator.NewSlab | kernel/src/memory/slab_allocator.c:123-163 | a new empty slab in front of the partial list makes nothing live and brings exactly its pages into use |
| SlabAllocator.SlabAllocator.Refill | kernel/src/memory/slab_allocator.c:123-163 | the cache gets one empty slab, its header taken first where headers lie elsewhere; exactly when that header cannot be had the pages are given up, which ends as their frames decide and, if well, changes nothing but the frames lost |
| SlabAllocator.SlabAllocator.Kfree | kernel/src/memory/slab_allocator.c:253-287 | ends as free_pages does for the range that the pointer was the last on, and well if it was not the last; then callers hold exactly it less, exactly the ranges left without use are given up, and exactly the frames dropped by that scan are lost |
| SlabAllocator.SlabAllocator.FreeFromSlabList | kernel/src/memory/slab_allocator.c:202-251 | frees the object, with the outcome of kfree, if a slab of the list holds it, and else changes nothing and no slab of the list holds it |
| SlabAllocator.SlabAllocator.TakeBack | kernel/src/memory/slab_allocator.c:205-225 | exactly this object is no longer live and is the next that its slab gives out; a full slab comes in front of the partial list |
| SlabAllocator.SlabAllocator.FreeObject | kernel/src/memory/slab_allocator.c:205-245 | the outcome of kfree for an object: its slab is given up exactly if it was the last, and then its separate header is freed |
| SlabAllocator.SlabAllocator.FreeRecord | kernel/src/memory/slab_allocator.c:268-280 | the outcome of kfree for a page allocation: it ends as free_pages does for its pages, and if that is well its record is unlinked and freed |
| SlabAllocator.SlabAllocator.DropSlab | kernel/src/memory/slab_allocator.c:227-243 | the pages of an empty slab go to free_pages, whose verdict it returns; if that is well the slab is gone and a separate header is no longer kept |
| SlabAllocator.FreeAll | kernel/src/memory/slab_allocator.c:253-287 | freeing everything callers hold, in any order, ends well if and only if the frames of every range in use are cut into blocks; then all lists are empty, no range is mapped, and exactly the frames dropped by the scans are lost |
| SlabAllocator.AllocThenFree | kernel/src/memory/slab_allocator.c:99-287 | kfree undoes kalloc: what callers hold and the ranges mapped are as before whenever free_pages ends well for the pages that were needed, as it always does up to 1024 bytes |
| SlabAllocator.ThreePagesStop | kernel/src/memory/slab_allocator.c:102-116 | 12288 bytes on three neighbouring frames: kfree stops at the assertion of paging.c:512 |
| SlabAllocator.RecordWithoutMemory | kernel/src/memory/slab_allocator.c:109-113 | on a fresh allocator a request for whole pages without memory for its record faults |
| KernelHeap.GetPages | kernel/src/memory.c:10-20 | pages from alloc_pages for the slab allocator: none of them in use, their frames taken from the free ones, every frame still in one place, and all of them writable, cached, for the kernel only and, where that can be prevented, not executable |
| KernelHeap.Heap.Fetch | kernel/src/memory/slab_allocator.c:104-141 | the calls of alloc_pages that one kalloc makes meet what the slab allocator takes for granted of them |
| KernelHeap.Heap.GiveBack | kernel/src/memory/slab_allocator.c:233-238 | free_pages on a range of the slab allocator ends as its frames decide; if well, its frames are free or lost and nothing else changes |
| KernelHeap.Heap.Kalloc | kernel/src/memory/slab_allocator.c:99-190 | kalloc over alloc_pages: a new aligned pointer with room for the size, both allocators valid and joined, every range in use mapped to be written, and every frame accounted for; null leaves the slab allocator as it was |
| KernelHeap.Heap.Kfree | kernel/src/memory/slab_allocator.c:253-287 | kfree over free_pages: ends exactly as the frames of the range given up decide; if well, both allocators are valid and joined and every frame is accounted for |
| KernelHeap.Heap.NoByteShared | kernel/src/memory/slab_allocator.c:130-190 | no byte of physical memory belongs to two of the objects, page allocations, headers and free arrays in use, and the processor lets the kernel, and only it, write every one of them |
| KernelHeap.Heap.Run | kernel/src/memory/slab_allocator.c:99-287 | any sequence of kalloc and kfree keeps both allocators valid and joined, callers hold exactly the pointers not yet freed, and all frames are accounted for |
| KernelHeap.Heap.RunAndFreeAll | kernel/src/memory/slab_allocator.c:99-287 | after any sequence and the freeing of everything, all frames are free again but those lost in scans, whenever that ends well |
| KernelHeap.FromBoot | kernel/src/memory/slab_allocator.c:68-287 | the same from fresh kernel memory on |
| SlabList.SlabList.PushFront | kernel/src/memory/slab_allocator.c:158-162 | the list gains the slab in front, links in both directions agree |
| SlabList.SlabList.PushFormerHead | kernel/src/memory/slab_allocator.c:181-184 | the list gains the slab in front though its back pointer is not stored again |
| SlabList.SlabList.Remove | kernel/src/memory/slab_allocator.c:192-200 | the list loses exactly that slab, links in both directions agree |
| SlabList.FrontMoves | kernel/src/memory/slab_allocator.c:175-184 | the front of the partial list becomes the front of the full list, both well formed |
| SlabList.FullMoves | kernel/src/memory/slab_allocator.c:214-223 | a full slab becomes the front of the partial list, both well formed |
| EntryPool.FewGetsServed | kernel/src/memory/entry_pool.c:37-41 | a list of n entries serves any mix of calls with at most n gets |
| EntryPool.CallsConserve | kernel/src/memory/entry_pool.c:25-48 | along any calls every entry is listed or given out, never both |
| EntryPool.EntriesAreSpread | kernel/src/memory/entry_pool.c:12-23 | the entries of different pages each lie on one of them, no two of them overlap, and every byte of the pages belongs to one |
| EntryPool.EntryPool.Fill | kernel/src/memory/entry_pool.c:12-23 | the entries of the pages are added in front, from the end of the last page down, and the counter grows by their number; each lies on a page that was given to the pool, and no two overlap |
| EntryPool.EntryPool.Get | kernel/src/memory/entry_pool.c:25-42 | refills exactly once outside a refill below the threshold and never inside one, whatever the allocation does; reads a null head exactly when the list is drained; after a refill it returns the last entry of the new page; the entries stay apart, on pages that refills brought |
| EntryPool.EntryPool.UseEntries | kernel/src/memory/entry_pool.c:29 | the calls inside a refill start no refill and fail exactly when they drain the list |
| EntryPool.EntryPool.Free | kernel/src/memory/entry_pool.c:44-48 | the entry is listed in front and no longer given out |
| EntryPool.EntryPool.Run | kernel/src/memory/entry_pool.c:25-48 | a run that starts with 19 entries to spare never meets an empty list if no refill takes more than 19, and its entries stay apart, on pages that refills brought |
| PoolRefills.FramesForRefill | kernel/src/memory/paging.c:176-199 | the frames of a refill that refills the page pool too cost at most seven splits together, so that with the ten pool entries it takes 17 of the nineteen spare ones at most |
| PoolRefills.FrameForRefill | kernel/src/memory/frame_allocator.c:109-195 | the frame of a refill costs at most seven entries, so that nineteen serve it whatever is given back |
| ByteCopy.MemMove | libc/src/string/memmove.c:3-13 | the destination holds what the source held, whichever way they overlap, and nothing else changes |
| Interrupts.ResumedAsInterrupted | kernel/src/process_system.c:78-123 | a program resumed from the stack of its interrupt finds every register as it was, whatever the kernel left in the registers |
| ProcessQueue.StackPointerIsResumed | kernel/src/process_system.c:51 | the word read as the stack pointer is the one that the return from the interrupt loads |
| ProcessQueue.EveryoneGetsATurn | kernel/src/process_system.c:60-67 | in n rotations each of n entries is in front once, in order, and the list ends as it began |
| ProcessQueue.ProcessQueue.Rotate | kernel/src/process_system.c:60-67 | the linked queue turns by one, tail last |
| ProcessQueue.ProcessQueue.SaveRegisters | kernel/src/process_system.c:50-56 | the twenty words go below the interrupted stack pointer and nothing else in that memory changes |
| ProcessQueue.ProcessQueue.SaveAndTurn | kernel/src/process_system.c:50-69 | the registers lie in the memory that was mapped, the queue has turned and the new head's memory is mapped |
| ProcessQueue.ProcessQueue.ContextSwitch | kernel/src/process_system.c:48-76 | the new head's memory is mapped and its frame is in the registers; the interrupted registers can be found again if and only if the head's own memory was mapped or held the same bytes |
| ProcessQueue.ProcessQueue.SwitchFromHead | kernel/src/process_system.c:48-76 | the frame that waited longest comes back and the interrupted one waits last |
| ProcessQueue.ProcessQueue.TakeTurns | kernel/src/process_system.c:48-76 | over any run frames come back in the order they were saved, unchanged, and the queue has turned once per switch |
| ProcessQueue.ProcessQueue.StoreInitialFrame | kernel/src/process_system.c:166-176 | a process resumed from the new frame finds the entry point, the user segments, the flags and the stack pointer in their registers and zero in all others |
| ProcessQueue.ProcessQueue.Enqueue | kernel/src/process_system.c:178-179 | the process is linked last and its frame waits last |
| ProcessQueue.ProcessQueue.StartProcess | kernel/src/process_system.c:166-180 | with its memory mapped since line 149, the new process waits last, to start at its entry point when it is resumed; no other frame changes, and the mapped memory is no longer the head's |
| ProcessQueue.StartThenSwitch | kernel/src/process_system.c:48-56 | at the first switch after a start, the running process will find in its memory what lay there before, not its registers |
| ProcessQueue.RegistersGoAstray | kernel/src/process_system.c:48-56 | two processes with which the registers found differ from those saved |

## Left out

- SlabAllocator.SlabAllocator.Kalloc: what alloc_pages returns is a parameter, taken to be null or pages used for nothing; KernelHeap shows that alloc_pages meets this.
- KernelHeap.Heap.Kalloc: stops where the virtual range allocator is about to carve with an addition; addresses are without the sign extension.
- SlabAllocator.SlabAllocator.TakeObject: slab lists are sequences of slab values here; the pointer updates of the same steps are proved apart, in SlabList.
- Memory.Memory.FreePages: on a run that passes the assertion but is no block the model stops; what the free lists of the source hold after that is not modelled.
- EntryPool.EntryPool.Run: the calls that alloc_pages(1) makes inside a refill are given, not run, with at most 19 gets among them; FramesForRefill and OneRefillAtMost show at most 17, for allocations that succeed.
- EntryPool.EntryPool.Fill: the 64-bit wrap of the counter is not modelled.
- AddressSpace.AddressSpace.NewTable: pages for new tables come from a stock of mapped, unused pages; that the pages of a refill join the kernel's pool (paging.c:181-199) is not modelled, and neither is the mapping of a process's tables into the kernel space.
- AddressSpace.AddressSpace.GetOrAllocPageEntries: the entry cannot change between the look at it and its filling, since no refill comes between; FillEntry has the refill for page tables, while for page directories and in the page allocator it is left out.
- MemoryRuns.KernelMemory: the page tables start out empty; the mappings of the boot code are addresses that are handed out and stay unmapped.
- FrameAllocator.FrameAllocator.AllocFrames: list entries are taken from a stocked entry pool, whose refill EntryPool treats by itself.
- ProcessQueue.ProcessQueue.ContextSwitch: an address space is a byte array with one slot that says which is mapped; the handler's other steps, the local APIC among them, are not modelled.
- Free lists of the frame allocator and of the virtual ranges are sequences of addresses; their next pointers are not modelled.
- Page entries are records with a field for each group of bits; their packing, and frame numbers beyond 40 bits, are not modelled.
- Byte offsets inside a frame and addresses that are not page aligned are modelled only in translation.
- delete_address_space, which frees tables but not the pages mapped by them.
- initialize_paging, the scan of the firmware's memory map, and the bootstrap of the entry and page pools.
- Invalidation of the TLB, CR3, descriptor tables, interrupts and system calls.
- The ELF loader, so the memory of a new process is arbitrary when its first frame is stored.
- Drivers, ACPI, rendering and the other string and conversion functions: nothing in them carries over from call to call that is hard to keep.
