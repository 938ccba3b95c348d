# A verified model of Scudo

Scudo is a hardened memory allocator. This project models the parts of it that keep
the books: which block is where, which pages may go back to the system, who may sleep
and who will wake them. It proves what these parts promise, for all inputs and all
runs. `dafny verify dfyconfig.toml` checks everything.

The modules follow the program:

- **Page release.** `PageMap` (packed counters), `Tiles` (blocks against pages),
  `PageCounts`, `RangeMarking`, `BlockMarking`, `RangeTracker`, `PageRelease`,
  `PageReleaseRun` and `PageReleaseTheorems` are release.h. A page is released exactly
  when no block in use is on it.
- **The primary allocator.** `Carving` (cutting a region into blocks), `BlockArrays`,
  `Shuffling`, `FreeList`, `PushOrder` (each group is a stack), `GroupMerge` and
  `PrimaryRegion` are the grouped free list of primary64.h;
  `BatchClassList` is its batch class, whose list lives in the blocks that it lists;
  `LocalCache` is size_class_allocator.h. `GroupGeometry`, `GroupMarking`,
  `GroupRelease` and `ReleasedPages` are a page release of extracted groups, and
  `ReleaseProtocol` is such a release among other threads; `ReleaseSteps` shows that the
  operations are its steps. `CacheRun` and `CacheSteps` add the caches of all threads.
- **Synchronisation.** `HybridMutex` is the futex mutex of linux.cpp;
  `PopulateProtocol` is popBlocksWithCV over the condition variable. Both are state
  machines over the atomic steps of any number of threads.
- **Quarantine.** `Quarantine`, `QuarantineRun` for any number of threads, and
  `QuarantineSteps`, which shows that what each operation does within its lock is a step.
- **The secondary allocator.** `CachedBlocks`, `SecondaryFit` and `SecondaryCache`;
  `Placement` for fresh mappings.
- **Sizes and headers.** `SizeGrid`, `SizeClassMap`, `TableSizeClassMap`,
  `ChunkHeader`, `Placement` and `Combined`.
- **Smaller cores.** `StackDepot`, `TsdShared`, `IntrusiveList`.
- **Arithmetic.** `Common`, `Bits`, `Rounding`.

Page sizes, block sizes, group sizes and class configurations are parameters
throughout. Page and group sizes are powers of two given by their logarithms.
Futex calls, mappings and madvise are steps or recorded calls. Whether a mapping
succeeds, whether a lock is free, random numbers, checksums and hashes are parameters.

Two promises of the program do not hold for all inputs. The model follows the code:

- The comment at `combined.h:380-387` has every request, also one of zero bytes, get room
  for the least alignment behind the header. It does exactly if bytes are asked for or the
  alignment is above the least one (`Placement.RoomBehindHeader`); a request of zero bytes
  at the least alignment gets the header only (`Placement.ZeroSizedRequest`).
- `secondary.h:346-355` is to release what is older than an interval. Before the clock has
  reached the interval the 64-bit subtraction wraps around, and everything is released,
  blocks just stored included (`SecondaryCache.NewBlockReleased`). Exactly from then on
  only old blocks are (`SecondaryCache.OnlyOldReleased`, `MapAllocatorCache.Store`).

Assumptions that the program makes of its surroundings appear as preconditions: blocks
that are given back were handed out before; the clock of the secondary cache is
positive and does not go back; the capacity of a batch of the batch class is at least
two; a region with one group only holds blocks of one group.

## Model

| member | source | states |
|---|---|---|
| PageMap.RegionPageMap.Reset | LLVM_SCUDO_MTE/release.h:232-261 | the counter width, packing ratio and buffer size chosen for any maximum give every counter room for that maximum; all counters read 0, or there is no map |
| PageMap.RegionPageMap.Get | LLVM_SCUDO_MTE/release.h:265-272 | the shifted and masked bits of one word are the value of the abstract counter |
| PageMap.RegionPageMap.IncN | LLVM_SCUDO_MTE/release.h:284-293 | adding to the packed word bumps one counter by N and no other, as long as the result fits the mask |
| PageMap.RegionPageMap.Inc | LLVM_SCUDO_MTE/release.h:274-282 | the same for one step |
| PageMap.RegionPageMap.IncRange | LLVM_SCUDO_MTE/release.h:295-300 | exactly the counters of the range go up by one, the range being cut at the last counter |
| PageMap.RegionPageMap.SetAsAllCounted | LLVM_SCUDO_MTE/release.h:302-311 | or-ing the mask into the word sets one counter to the mask and leaves its neighbours |
| PageMap.RegionPageMap.SetAsAllCountedRange | LLVM_SCUDO_MTE/release.h:313-318 | the same for a range |
| PageMap.RegionPageMap.UpdateAsAllCountedIf | LLVM_SCUDO_MTE/release.h:320-332 | true exactly when the counter is the mask or the expected count, and then it becomes the mask |
| PageMap.AddRefinesBump | LLVM_SCUDO_MTE/release.h:284-293 | an addition on the packed word refines the bump of one natural number in a table, for every layout, region and index |
| Bits.FieldAddIndependent | LLVM_SCUDO_MTE/release.h:284-293 | adding to one bit field does not disturb any other field of the word |
| Bits.PowerOfTwoTest | LLVM_SCUDO_MTE/common.h:31-35 | `X & (X - 1)` is 0 for a positive X exactly when X is a power of two |
| Bits.MaskRoundingIsSlowRounding | LLVM_SCUDO_MTE/common.h:37-51 | below wrap-around the mask forms of roundUp and roundDown agree with the division forms |
| Common.RoundUpPowerOfTwoIsLeast | LLVM_SCUDO_MTE/common.h:76-84 | the result is the least power of two that is not below the argument |
| Tiles.TilesOnOverlap | LLVM_SCUDO_MTE/release.h:397-441 | the interval of blocks computed for a page is exactly the set of blocks that share a byte with it |
| Tiles.ExpectedCountCorrect | LLVM_SCUDO_MTE/release.h:400-429 | where the constructor says that all pages have the same count, every page at any offset has it; elsewhere it is an upper bound |
| Tiles.BoundaryStepCorrect | LLVM_SCUDO_MTE/release.h:671-702 | one step of the boundary walk yields the number of blocks on the page and the boundary for the next page |
| PageReleaseRun.CountPage | LLVM_SCUDO_MTE/release.h:689-701 | started at the first block boundary of any page, the statements of the walk count the blocks on that page and end at the first boundary of the next |
| PageReleaseRun.StartBoundary | LLVM_SCUDO_MTE/release.h:683-688 | with a release offset the walk starts at the boundary of the first counted page |
| PageCounts.CountMore | LLVM_SCUDO_MTE/release.h:284-293 | counting the tiles of a disjoint set keeps every counter equal to the number of marked tiles on its page, and cannot overflow |
| PageCounts.ReleasableIffMarked | LLVM_SCUDO_MTE/release.h:320-332 | a counter shows the full count exactly when all tiles of the page are marked |
| PageRelease.PageReleaseContext.constructor | LLVM_SCUDO_MTE/release.h:397-441 | the context covers the pages of the release range from the page of its offset on, and nothing is marked |
| PageRelease.PageReleaseContext.FullPageCount | LLVM_SCUDO_MTE/release.h:400-429 | no page at any offset has more blocks than the maximum, and all have as many if the flag says so |
| PageRelease.PageReleaseContext.EnsurePageMapAllocated | LLVM_SCUDO_MTE/release.h:448-455 | a fresh map stands for no marked tile; an existing map is kept |
| PageRelease.PageReleaseContext.MarkRangeAsAllCounted | LLVM_SCUDO_MTE/release.h:460-546 | the counters afterwards say that exactly the tiles of the range were added to the marked ones, without visiting a block |
| RangeMarking.RangeMarksRow | LLVM_SCUDO_MTE/release.h:460-546 | bumping the first page, the spill-over of the last block, and filling the pages between counts for every page the tiles of the range on it |
| PageReleaseTheorems.RangeMarksItsBlocks | LLVM_SCUDO_MTE/release.h:456-546 | the tiles of a range are the blocks that start in it and, if the last block of the region is among them, the pretend blocks |
| PageRelease.PageReleaseContext.MarkFreeBlocksInRegion | LLVM_SCUDO_MTE/release.h:549-616 | exactly the tiles of the listed blocks, and the trailing ones if asked for, become marked |
| PageRelease.PageReleaseContext.MarkBlock | LLVM_SCUDO_MTE/release.h:592-613 | one block is counted on every page it touches |
| PageRelease.PageReleaseContext.MarkTrailingBlocks | LLVM_SCUDO_MTE/release.h:557-590 | the pretend blocks after the last one are counted on the last page |
| BlockMarking.TrailingMarksRow | LLVM_SCUDO_MTE/release.h:557-590 | bumping the last page by the number of pretend blocks marks exactly the trailing tiles |
| RangeTracker.FreePagesRangeTracker.ProcessNextPage | LLVM_SCUDO_MTE/release.h:361-371 | one more verdict; the calls made so far are the closed runs of the verdicts |
| RangeTracker.FreePagesRangeTracker.SkipPages | LLVM_SCUDO_MTE/release.h:373-376 | skipped pages count as pages that are kept |
| RangeTracker.FreePagesRangeTracker.Finish | LLVM_SCUDO_MTE/release.h:378-389 | the calls are the maximal runs of pages to release, in order, and the released bytes are their sum |
| RangeTracker.RunsUnique | LLVM_SCUDO_MTE/release.h:356-394 | no other list of separated ranges covers the same pages |
| PageReleaseRun.ReleasePage | LLVM_SCUDO_MTE/release.h:663-665 | a page is passed on as free exactly when all tiles on it are marked |
| PageReleaseRun.ReleaseRegionFast | LLVM_SCUDO_MTE/release.h:656-667 | all pages of a region, with the constant count |
| PageReleaseRun.ReleaseRegionSlow | LLVM_SCUDO_MTE/release.h:669-706 | all pages of a region, with the count from the boundary walk |
| PageReleaseRun.ReleaseFreeMemoryToOS | LLVM_SCUDO_MTE/release.h:641-709 | what is asked of the system are the maximal runs of pages whose tiles are all marked, region by region, without those of skipped regions |
| PageReleaseTheorems.MarkedPageHasNoBlockInUse | LLVM_SCUDO_MTE/release.h:549-616 | with the free and the pretend blocks marked, all tiles of a page are marked exactly when no block in use is on it |
| PageReleaseTheorems.ReleaseWholeRegion | LLVM_SCUDO_MTE/release.h:549-709 | for every block size, page size, block count and set of free blocks, exactly the pages that no block in use overlaps are released, as maximal increasing ranges |
| Carving.Layout.PointerRoundTrip | LLVM_SCUDO_MTE/primary64.h:213-218 | decompacting the compact pointer of a block gives the block |
| Carving.Layout.BlocksDistinct | LLVM_SCUDO_MTE/primary64.h:735-738 | no two blocks cut from a region have the same compact pointer |
| Carving.Layout.SomeBlocksFit | LLVM_SCUDO_MTE/primary64.h:702-730 | after mapping, at least one block can be cut and all that are cut fit |
| Carving.Layout.MapSizeLeast | LLVM_SCUDO_MTE/primary64.h:702-706 | what is mapped is the least multiple of the increment with which a full batch fits |
| Carving.Layout.CutsAllThatFit | LLVM_SCUDO_MTE/primary64.h:724-728 | one more block would not fit the mapped memory or the largest number of blocks to cut at once |
| BlockArrays.SortByGroup | LLVM_SCUDO_MTE/primary64.h:801-817 | the in-place insertion sort orders the blocks by group, permutes them, keeps the order within each group, and its flag tells exactly whether they share one group |
| BlockArrays.Shuffle | LLVM_SCUDO_MTE/common.h:110-117 | the elements of the range become the shuffle that the random numbers determine, a permutation, and nothing outside moves |
| Shuffling.ShuffledSame | LLVM_SCUDO_MTE/common.h:110-117 | whatever the random numbers, the elements are permuted |
| Shuffling.EveryOrder | LLVM_SCUDO_MTE/common.h:110-117 | every order of the elements comes from some random numbers |
| FreeList.NumBlocksExact | LLVM_SCUDO_MTE/primary64.h:1630-1633 | the count computed from the number of batches and the front batch is the number of blocks of the group |
| FreeList.BlockGroup | LLVM_SCUDO_MTE/primary64.h:827-842 | every block in the list is in the group of its own base |
| PrimaryRegion.InsertBlocks | LLVM_SCUDO_MTE/primary64.h:866-887 | the blocks of the array end up on top of the stack that the group is, only the front batch is partial, and every metadata block taken is in the group |
| PrimaryRegion.RegionInfo.FindOrCreateGroup | LLVM_SCUDO_MTE/primary64.h:890-908 | the walk ends at the group of the block, a new one being put where the order asks for it; no block is gained or lost, and no other group changes |
| PrimaryRegion.RegionInfo.PushBlocksImpl | LLVM_SCUDO_MTE/primary64.h:844-948 | the list stays in order, and every group gets exactly its share of the blocks on top of its stack and remembers what it did; metadata blocks are in use, taken or returned |
| PrimaryRegion.RegionInfo.PushBlocks | LLVM_SCUDO_MTE/primary64.h:783-825 | the same for an array in any order, whose blocks keep their order within each group |
| PushOrder.PoppedFromTop | LLVM_SCUDO_MTE/primary64.h:605-674 | popping takes from the top of the first stack and from no other, and forgets a group that becomes empty |
| PushOrder.LastInFirstOut | LLVM_SCUDO_MTE/primary64.h:605-948 | of its group, what is popped next is what was pushed last |
| PrimaryRegion.RegionInfo.KeepInFront | LLVM_SCUDO_MTE/primary64.h:649-669 | an emptied batch, and then an emptied group, goes back to the batch class |
| PrimaryRegion.RegionInfo.PopBlocksImpl | LLVM_SCUDO_MTE/primary64.h:605-674 | the last blocks of the front batch, as many as asked for or all of them, leave the list, all of the first group; nothing is popped exactly if the list is empty or none are asked for; the rest stays in order |
| PrimaryRegion.RegionInfo.MapMore | LLVM_SCUDO_MTE/primary64.h:700-722 | more memory is mapped only if needed; the region is exhausted exactly if it would grow beyond its size |
| PrimaryRegion.RegionInfo.CutBlocks | LLVM_SCUDO_MTE/primary64.h:732-738 | the blocks cut are the next ones of the region |
| PrimaryRegion.RegionInfo.PushShuffled | LLVM_SCUDO_MTE/primary64.h:742-761 | each run of blocks of one group is shuffled with its own random numbers and pushed in that order; exactly the cut blocks join the list |
| PrimaryRegion.RegionInfo.PopulateFreeListAndPopBlocks | LLVM_SCUDO_MTE/primary64.h:677-781 | as many new blocks as fit are cut and listed, each run of one group shuffled, and the front batch is popped from; no block is lost; it fails exactly if the region is exhausted, would outgrow its size, or cannot be mapped, and then no block moves |
| PrimaryRegion.RegionInfo.PopBlocks | LLVM_SCUDO_MTE/primary64.h:468-523 | from the front batch of the list or, if that is empty, of new blocks; nothing is handed out exactly if the list is empty and no new blocks can be cut, and no block is lost |
| PrimaryRegion.RegionInfo.CollectGroupsToRelease | LLVM_SCUDO_MTE/primary64.h:1415-1429 | the list is split: every block and every metadata block is in exactly one of the two parts, and both are in order |
| PrimaryRegion.RegionInfo.ExtractPicked | LLVM_SCUDO_MTE/primary64.h:1609-1747 | the walk with in-place extraction leaves the groups that are kept and yields the ones that are taken |
| GroupMerge.Criteria.SplitOk | LLVM_SCUDO_MTE/primary64.h:1593-1763 | both parts are well formed and share no group base |
| GroupMerge.Criteria.TakenGrew | LLVM_SCUDO_MTE/primary64.h:1632-1649 | a taken group has grown since its last checkpoint and now records its exact size in bytes |
| GroupMerge.Criteria.TakenIff | LLVM_SCUDO_MTE/primary64.h:1634-1696 | a group is taken out exactly if its free bytes have grown by at least one and by the least attempt size and it is dense; then it records its bytes, and otherwise the lesser of its bytes and what it remembered |
| PrimaryRegion.RegionInfo.MergeBatches | LLVM_SCUDO_MTE/primary64.h:1889-1922 | two groups with one base become one, at most one batch being left over |
| GroupMerge.JoinContents | LLVM_SCUDO_MTE/primary64.h:1894-1922 | joining two groups loses no block and no batch except the one left over |
| GroupMerge.JoinOk | LLVM_SCUDO_MTE/primary64.h:1894-1922 | afterwards only the front batch is partial |
| GroupMerge.JoinStack | LLVM_SCUDO_MTE/primary64.h:1894-1922 | as a stack, what is merged in goes below, except that its partial batch goes on top, with the blocks that fill up the other partial batch first |
| GroupMerge.MergeCheckpoints | LLVM_SCUDO_MTE/primary64.h:1889-1892 | after a merge every group remembers what it did, and if it was in both lists what the one merged in remembers |
| PrimaryRegion.RegionInfo.MergeWalk | LLVM_SCUDO_MTE/primary64.h:1864-1963 | the walk with its buffer of eight computes the sorted merge and returns all left-over metadata, in order |
| PrimaryRegion.RegionInfo.MergeGroupsToReleaseBack | LLVM_SCUDO_MTE/primary64.h:1845-1977 | the merged list is sorted and holds every block of both lists; every metadata block is in use or returned |
| GroupMerge.CollectThenMerge | LLVM_SCUDO_MTE/primary64.h:1593-1977 | merging at once what was collected gives the same groups with the same batches, each remembering its bytes as collecting records them, and nothing is left over |
| GroupGeometry.Area.PointerInGroup | LLVM_SCUDO_MTE/primary64.h:219-226 | every block lies in the memory of its own group, and groups are aligned |
| GroupGeometry.Area.StartsCount | LLVM_SCUDO_MTE/primary64.h:1798-1812 | no more blocks start in a group than the expected number, for any block and group size |
| GroupGeometry.Area.StartsCountExact | LLVM_SCUDO_MTE/primary64.h:1798-1812 | the expected number is that of the blocks that start in the group, or one more exactly if the group ends within a block and the bytes before its first block are more than what whole blocks leave over; such a group never counts as full |
| GroupGeometry.Area.AllBlocksFree | LLVM_SCUDO_MTE/primary64.h:1814-1817 | as many different free blocks as expected are all the blocks that start in the group |
| GroupMarking.FullMeansFree | LLVM_SCUDO_MTE/primary64.h:1814-1828 | a group whose count is the expected one holds every block that starts in it |
| GroupMarking.FullGroupMarks | LLVM_SCUDO_MTE/primary64.h:1817-1827 | marking the memory of such a group marks its free blocks, and pretend blocks only with the last block of the region |
| GroupMarking.MarksBefore | LLVM_SCUDO_MTE/primary64.h:1797-1837 | what is marked for a group ends before the next group with a free block |
| GroupRelease.MarkGroup | LLVM_SCUDO_MTE/primary64.h:1797-1837 | by range or block by block, the marks of the group are added |
| GroupRelease.MarkFreeBlocks | LLVM_SCUDO_MTE/primary64.h:1766-1842 | the map covers all extracted groups and exactly their tiles are marked, or nothing without memory for the map |
| ReleasedPages.AllMarksExact | LLVM_SCUDO_MTE/primary64.h:1797-1837 | marked are the free blocks of the groups, and pretend blocks exactly if the last group reaches the end of the region |
| ReleasedPages.ReleasedIff | LLVM_SCUDO_MTE/primary64.h:1766-1842 | a page is released exactly when all real blocks on it are in the extracted groups and pretend blocks on it, if any, were marked |
| ReleasedPages.ReleaseGroups | LLVM_SCUDO_MTE/primary64.h:1451-1466 | steps 3 and 4 of a release: the calls are the maximal runs of exactly these pages |
| ReleaseProtocol.StepInv | LLVM_SCUDO_MTE/primary64.h:1378-1512 | pushes, pops, refills and the steps of a release keep every block in exactly one place, both lists in order, and released pages clear of blocks outside the extracted groups |
| ReleaseProtocol.ReleaseIsSafe | LLVM_SCUDO_MTE/primary64.h:1378-1512 | at every moment of every run no block on a released page is in use, cached, or in the free list |
| ReleaseProtocol.ReleaseNeverStuck | LLVM_SCUDO_MTE/primary64.h:1415-1509 | what was collected can always be marked and then merged back |
| PrimaryRegion.RegionInfo.constructor | LLVM_SCUDO_MTE/primary64.h:377-396 | a new region is in order and accounts for its memory, with nothing mapped, cut or listed |
| ReleaseSteps.NewRegion | LLVM_SCUDO_MTE/primary64.h:377-396 | a new region is where the runs of the protocol start |
| ReleaseSteps.Push | LLVM_SCUDO_MTE/primary64.h:783-948 | pushing blocks that the caller owns is a push step of the protocol, whatever phase a release is in |
| ReleaseSteps.Pop | LLVM_SCUDO_MTE/primary64.h:605-674 | popping from the free list is a pop step |
| ReleaseSteps.Populate | LLVM_SCUDO_MTE/primary64.h:677-781 | a refill that yields blocks is a refill step, and one that fails changes nothing |
| ReleaseSteps.Collect | LLVM_SCUDO_MTE/primary64.h:1387-1430 | steps 1 and 2 of a release are a collect step |
| ReleaseSteps.Release | LLVM_SCUDO_MTE/primary64.h:1451-1466 | steps 3 and 4 are a release step: the pages of the protocol are those that the calls cover as maximal runs |
| ReleaseSteps.MergeBack | LLVM_SCUDO_MTE/primary64.h:1509 | step 5 is a merge step |
| BatchClassList.StoredInside | LLVM_SCUDO_MTE/primary64.h:957-990 | the list of the batch class is stored in blocks that it records as free |
| BatchClassList.BatchRegion.PushBatchClassBlocks | LLVM_SCUDO_MTE/primary64.h:951-1053 | every batch records itself and the last one the group; exactly the given blocks join the list |
| BatchClassList.BatchRegion.PopBlocksImpl | LLVM_SCUDO_MTE/primary64.h:605-674 | the whole front batch, or the block of a group without batches, is popped; no popped block still stores the list |
| BatchClassList.BatchClass.GetBatchClassBlock | LLVM_SCUDO_MTE/size_class_allocator.h:98-103 | the newest cached block is taken for metadata, after a refill if there is none; every block stays accounted for |
| BatchClassList.BatchClass.Return | LLVM_SCUDO_MTE/size_class_allocator.h:60-76 | a metadata block comes back on top of the cache, the older half of a full cache being given to the free list first |
| BatchClassList.BatchClass.Refill | LLVM_SCUDO_MTE/size_class_allocator.h:164-170 | the cache gets the whole front batch; new blocks are cut exactly if the list is empty |
| BatchClassList.StorageIsFree | LLVM_SCUDO_MTE/primary64.h:974-990 | as long as only blocks that went out come back, no cached or handed-out block stores the list |
| LocalCache.PerClass.Allocate | LLVM_SCUDO_MTE/size_class_allocator.h:40-57 | the newest cached block is handed out, after a refill if there is none; it fails exactly if the cache and the free list are empty and nothing can be cut; every block stays in one place |
| LocalCache.PerClass.Deallocate | LLVM_SCUDO_MTE/size_class_allocator.h:60-76 | the block goes on top of the cache, after the older half of a full cache went to the free list, and only then |
| LocalCache.PerClass.Refill | LLVM_SCUDO_MTE/size_class_allocator.h:164-170 | the empty cache is filled with what is popped, up to half of its capacity, and stays empty exactly if nothing is listed and nothing can be cut |
| LocalCache.PerClass.DrainHalf | LLVM_SCUDO_MTE/size_class_allocator.h:172-179 | the oldest blocks go on top of the free list, each in its group, and the others move down in order |
| LocalCache.PerClass.BytesInFreeList | LLVM_SCUDO_MTE/primary64.h:1392-1395 | what a release computes as the bytes in the free list is the size of the free list and the extracted groups |
| LocalCache.Cache.Drain | LLVM_SCUDO_MTE/size_class_allocator.h:85-96 | afterwards every class is empty, the batch class included although draining the others uses it, and every block is accounted for |
| LocalCache.PerClass.FirstLedger | LLVM_SCUDO_MTE/size_class_allocator.h:26-33 | an empty cache over a new region accounts for all blocks |
| CacheRun.StepInv | LLVM_SCUDO_MTE/size_class_allocator.h:40-179 | allocations, deallocations, refills and drains of any threads, and the steps of releases, keep what is out equal to what users and all caches have |
| CacheRun.InOnePlace | LLVM_SCUDO_MTE/size_class_allocator.h:40-179 | in every run each block that was cut is exactly once with the user, in one cache, in the free list, or in an extracted group |
| CacheRun.ReleasedNotInUse | LLVM_SCUDO_MTE/primary64.h:1378-1512 | in every run no block on a released page is with the user or in any cache |
| CacheSteps.Allocate | LLVM_SCUDO_MTE/size_class_allocator.h:49-57 | taking the block on top of a cache is a step of these runs |
| CacheSteps.Deallocate | LLVM_SCUDO_MTE/size_class_allocator.h:69-75 | putting a block of the user on top of a cache is a step |
| CacheSteps.Refill | LLVM_SCUDO_MTE/size_class_allocator.h:164-170 | a refill is a step: it pops from the free list or, if that is empty and no release is under way, cuts new blocks |
| CacheSteps.Drain | LLVM_SCUDO_MTE/size_class_allocator.h:172-179 | draining the oldest half of a cache is a step that pushes them |
| HybridMutex.StepInv | LLVM_SCUDO_MTE/linux.cpp:110-140 | at most one thread is between acquiring and freeing, the word is unlocked exactly without an owner, and sleepers are announced or about to be seen to |
| HybridMutex.MutualExclusion | LLVM_SCUDO_MTE/linux.cpp:110-140 | no two threads are in the critical section in any run |
| HybridMutex.UnlockIsPossible | LLVM_SCUDO_MTE/linux.cpp:134-140 | the decrement of unlock never takes the word below zero |
| HybridMutex.TryLockIff | LLVM_SCUDO_MTE/linux.cpp:114-117 | in every reachable state tryLock acquires the mutex exactly if nobody owns it, and changes nothing otherwise |
| HybridMutex.LockSlowIff | LLVM_SCUDO_MTE/linux.cpp:119-132 | so do the first attempt of lockSlow and each exchange; a thread that fails goes on, at once to sleep if sleepers are announced, and sleeps only while somebody owns the mutex |
| HybridMutex.CanAcquire | LLVM_SCUDO_MTE/linux.cpp:119-140 | from every reachable state real steps lead any thread that locks into the critical section, by its first step if the mutex is free |
| HybridMutex.CanUnlock | LLVM_SCUDO_MTE/linux.cpp:134-140 | the owner can unlock without help: in one step if no sleeper was announced, and else in three, after which nobody owns the mutex and exactly one sleeper, if there is any, is awake |
| HybridMutex.WakesOne | LLVM_SCUDO_MTE/linux.cpp:134-140 | whichever sleeper is picked, one wakes and nobody else moves |
| HybridMutex.SleeperCanWake | LLVM_SCUDO_MTE/linux.cpp:119-140 | in every state with a sleeper at most four steps lead to a sleeper being woken, without a spurious wake-up |
| PopulateProtocol.StepInv | LLVM_SCUDO_MTE/primary64.h:526-602 | free blocks and those out add up to the ones cut; one populator at most, one notifier at most, and every sleeper has a ticket newer than the last notification and somebody who will notify it |
| PopulateProtocol.NoBlockLost | LLVM_SCUDO_MTE/primary64.h:526-602 | in every run the free blocks and those popped add up to the ones cut, whose number never falls |
| PopulateProtocol.WaitsOnlyIfEmpty | LLVM_SCUDO_MTE/primary64.h:538-597 | a thread that looks at the free list waits exactly if there is no free block and another thread populates; it returns exactly if there is a free block, with at least one; it populates exactly if nobody else does |
| PopulateProtocol.SleepsIff | LLVM_SCUDO_MTE/condition_variable_linux.cpp:39-48 | a waiter falls asleep exactly if since it took its ticket no other thread started to wait and none notified |
| PopulateProtocol.AtMostOnePopulator | LLVM_SCUDO_MTE/primary64.h:538-568 | two threads never populate at once |
| PopulateProtocol.SleeperHasNotifier | LLVM_SCUDO_MTE/primary64.h:570-597 | a sleeping thread implies another one that will notify it |
| PopulateProtocol.NotifyIsComplete | LLVM_SCUDO_MTE/condition_variable_linux.cpp:24-37 | after notifyAll, with or without the wake-up, nobody sleeps and no earlier waiter can fall asleep on its ticket |
| PopulateProtocol.SleepersCanWake | LLVM_SCUDO_MTE/condition_variable_linux.cpp:24-48 | four steps of the populator or notifier wake all sleepers, even if nothing could be populated |
| PopulateProtocol.CanGetOn | LLVM_SCUDO_MTE/primary64.h:526-602 | from every state that keeps the invariant real steps bring any thread in the loop to blocks or to populating the free list itself |
| Quarantine.QuarantineCache.Enqueue | LLVM_SCUDO_MTE/quarantine.h:75-86 | the chunk is last in order, in a new batch exactly if the last one is full or missing; the size stays the sum over the batches |
| Quarantine.QuarantineCache.Transfer | LLVM_SCUDO_MTE/quarantine.h:88-92 | all batches move behind those of the other list |
| Quarantine.QuarantineCache.DequeueBatch | LLVM_SCUDO_MTE/quarantine.h:99-106 | the oldest batch leaves |
| Quarantine.QuarantineCache.MergeBatches | LLVM_SCUDO_MTE/quarantine.h:108-128 | merging ends, keeps the order of all chunks, leaves no two neighbours that could be merged, and loses no byte of the accounts |
| Quarantine.GlobalQuarantine.Put | LLVM_SCUDO_MTE/quarantine.h:201-205 | the chunk is last in its cache; only a cache over its limit is drained, and what is recycled then is determined as for drain |
| Quarantine.GlobalQuarantine.Drain | LLVM_SCUDO_MTE/quarantine.h:207-217 | the batches of the cache follow; only if the size exceeds the maximum and this thread may recycle, all but the longest suffix within the minimum size is recycled |
| Quarantine.GlobalQuarantine.Recycle | LLVM_SCUDO_MTE/quarantine.h:256-286 | what remains is the longest suffix of batches, after merging if that is due, whose size is at most the given one; everything before it is recycled, and nothing is if the size already fits |
| Quarantine.GlobalQuarantine.TakeOldest | LLVM_SCUDO_MTE/quarantine.h:260-284 | merging exactly if the overhead exceeds its share, then taking batches from the oldest until the rest fits, and not one more |
| Quarantine.LongestSuffix | LLVM_SCUDO_MTE/quarantine.h:280-283 | no longer suffix of the batches fits than the one left by taking as few as needed |
| Quarantine.GlobalQuarantine.DoRecycle | LLVM_SCUDO_MTE/quarantine.h:288-304 | every chunk of every batch is recycled once, each batch shuffled with its own random numbers, and every batch freed |
| Quarantine.GlobalQuarantine.DrainAndRecycle | LLVM_SCUDO_MTE/quarantine.h:219-226 | afterwards the global quarantine counts no bytes, so that, as a batch counts for some, it is empty and everything in it was recycled |
| QuarantineRun.RecycledOnce | LLVM_SCUDO_MTE/quarantine.h:201-304 | over all runs of any number of threads no chunk is recycled more often than it was put, and all are once nothing waits |
| QuarantineRun.GlobalIsNewest | LLVM_SCUDO_MTE/quarantine.h:256-286 | the global list always holds the newest part of what arrived in it |
| QuarantineRun.NothingLeaves | LLVM_SCUDO_MTE/quarantine.h:280-283 | nothing is taken from a global list that already fits |
| QuarantineSteps.Put | LLVM_SCUDO_MTE/quarantine.h:201-203 | putting a chunk into the cache of a thread is a step of these runs |
| QuarantineSteps.Drain | LLVM_SCUDO_MTE/quarantine.h:209-213 | the locked part of drain and of drainAndRecycle is a step |
| QuarantineSteps.TakeOldest | LLVM_SCUDO_MTE/quarantine.h:260-284 | the locked part of recycle, with the merging, is a step |
| QuarantineSteps.RecycleBatch | LLVM_SCUDO_MTE/quarantine.h:289-303 | each round of the loop of doRecycle is a step |
| SecondaryCache.MapAllocatorCache.Insert | LLVM_SCUDO_MTE/secondary.h:539-547 | the block is the most recent one; the two lists share out the slots and the shortcut stays at the oldest present block |
| SecondaryCache.MapAllocatorCache.Remove | LLVM_SCUDO_MTE/secondary.h:549-558 | the block leaves, its slot is free, and the shortcut moves to the next more recent block if it pointed there |
| SecondaryCache.MapAllocatorCache.Evict | LLVM_SCUDO_MTE/secondary.h:329-338 | the least recent blocks are evicted until there is room for one |
| SecondaryCache.MapAllocatorCache.Store | LLVM_SCUDO_MTE/secondary.h:260-359 | through the ring, if there is one, to the front of the list; the rest of the list is what was most recent, and evicted is exactly what was least recent; all that is due in ring and list is released, and that is only blocks of at least the age of the interval exactly if the clock has reached the interval |
| SecondaryCache.MapAllocatorCache.ReleaseOlderThan | LLVM_SCUDO_MTE/secondary.h:577-607 | following the shortcut releases exactly the blocks that a scan of all blocks for times up to the limit would, in the same order |
| SecondaryCache.DueIffOld | LLVM_SCUDO_MTE/secondary.h:346-355 | a block is due exactly if it was stored at least an interval ago, or the clock has not reached the interval, where the 64-bit limit wraps around |
| SecondaryCache.OnlyOldReleased | LLVM_SCUDO_MTE/secondary.h:346-355 | a release gives up only blocks of at least the age of the interval exactly if the clock has reached the interval or there is no block that it could release |
| SecondaryCache.NewBlockReleased | LLVM_SCUDO_MTE/secondary.h:346-355 | with the clock at 1 and an interval of one millisecond a block that was just stored is due |
| SecondaryCache.RingAfterScan | LLVM_SCUDO_MTE/secondary.h:577-607 | releasing in ring and list up to one time keeps the blocks in order of age, so that the shortcut stays right with a ring |
| SecondaryFit.Request.AcceptsIffFits | LLVM_SCUDO_MTE/secondary.h:396-410 | the tests on wrapping words accept exactly the blocks in which the request and its headers fit at an aligned place |
| SecondaryFit.Request.AcceptedPlacement | LLVM_SCUDO_MTE/secondary.h:396-410 | headers and user memory lie in the mapping, the user memory aligned |
| SecondaryFit.FindBest | LLVM_SCUDO_MTE/secondary.h:373-429 | chosen is the first improvement that is close enough, or the block that wastes least; none exactly if none fits |
| SecondaryFit.Request.CloseIff | LLVM_SCUDO_MTE/secondary.h:421-427 | a block is close enough exactly if ten times the pages before the headers fit in the bytes from the headers to its end |
| SecondaryFit.ReleaseStopsBeforeHeaders | LLVM_SCUDO_MTE/secondary.h:454-467 | the pages released from the front of a retrieved block end before its headers |
| SecondaryFit.ReleaseExact | LLVM_SCUDO_MTE/secondary.h:454-467 | released are the pages before the headers beyond those that may stay, up to the most that may be released, and not a page less |
| SecondaryCache.MapAllocatorCache.Retrieve | LLVM_SCUDO_MTE/secondary.h:361-470 | the chosen block leaves the list, the request fits in it, and exactly the pages that are due are released, clear of it |
| Placement.PlaceInMapping | LLVM_SCUDO_MTE/secondary.h:813-870 | for every size and alignment the headers and the user memory lie between the guard pages, the user memory aligned and the unused bytes behind it fewer than the alignment; for alignments from a page up the headers get the page before the first aligned position, and a trimmed mapping keeps only the pages needed |
| Placement.FewestPages | LLVM_SCUDO_MTE/secondary.h:813-816 | up to alignments of a page the mapping is the fewest pages that hold request and headers |
| Placement.RoundedSizeTight | LLVM_SCUDO_MTE/secondary.h:813-816 | above, the request ends where the mapping does if the memory starts at a multiple of the alignment, so that no less would do |
| SizeGrid.ScaledLog2Bracket | LLVM_SCUDO_MTE/size_class_map.h:18-23 | scaledLog2 is the last grid point that is not above the size |
| SizeClassMap.Config.LargeClassSize | LLVM_SCUDO_MTE/size_class_map.h:80-86 | from the middle class on, class sizes are the grid points |
| SizeClassMap.Config.LeastClass | LLVM_SCUDO_MTE/size_class_map.h:95-103 | the class found is the least one whose size fits |
| SizeClassMap.Config.ClassFitsIff | LLVM_SCUDO_MTE/size_class_map.h:95-103 | a class fits a size exactly from the found class on |
| SizeClassMap.Config.ClassRoundTrip | LLVM_SCUDO_MTE/size_class_map.h:80-103 | the class of the size of a class is the class |
| TableSizeClassMap.Config.BuildTable | LLVM_SCUDO_MTE/size_class_map.h:120-130 | entry i of the table is the class of grid point i + 1 |
| TableSizeClassMap.Config.LookupIsSearch | LLVM_SCUDO_MTE/size_class_map.h:208-216 | with steps of the least size below and grid sizes above the middle, the lookup is the linear search for every size |
| TableSizeClassMap.Config.OffGridFails | LLVM_SCUDO_MTE/size_class_map.h:208-216 | a class size off the grid is itself looked up wrongly |
| TableSizeClassMap.Config.LookupRightIff | LLVM_SCUDO_MTE/size_class_map.h:208-216 | with steps of the least size below, the lookup is the linear search for all sizes exactly if all classes above the middle are on the grid |
| ChunkHeader.UnpackPack | LLVM_SCUDO_MTE/chunk.h:64-85 | all six fields are read back from the two halves of the packed word |
| ChunkHeader.PackUnpack | LLVM_SCUDO_MTE/chunk.h:64-85 | every pair of words is what its fields pack to |
| ChunkHeader.NeverBlockMarker | LLVM_SCUDO_MTE/combined.h:1024 | a header with one of the three states never equals the block marker |
| ChunkHeader.Memory.StoreHeader | LLVM_SCUDO_MTE/chunk.h:114-129 | what is stored is what is loaded, and nothing else in memory changes |
| ChunkHeader.Memory.LoadIff | LLVM_SCUDO_MTE/chunk.h:122-129 | a header is loaded exactly if the top sixteen bits of its words are the checksum of cookie, address and the words with these bits zero |
| ChunkHeader.Memory.StoreAndCorrupt | LLVM_SCUDO_MTE/chunk.h:114-129 | a stored header whose low word is changed is reported as corrupt exactly if the checksum differs |
| ChunkHeader.Memory.InitChunk | LLVM_SCUDO_MTE/combined.h:1139-1179 | the header fields are as computed, and the chunk is found again from the start of the block |
| ChunkHeader.BlockBeginRecovered | LLVM_SCUDO_MTE/combined.h:1121-1126 | the offset field recovers the start of the block exactly for distances below 2^20 |
| ChunkHeader.SizeRecovered | LLVM_SCUDO_MTE/combined.h:1128-1137 | the size field recovers the requested size exactly for recorded numbers below 2^20 |
| Placement.PrimaryPlacement | LLVM_SCUDO_MTE/combined.h:385-431 | for every size and alignment the user memory is aligned, behind the header, and inside any block of the needed size |
| Placement.NeededSizeTight | LLVM_SCUDO_MTE/combined.h:385-387 | in a block that starts at a multiple of the alignment the rounded request ends where the needed size does, so that no less would do |
| Placement.RoomBehindHeader | LLVM_SCUDO_MTE/combined.h:380-387 | for every size and alignment, there is room for the least alignment behind the header exactly if bytes are asked for or the alignment is above the least one |
| Placement.ZeroSizedRequest | LLVM_SCUDO_MTE/combined.h:380-387 | a request of zero bytes at the least alignment gets room for the header only |
| Placement.SecondaryUserPtr | LLVM_SCUDO_MTE/combined.h:428-431 | in a secondary block the user address is the position aligned for, at offset zero |
| Combined.AllocateFromPrimary | LLVM_SCUDO_MTE/combined.h:385-431 | alignment, containment, and recovery of block and size from the header alone |
| Combined.AllocateFromSecondary | LLVM_SCUDO_MTE/combined.h:385-431 | the same for a fresh secondary block with an alignment up to 2^19, clear of the guard pages |
| StackDepot.Depot.Insert | LLVM_SCUDO_MTE/stack_depot.h:133-159 | for any depot the new ring, table and end are as written, or as before exactly if the table leads to a marker of the trace; then the trace is present, provided in the latter case that frames are even and no other trace collides; other traces stay present |
| StackDepot.Depot.Find | LLVM_SCUDO_MTE/stack_depot.h:164-187 | whatever ring and table hold, a trace is reported exactly if the table leads to a marker of the key whose frames hash to it; a trace that is present is found frame by frame, also around the end of the ring |
| StackDepot.KeyBits | LLVM_SCUDO_MTE/stack_depot.h:139 | the hash sees bits 2 to 31 of a frame and no others |
| StackDepot.Shape.ValidIff | LLVM_SCUDO_MTE/stack_depot.h:105-129 | accepted are exactly a ring and a table of power-of-two sizes, the table of more than one slot, that fill the buffer |
| StackDepot.Shape.AccessesInBuffer | LLVM_SCUDO_MTE/stack_depot.h:103-129 | in a depot found valid no masked position leads out of the buffer |
| StackDepot.StaysPresent | LLVM_SCUDO_MTE/stack_depot.h:149-157 | a present trace stays present through an insertion exactly if the ring does not come around to its marker and its place in the table is not taken |
| StackDepot.Depot.InsertAll | LLVM_SCUDO_MTE/stack_depot.h:133-159 | through any number of insertions a trace stays present until one of these happens |
| StackDepot.Depot.FindAfter | LLVM_SCUDO_MTE/stack_depot.h:133-187 | a trace shorter than the ring is found frame by frame after any later insertions, until one of these happens |
| StackDepot.Depot.AlreadyThere | LLVM_SCUDO_MTE/stack_depot.h:143-147 | a marker in the ring that equals the id of the trace belongs to a complete copy of it |
| TsdShared.EuclidIsOne | LLVM_SCUDO_MTE/tsd_shared.h:183-193 | the loop ends and tells exactly whether two numbers are coprime |
| TsdShared.TSDRegistry.SetNumberOfTSDs | LLVM_SCUDO_MTE/tsd_shared.h:172-196 | the list holds exactly the numbers up to N that are coprime to N, in order, and is never empty for a positive N |
| TsdShared.WalkDistinct | LLVM_SCUDO_MTE/tsd_shared.h:226-245 | the first N steps of the walk visit different TSDs |
| TsdShared.WalkReaches | LLVM_SCUDO_MTE/tsd_shared.h:226-245 | every TSD is reached within N steps |
| TsdShared.TSDRegistry.Walk | LLVM_SCUDO_MTE/tsd_shared.h:213-255 | the i-th TSD tried is the one i steps of the chosen coprime after the one the seed chooses, at most four different ones are tried; taken is the first free one, or the first with the lowest positive precedence |
| IntrusiveList.SinglyLinkedList.PushBack | LLVM_SCUDO_MTE/list.h:197-205 | the node is last |
| IntrusiveList.SinglyLinkedList.PushFront | LLVM_SCUDO_MTE/list.h:207-213 | the node is first |
| IntrusiveList.SinglyLinkedList.PopFront | LLVM_SCUDO_MTE/list.h:215-221 | the first node leaves |
| IntrusiveList.SinglyLinkedList.Insert | LLVM_SCUDO_MTE/list.h:224-233 | the node is behind the given one |
| IntrusiveList.SinglyLinkedList.Extract | LLVM_SCUDO_MTE/list.h:235-244 | the node leaves and the others keep their order |
| IntrusiveList.SinglyLinkedList.AppendBack | LLVM_SCUDO_MTE/list.h:246-260 | all nodes of the other list follow, and it is empty |
| IntrusiveList.DoublyLinkedList.PushFront | LLVM_SCUDO_MTE/list.h:272-283 | the node is first |
| IntrusiveList.DoublyLinkedList.PushBack | LLVM_SCUDO_MTE/list.h:300-311 | the node is last |
| IntrusiveList.DoublyLinkedList.Insert | LLVM_SCUDO_MTE/list.h:286-298 | the node is before the given one |
| IntrusiveList.DoublyLinkedList.PopFront | LLVM_SCUDO_MTE/list.h:313-321 | the first node leaves |
| IntrusiveList.DoublyLinkedList.Remove | LLVM_SCUDO_MTE/list.h:323-350 | the node leaves and the others keep their order and links |

## Left out

- Nodes as values: groups and batches of the free list are values in a sequence, not
  nodes in memory; the lists of nodes themselves are `IntrusiveList`, and that batches
  of the batch class live in free blocks is `BatchClassList`.
- Word sizes: addresses and counts are unbounded except where the wrap-around matters
  (packed counters, cached mappings, the release time, header fields, ring markers).
- PageMap.RegionPageMap.Reset: the static buffers and the buffer pool behind the map
  are one parameter that says whether there is memory.
- GroupMerge.Criteria.SplitOk: the density test for small blocks and the thresholds are
  a parameter, since any choice of groups is safe; their adaptation is not modelled.
- ReleaseProtocol.StepInv: steps are what one thread does under a lock, or in steps 3
  and 4 of a release on groups that nobody else can reach; the locks are not modelled.
- BatchClassList.BatchClass.Refill: how many new blocks are cut is a parameter, at least
  one; running out of blocks ends the program there, and that end is not modelled.
- LocalCache.PerClass.DrainHalf: the blocks are copied before they are sorted, where the
  program sorts them in the cache; they leave it anyway. Regions with a single group
  are covered by `PushBlocks` only.
- LocalCache.Cache.Drain: one thread; the caches of other threads are part of what is
  elsewhere, and `CacheRun` has them one class at a time. The variant without cache is not
  modelled.
- QuarantineSteps.Put: put, drain, recycle and drainAndRecycle are made of the four steps,
  between which other threads run; a whole call is no single step.
- HybridMutex.StepInv: steps are sequentially consistent; memory orders and the spinning
  before lockSlow are not modelled.
- PopulateProtocol.StepInv: the counter does not wrap around; the mutex is a lock that
  one thread holds; blocks are counted, not named.
- PopulateProtocol.SleepersCanWake: the memory lock that the populator takes is not
  modelled, so that it is never held up by a release that owns it.
- Quarantine.GlobalQuarantine.DoRecycle: prefetching is left out, and the seed of the
  shuffle is a parameter.
- SecondaryCache.MapAllocatorCache.Store: memory tagging is off; unmapping is recorded.
- Placement.PlaceInMapping: reserving and mapping memory always succeed here.
- Combined.AllocateFromSecondary: alignments above 2^19, and sizes after a reallocation
  in place, where the unused bytes need not fit their field.
- ChunkHeader.Memory.StoreHeader: the checksum is any function of cookie, address and
  header.
- StackDepot.Depot.Find: races with insert are not modelled; the mixing steps of the hash
  are parameters.
- TsdShared.TSDRegistry.Walk: the locks are given by what is found at each place.
- The compressed table of least set bits and the caching hints of size_class_map.h.
- Deallocation and reallocation of chunks in combined.h, which check and rewrite one
  header each.
- primary32.h, which repeats the free list over another layout of regions.
- Memory tagging, the layers below the operating system interface, statistics, flags,
  error reports, wrappers, hooks and test-only code.
