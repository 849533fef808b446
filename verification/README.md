# Memory management and concurrency of the kernel, in Dafny

A model of the parts of the kernel that are hardest to get right, with proofs of what they keep.

- **Physical pages.** The page bitmap with its word-wide bulk claim (`PhysPageMap`), the windowed map over it
  (`WindowMap`), first-fit allocation and freeing (`PhysAlloc`), and the arm64 shim's view of RAM banks and
  reserved regions up to the first allocations after boot (`Banks`).
- **Words** are their bits, with the operators of C on them (`MachineWord`).
- **Page tables.** Four-level tables in physical memory (`PageTree`, `VirtAddr`), the 64-bit entry and its bit
  fields (`PageEntry`), the arm64 boot mapper that grows a table out of the bitmap that feeds everything else
  (`ArmMap`).
- **Virtual pages.** The x86 allocator whose whole block ledger is two bits per page-table entry (`Ledger`,
  `VirtAlloc`), stacks with a guard page (`Stacks`), the interval free list and its page chain (`RangePage`,
  `RangeChain`).
- **memmove** with its shift-and-merge word loop (`Memmove`).
- **Protocols.** The blocking ticket mutex (`TicketMutex`), futex wait, wake and abort (`FutexQueue`,
  `FutexRuns`, `FutexMemory`), the timed semaphore (`MulSemaphore`), the two semaphore-driven queues
  (`BlockThread`, `CommandQueue`) and the write-back pipeline (`DirtyLists`, `WriteBack`).

Objects that the source changes in place are classes whose methods are proved against a set, a map, a ledger or a
list held in a ghost field or computed from the real fields. Protocols are state machines: one step is one atomic
operation, one block under a spinlock, or one scheduler call; where another thread works on the same data without
the lock, its accesses and the parts of the block are steps of their own. `Run` folds the steps of any schedule. The
main theorems say for every schedule what no run ever does, and what every state of every run can still lead to.
Histories that only the theorems need (who drew which ticket, what was submitted) are ordinary fields of the state.

Where the code does not have the property one would expect of it, the model keeps the code and the theorem says
exactly when the property holds:

- The mutex excludes others as long as at most 2^32 tickets are outstanding, and for no larger bound
  (`TicketMutex.ExclusionBound`).
- The wake handler of the mutex is sound for runs that draw at most 0xF8000000 tickets and for no larger bound
  (`TicketMutex.WakeupBound`, with a run that loses a wake-up one ticket later).
- `TryFree` is exact unless the stretch runs over the top of the 64-bit space or goes in front of all other ranges;
  that branch always loses the range that was first (`RangePage.FreeExactWhen`, `RangePage.FrontInsertLoses`,
  `RangePage.FrontInsertExample`). So freeing what was just taken restores the page exactly when the size is whole
  pages and it was not the whole first of several ranges (`RangePage.AllocatorPage.FreeUndoesAllocate`).
- `IsFree` and `TryAllocateFromAddress` agree exactly when the address is free or no range ends between the 64-bit
  sum of address and size and the address (`RangePage.IsFreeAgrees`). A stretch that wraps and an empty one at the
  end of a range break it (`RangePage.WrapExample`, `RangePage.EmptyStretchExample`).
- A run of the futex protocol keeps every wait in one place exactly when no aborter in it is stale, that is, finds
  another wait of its thread on the same address (`FutexRuns.RunExact`, `FutexRuns.StaleAborter`).
- `blockdev_interface::Submit` pushes without the lock. Commands and tokens stay paired exactly when no push ends
  after the queue has changed its length (`CommandQueue.RunExact`); two pushes that overlap can make `NextCommand`
  take from an empty queue (`CommandQueue.TornRun`).
- `Collect` appends the blocks of a final flush without the lock. No block of `OpenForWrite` or of a collection is
  ever lost (`WriteBack.CollectedKept`); a block of a final flush is lost exactly when, since the group was chosen,
  `Submit` has erased the last group of that filesystem, or is just between the copy and the removal of its first
  group (`WriteBack.DropsExact`, `WriteBack.FlushedBlockLost`).
- `free_stack` undoes `alloc_stack` exactly for whole pages and a physical run below page 2^28, the limit of the
  frame field (`Stacks.StackAllocator.FreeUndoesAllocStack`, `Stacks.PartialPageExample`, `Stacks.CutFrameExample`).
- What the shim claims for a reserved region is what the region touches exactly when the region survives the cut of
  its page numbers to 32 bits (`Banks.ClaimedExact`, `Banks.CutExample`).
- The page map reports the window it really covers exactly when `base + 32768` fits in 32 bits
  (`WindowMap.WindowExact`).
- `ppagealloc` with page 0 free takes page 0 for a one-page request and still answers 0
  (`PhysAlloc.PhysAllocator.Alloc`, `PhysAlloc.PageZeroExample`).

Points where the model reads the source in a particular way:

- `starting_addr` in `vpagealloc` and `vpagealloc32` is declared in the innermost block but is meant to keep the
  start of the current run; it is modelled as declared outside the loops.
- `unique_lock::release()` of this code base unlocks, so `vpagealloc` may go on to `vpagealloc32`.
- Page 0 of the virtual space has no table (`relocate_kernel_vmemory` clears the low entries), so an entry is
  looked up at page 0 only to find that there is none. One root table stands for both accessors of the root.
- Banks and regions end at least two pages below 2^64, so that no sum of the bump loop wraps.
- `VPAllocator` calls `MoreRoom` with a page and its own successor, and a page that the page allocator returns is
  empty; both are preconditions of the model.

## Model

| member | source | states |
|---|---|---|
| `PhysPageMap.BitSetIs` | include/physpagemap.h:54-59 | masking with a shifted one and comparing with zero reads exactly one bit |
| `PhysPageMap.OneBitUpdate` | include/physpagemap.h:25-53 | or-ing in a shifted one, or and-ing with its complement, changes that bit of the word and no other |
| `PhysPageMap.Bitmap.Claim` | include/physpagemap.h:25-29 | the claimed set gains exactly the page |
| `PhysPageMap.Bitmap.FillWord` | include/physpagemap.h:36-39 | a whole word written at once claims exactly its 32 pages |
| `PhysPageMap.Bitmap.ClaimMany` | include/physpagemap.h:30-47 | the bulk path claims exactly [page, page + num), stays within the words, and terminates, for every alignment |
| `PhysPageMap.Bitmap.Release` | include/physpagemap.h:48-53 | the claimed set loses exactly the page |
| `PhysPageMap.Bitmap.IsClaimed` | include/physpagemap.h:54-59 | true iff the page is in the claimed set |
| `WindowMap.PageMap.Claim` | kernel/physpagemap.cpp:44-53 | a page of the window is added, any other page changes nothing |
| `WindowMap.PageMap.ClaimMany` | kernel/physpagemap.cpp:55-78 | for every start and count, also across the window's edges and past 2^32, the set gains the part of the range that lies in the window |
| `WindowMap.PageMap.Release` | kernel/physpagemap.cpp:80-89 | a page of the window is removed, any other page changes nothing |
| `WindowMap.PageMap.IsClaimed` | kernel/physpagemap.cpp:91-100 | pages outside the window read as claimed, pages inside as the set says |
| `WindowMap.WindowExact` | kernel/physpagemap.cpp:55-108 | the bulk claim clips to the bitmap's own window, and the reported window is that window, iff base + 32768 < 2^32 |
| `PhysAlloc.ScanRun` | arm64shim/shim.cpp:710-725 | the scan ends at the lowest free run of the length, or there is no such run at all |
| `PhysAlloc.AllocatePhyspage` | arm64shim/shim.cpp:710-736 | sound, lowest and complete: claims exactly the lowest free run, and fails iff there is none or no page is asked for |
| `PhysAlloc.PagesForIs` | kernel/pagealloc.cpp:529-540 | the pages for a size are the least number that holds it, or none within a page of 2^64 |
| `PhysAlloc.PhysAllocator.Scan` | kernel/pagealloc.cpp:540-569 | lowest free run above page 0; answers page 0 iff one page is asked for and page 0 is free |
| `PhysAlloc.PhysAllocator.Alloc` | kernel/pagealloc.cpp:529-575 | claims exactly the lowest free run and counts its pages; 0 iff there is no run, or page 0 was taken; 64-bit wrap of the rounding included |
| `PhysAlloc.PageZeroExample` | kernel/pagealloc.cpp:529-575 | on an empty map from page 0 on, one page is taken and the answer is 0 |
| `PhysAlloc.PhysAllocator.Free` | kernel/pagealloc.cpp:990-1008 | panics iff some page of the range is free or beyond the map, else removes exactly the range and its count |
| `PhysAlloc.PhysAllocator.FreeUndoesAlloc` | kernel/pagealloc.cpp:529-1008 | freeing what was allocated never panics and restores bitmap and count |
| `Banks.CeilPage` | arm64shim/shim.cpp:490-492 | the least page number whose address is at or above x |
| `Banks.Bump` | arm64shim/shim.cpp:520-530 | ends after at most one move per reserved region at the least page from the start that touches none; no sum on the way wraps |
| `Banks.LowestMore` | arm64shim/shim.cpp:532-537 | comparing the least clear page of one more bank with the page kept so far gives the lowest usable page over all banks |
| `Banks.FreePageSearch.Extent` | arm64shim/shim.cpp:507-516 | highest address and lowest first page over all banks seen |
| `Banks.FreePageSearch.Keep` | arm64shim/shim.cpp:532-537 | the lowest usable page over all banks seen, or none |
| `Banks.FreePageSearch.ScanBank` | arm64shim/shim.cpp:505-538 | after each bank the search knows the lowest usable page over all banks seen (or that there is none), the lowest first page and the highest address |
| `Banks.GetFirstFreePage` | arm64shim/shim.cpp:540-576 | the same over the whole list of banks |
| `Banks.ReleaseUsableBank` | arm64shim/shim.cpp:632-648 | releases exactly the window's pages that lie wholly inside the bank |
| `Banks.RegionPages` | arm64shim/shim.cpp:686-689 | the page numbers a region is rounded out to are the pages the bump loop would have stepped over |
| `Banks.ClaimRegion` | arm64shim/shim.cpp:652-697 | claims exactly the window's pages between the two page numbers cut to 32 bits |
| `Banks.ClaimedExact` | arm64shim/shim.cpp:686-697 | the claimed 32-bit page numbers are the pages touched iff the region ends at a 32-bit page number, or covers none and its cut numbers are not in order |
| `Banks.CutExample` | arm64shim/shim.cpp:686-697 | of a region up to one page past 2^44 only page 0 is claimed |
| `Banks.Populate` | arm64shim/shim.cpp:664-708 | a page of the window is free iff it lies wholly in a RAM bank, is not claimed for a reserved region and is not the seed page; with regions that survive the cut, iff it is in RAM, touches no region and is not the seed page |
| `Banks.BootAndAllocate` | arm64shim/shim.cpp:664-736 | after boot, for every sequence of requests, no allocation holds a page outside RAM, a page claimed for a region (any page a region touches, when the regions survive the cut) or the seed page, and no page is handed out twice |
| `VirtAddr.IndexIsSlot` | include/pagetable_impl.h:13-51 | the four index functions are the base-512 digits of the virtual page number, from the top down |
| `PageTree.WalkFollowsTree` | include/pagetable_impl.h:55-70 | the walk over present entries reaches exactly the tables of the tree |
| `PageTree.TranslateReadsLeaf` | include/pagetable_impl.h:55-70 | the translation of a virtual page is what its leaf entry says, or none |
| `PageTree.TablesDistinct` | include/pagetable_impl.h:55-70 | tables reached along different paths are different pages |
| `PageTree.SetLeaf` | arm64shim/shim.cpp:852-878 | writing one leaf entry keeps the tree and changes the mapping of one page only |
| `PageTree.AddTable` | arm64shim/shim.cpp:824-838 | linking a zeroed, unused page below an empty entry keeps a tree of distinct tables and changes no mapping |
| `PageEntry.FieldsIndependent` | include/pagetable.h:180-277 | for every field position and size: a field reads back what was assigned, cut to its size, and every field beside it is unchanged |
| `PageEntry.FieldNumber` | include/pagetable.h:190-277 | a field of s bits assigned the number x reads as x mod 2^s |
| `PageEntry.PageEntr.Copy` | include/pagetable.h:190-277 | assigning a field from another entry takes over exactly the bits of that field |
| `PageEntry.PageEntr.Update` | kernel/pagetable.cpp:129-137 | on x86 exactly bits 0-6, 12-39 and 63 come from the update, so what is decoded changes in the mapping fields only and both allocation bits stay |
| `PageEntry.PageEntr.UpdateArm` | kernel/pagetable.cpp:115-127 | the same on arm64, where the allocation bits are 55 and 56 |
| `PageEntry.PageEntr.SetFrame` | include/pagetable.h:592-594 | the x86 frame field keeps a page number modulo 2^28 and touches nothing else |
| `PageEntry.PageEntr.MapLeaf` | arm64shim/shim.cpp:852-878 | the nine field assignments give the leaf entry the mapper's model uses |
| `PageEntry.PageEntr.MapStackPage` | kernel/pagealloc.cpp:865-870 | the six field assignments give the entry of a stack page the allocator's model uses |
| `PageEntry.DecodePlaces` | include/pagetable.h:507-560 | on x86, changing one bit outside the frame number changes just the field at that place |
| `PageEntry.DecodeArmPlaces` | include/pagetable.h:618-692 | the same on arm64 |
| `ArmMap.Mapper.AllocPtPage` | arm64shim/shim.cpp:804-813 | a table page is a page that was free, is claimed now and is zeroed |
| `ArmMap.Mapper.Descend` | arm64shim/shim.cpp:824-841 | one level down: the table below is found, or linked in as a new page of the bitmap by a valid entry with its table bit, or nothing changes; no mapping changes |
| `ArmMap.Mapper.GetPageEntry` | arm64shim/shim.cpp:815-845 | yields the leaf table of the address; no mapping changes, tables stay a tree of distinct claimed pages; fails only when no page is free |
| `ArmMap.Mapper.MapPage` | arm64shim/shim.cpp:846-879 | on success the processor's walk, which demands valid and table bits at every level, takes vaddr to paddr's page, the leaf grants exactly the requested rights with the requested memory type, and every other page is as before; on failure no translation changes; the tables stay a tree of distinct claimed pages |
| `ArmMap.LeafGrants` | arm64shim/shim.cpp:852-878 | the leaf entry grants exactly the rights and the memory type asked for, on the page asked for, and keeps the allocation bits |
| `ArmMap.HardwareSees` | include/pagetable_impl.h:55-70 | when every valid entry has its table bit, the processor's walk and the code's walk agree |
| `Ledger.RunUnique` | kernel/pagealloc.cpp:694-729 | the two bits per entry determine the length of a block |
| `Ledger.BlocksDisjoint` | kernel/pagealloc.cpp:99-182 | recorded blocks never overlap |
| `Ledger.GrabRecords` | kernel/pagealloc.cpp:149-158 | marking a run of available pages records one new block, leaves all others as they were, and keeps the marks well formed |
| `Ledger.FreeRecords` | kernel/pagealloc.cpp:639-668 | clearing a run up to its stop removes exactly what lies at or after its first page in that block, even when a neighbour follows directly |
| `VirtAlloc.VirtAllocator.constructor` | kernel/pagealloc.cpp:99-117 | tables whose available pages lack the start bit, and whose unavailable page after an available one has it or has no table, start an empty ledger |
| `VirtAlloc.VirtAllocator.GetPageEntry64` | include/pagetable_impl.h:55-70 | for every 64-bit address the walk finds the leaf entry of its page iff that page has a table |
| `VirtAlloc.VirtAllocator.ScanHigh` | kernel/pagealloc.cpp:110-179 | the four nested loops, with runs broken by missing tables at any level, find the lowest run of available pages above 4 GB, or none exists |
| `VirtAlloc.VirtAllocator.ScanLow` | kernel/pagealloc.cpp:250-313 | the same for the range below 4 GB |
| `VirtAlloc.VirtAllocator.Grab` | kernel/pagealloc.cpp:149-156 | exactly the pages of the run become unavailable and not present, the first one with the start bit |
| `VirtAlloc.VirtAllocator.VpageAlloc32` | kernel/pagealloc.cpp:239-315 | lowest run, recorded as one new block, counted; 0 with nothing changed iff no run exists |
| `VirtAlloc.VirtAllocator.VpageAlloc` | kernel/pagealloc.cpp:99-182 | the lowest run above 4 GB, else the lowest below; recorded as one new block disjoint from all others and counted |
| `VirtAlloc.VirtAllocator.VpageSize` | kernel/pagealloc.cpp:694-729 | for every address the length of the run of pages up to the first stop; for the start of a block, the size it was allocated with |
| `VirtAlloc.VirtAllocator.VpageFree` | kernel/pagealloc.cpp:632-671 | for every address: frees exactly the pages up to the first stop; at the start of a block that block, inside one the rest of it; the page count follows the ledger |
| `VirtAlloc.VirtAllocator.UpdatePageEntry` | kernel/pagetable.cpp:104-143 | for every address replaces the mapping fields of its page, keeps its allocation bits and all other entries; fails iff the page has no table |
| `VirtAlloc.VirtAllocator.MapRun` | kernel/pagealloc.cpp:850-872 | every page of the run is mapped to its physical page, writeable, not executable, with the usual cache mode; user, accessed, dirty and both allocation bits stay, and so does every other page |
| `Stacks.StackAllocator.AllocStack` | kernel/pagealloc.cpp:843-883 | one block of n + 1 pages, the lowest run above 4 GB or else below: an unmapped guard page with the start bit below n pages mapped, writeable and not executable, to the lowest free physical run; no entry of a page in use or beside the block changes; 0 iff there is no virtual run, no physical run, or page 0 was taken, and then the ledger is as before and at most page 0 is claimed |
| `Stacks.StackAllocator.FreeStack` | kernel/pagealloc.cpp:908-971 | for every address: panics iff there is no stack below it or a page behind the stack cannot be freed; else frees exactly its pages, virtual and physical |
| `Stacks.StackUnique` | kernel/pagealloc.cpp:915-964 | at most one stack ends at an address |
| `Stacks.StackAllocator.FreeUndoesAllocStack` | kernel/pagealloc.cpp:843-971 | no panic and bitmap restored iff the size is whole pages and the first fit in the bitmap starts below page 2^28; then ledger and counts are restored too |
| `Stacks.PagesRestored` | kernel/pagealloc.cpp:915-971 | the pages read back from the frame fields are the pages taken iff the size is whole pages and the run starts below page 2^28 |
| `Stacks.PartialPageExample` | kernel/pagealloc.cpp:843-971 | a stack of 100 bytes over page 16 leaves the page claimed |
| `Stacks.CutFrameExample` | kernel/pagealloc.cpp:843-971 | for a stack over page 2^28 page 0 is given back instead |
| `Memmove.LoadStore` | kernel/strings.cpp:45-55 | storing the 64-bit number loaded from eight bytes gives the bytes back |
| `Memmove.Merge` | kernel/strings.cpp:45-53 | the 64-bit numbers of two neighbouring words, shifted by 8 bits per byte and joined, are the number of the word at the byte offset between them |
| `Memmove.ReadWord` | kernel/strings.cpp:43-48 | every word read lies inside the source, is aligned, and holds no byte already overwritten |
| `Memmove.CopyBytes` | kernel/strings.cpp:17-38 | an upward byte loop extends the copied part and changes nothing else |
| `Memmove.CopyWord` | kernel/strings.cpp:47-56 | one turn of the word loop copies eight more bytes of the source |
| `Memmove.WordLoop` | kernel/strings.cpp:42-57 | the word loop extends the copied part, whatever the two alignments |
| `Memmove.Alignments` | kernel/strings.cpp:9-41 | where both alignment loops end: on word boundaries, and not above the source word when the destination is below the source |
| `Memmove.MoveWords` | kernel/strings.cpp:8-66 | for more than 32 bytes the word version copies exactly the n bytes |
| `Memmove.MoveBackwards` | kernel/strings.cpp:86-91 | the downward loop copies exactly the n bytes when the destination starts inside or right after the source |
| `Memmove.Move` | kernel/strings.cpp:70-95 | for every n, alignment and overlap: dest[0..n) becomes the old src[0..n), and no other byte changes |
| `RangePage.CanonicalUnique` | include/vpallocator.h:78-259 | a sorted, non-empty, strictly separated list is determined by its free set |
| `RangePage.CoversIsAllFree` | include/vpallocator.h:78-100 | one range holds a non-empty stretch iff every address of it is free |
| `RangePage.WithoutExact` | include/vpallocator.h:106-134 | cutting a stretch out of a range keeps the list canonical and removes exactly the stretch |
| `RangePage.WithoutWhen` | include/vpallocator.h:106-134 | over 64-bit sums, the cut is canonical and exact iff the stretch does not wrap, and if empty lies at an edge of its range |
| `RangePage.WithExact` | include/vpallocator.h:203-257 | adding a stretch in a gap, joined to the neighbours it borders on, keeps the list canonical and adds exactly the stretch |
| `RangePage.IsFreeAgrees` | include/vpallocator.h:78-145 | `IsFree` holds iff `TryAllocateFromAddress` would not return ERROR, exactly when the address is free or no range ends between the 64-bit sum and the address |
| `RangePage.IsFreeAgreesInSpace` | include/vpallocator.h:78-145 | so they agree on every positive size that does not run over the top |
| `RangePage.WrapExample` | include/vpallocator.h:101-145 | a stretch that wraps: `IsFree` is false, and the cut leaves two overlapping ranges |
| `RangePage.EmptyStretchExample` | include/vpallocator.h:78-145 | an empty stretch at the end of a range: `IsFree` is false, the allocation is not refused |
| `RangePage.FrontInsertLoses` | include/vpallocator.h:193-202 | the front-insert branch always loses the range that was first |
| `RangePage.FrontInsertedShape` | include/vpallocator.h:193-202 | the branch leaves a canonical list iff there were fewer than 128 ranges; from 128 on it leaves a range twice |
| `RangePage.FrontInsertExample` | include/vpallocator.h:193-202 | one range at 8192 and a page freed at 0: the range is gone |
| `RangePage.AllocatorPage.IsFree` | include/vpallocator.h:78-100 | true iff the address lies in a range and the 64-bit sum of address and size is not past its end |
| `RangePage.AllocatorPage.RemoveAt` | include/vpallocator.h:108-111 | closes the gap of one range and keeps the others in order |
| `RangePage.AllocatorPage.OpenAfter` | include/vpallocator.h:127-130 | moves the ranges after one up by one place |
| `RangePage.AllocatorPage.InsertAfter` | include/vpallocator.h:243-248 | one more range in its place, the others in order |
| `RangePage.AllocatorPage.TakeFrom` | include/vpallocator.h:106-134 | the range goes, shrinks or splits; NO_SPACE iff it would split in a full page |
| `RangePage.AllocatorPage.TryAllocateFromAddress` | include/vpallocator.h:101-145 | ERROR iff no range starts at or below the address and ends at or past the 64-bit sum, NO_SPACE iff it would split a range of a full page, both unchanged; DONE is canonical and takes exactly the stretch iff it does not wrap, and if empty lies at an edge |
| `RangePage.RoundUpIs` | include/vpallocator.h:150-155 | the size `TryAllocate` and `TryFree` work with is the least multiple of the page size not below the request, or 0 if that does not fit in 64 bits |
| `RangePage.AllocatorPage.TryAllocate` | include/vpallocator.h:146-173 | first range that is long enough for the rounded size, cut from its start; none iff no range is long enough |
| `RangePage.AllocatorPage.InsertInFront` | include/vpallocator.h:197-202 | what the shifting loop and the overwrite of range 0 leave in the page |
| `RangePage.AllocatorPage.AddInGap` | include/vpallocator.h:223-255 | merges, extends or inserts between two ranges; NO_SPACE iff a full page would need one more range |
| `RangePage.AllocatorPage.TryFree` | include/vpallocator.h:174-259 | for every address and size: ERROR iff the stretch meets the free set, NO_SPACE iff the page is full and it borders on no range, both unchanged; DONE is canonical and exact iff it is not a front insert; for a stretch that runs over the top, exactly when it is refused or finds no space, the list that DONE leaves, and that it never adds the stretch |
| `RangePage.FreeExactWhen` | include/vpallocator.h:174-259 | DONE is canonical and exact iff the stretch does not run over the top and is not a front insert |
| `RangePage.AllocatorPage.FreeUndoesAllocate` | include/vpallocator.h:101-259 | taking a stretch and freeing it restores the very list, iff the size is whole pages and it was not the whole first of several ranges |
| `RangeChain.MoveOneUp` | include/vpallocator.h:324-329 | the last range of a page becomes the last of the next one iff there is a range and room |
| `RangeChain.SumTwo` | include/vpallocator.h:324-329 | moving ranges between neighbours keeps the multiset of all ranges |
| `RangeChain.LinkIn` | include/vpallocator.h:346-355 | the new page stands between the page and its old successors, all still reachable, the chain finite |
| `RangeChain.MoreRoom` | include/vpallocator.h:336-368 | for every chain and fill level, with or without a new page: same multiset of ranges, no page over capacity, old pages in order; the page keeps a prefix of its ranges and gives up exactly two, half, or none |
| `TicketMutex.CurrentExact` | kernel/concurrency/mutex.cpp:98-102 | with at most 2^32 outstanding tickets, comparing modulo 2^32 is exact |
| `TicketMutex.StepOrdered` | kernel/concurrency/mutex.cpp:70-147 | every step keeps: each outstanding ticket is held by the thread that drew it, and only the current one is at or past the lock |
| `TicketMutex.MutualExclusion` | kernel/concurrency/mutex.cpp:108-147 | in every run with at most 2^32 outstanding tickets at most one thread is between lock and unlock, and threads enter in the order they drew tickets |
| `TicketMutex.ExclusionBound` | kernel/concurrency/mutex.cpp:70-147 | no run with at most N outstanding tickets has two owners iff N <= 2^32; with more, ticket 2^32 passes for ticket 0 |
| `TicketMutex.ReactsInOrder` | kernel/concurrency/mutex.cpp:38-40 | below ticket 0xF8000000 an event removes only handlers of tickets up to its own |
| `TicketMutex.ReactsAcrossOverflow` | kernel/concurrency/mutex.cpp:38-40 | a handler of the last 2^27 numbers also reacts to the first 2^27 after the overflow, and no other handler does |
| `TicketMutex.StepWaking` | kernel/concurrency/mutex.cpp:29-147 | every step keeps: a sleeper has its handler, and on its own turn an event on the way; a thread without handler has its re-check to come |
| `TicketMutex.NoLostWakeup` | kernel/concurrency/mutex.cpp:29-147 | in every run of at most 0xF8000000 tickets no thread sleeps on its turn without handler and pending event |
| `TicketMutex.StepNearer` | kernel/concurrency/mutex.cpp:108-147 | until the next thread has the lock, each of its own steps brings it nearer, and so does the event for it when it sleeps |
| `TicketMutex.StepNoFurther` | kernel/concurrency/mutex.cpp:108-147 | no step of any thread takes it further away |
| `TicketMutex.Progress` | kernel/concurrency/mutex.cpp:108-147 | from every state of every run of at most 0xF8000000 tickets, every thread with a ticket can still get the lock, in the order of the tickets |
| `TicketMutex.LostRun` | kernel/concurrency/mutex.cpp:38-52 | a run with one ticket more in which a stalled event removes a later handler and a thread sleeps, and goes on sleeping in every continuation |
| `TicketMutex.StrandedForever` | kernel/concurrency/mutex.cpp:29-147 | a sleeper without its handler sleeps on in every run |
| `TicketMutex.WakeupBound` | kernel/concurrency/mutex.cpp:29-147 | no run loses a wake-up within its first N tickets iff N <= 0xF8000000 |
| `FutexQueue.Separated` | kernel/exec/futex.cpp:30-38 | what is taken matches process and address, what stays does not |
| `FutexQueue.Queue.Take` | kernel/exec/futex.cpp:52-66 | the erasing loop takes exactly the matching waits before some cut and keeps the rest in order |
| `FutexQueue.Queue.Wake` | kernel/exec/futex.cpp:47-72 | takes exactly the first n matching waits and keeps all others in order |
| `FutexQueue.Queue.WakeAll` | kernel/exec/futex.cpp:22-45 | takes all matching waits, and no matching wait stays |
| `FutexQueue.Queue.Wait` | kernel/exec/futex.cpp:74-143 | the wait is queued at the end and its aborter registered iff the word held the expected value both at the exchange and under the lock; with a signal pending it is taken off again |
| `FutexQueue.Queue.Abort` | kernel/exec/futex.cpp:104-114 | removes the first wait of that thread on that address, if any |
| `FutexRuns.AbortExact` | kernel/exec/futex.cpp:101-123 | the aborter made for a wait keeps every wait in exactly one place iff it does not find another wait of its thread on its address |
| `FutexRuns.StepConserved` | kernel/exec/futex.cpp:22-143 | every step keeps every wait in exactly one place iff it is not a stale abort |
| `FutexRuns.RunExact` | kernel/exec/futex.cpp:22-143 | for every run: each wait is in exactly one place all along iff no abort in it is stale |
| `FutexRuns.CurrentNotStale` | kernel/exec/futex.cpp:101-123 | with one wait per thread at a time, the last aborter of a thread is never stale |
| `FutexRuns.CompletedOnce` | kernel/exec/futex.cpp:22-143 | in every run without a stale abort each queued wait is completed at most once, and until then it is queued or taken off to be completed |
| `FutexRuns.WakeAllCompletes` | kernel/exec/futex.cpp:22-45 | from every state of a run without a stale abort, a `WakeAll` and its completion calls complete every wait of that process on that address, once |
| `FutexRuns.OrderlyNeverStale` | kernel/exec/futex.cpp:22-143 | a run in which threads wait once at a time and are aborted through their last aborter has no stale abort |
| `FutexRuns.StaleAborter` | kernel/exec/futex.cpp:101-123 | a run in which a stale aborter completes a wait twice and drops the later one |
| `FutexMemory.NoneLeftBehind` | kernel/exec/futex.cpp:74-143 | in every run a thread is queued on a value no longer in memory only while a storer has its WakeAll to do, and WakeAll leaves nobody queued |
| `FutexMemory.WaitAlone` | kernel/exec/futex.cpp:74-143 | an undisturbed wait ends in the queue iff its value is the one in memory |
| `FutexMemory.StoreAlone` | kernel/exec/futex.cpp:22-45 | an undisturbed store changes the value and its `WakeAll` sends everyone who was queued on |
| `FutexMemory.LateWaiterWakes` | kernel/exec/futex.cpp:22-143 | from every state of every run, whoever is queued on a value that is gone can still be woken |
| `MulSemaphore.WithoutFacts` | kernel/concurrency/mul_semaphore.cpp:84-90 | the erase loop takes off exactly its own slot |
| `MulSemaphore.StepSound` | kernel/concurrency/mul_semaphore.cpp:51-116 | every step keeps the accounting, the ownership of slots, timeouts of live slots only, the queue in the order of the pushes, and for every slot exactly the tokens its signals gave it |
| `MulSemaphore.SemaphoreSafe` | kernel/concurrency/mul_semaphore.cpp:51-116 | in every run with timeouts at any time: banked releases and waiters never both present, releases = banked + fast acquires + popped slots, every slot that a release or a timeout signals is allocated, a sleeper can go on iff its slot was popped or its timeout has fired, with one token for each, slots are popped in the order they were pushed, and every allocated slot is still held by a thread |
| `MulSemaphore.AcquireReturns` | kernel/concurrency/mul_semaphore.cpp:51-96 | from every state of every run, every thread in `acquire` can return within seven steps of its own and its own timeout |
| `MulSemaphore.FastAcquire` | kernel/concurrency/mul_semaphore.cpp:55-61 | with a release in the bank, `acquire` takes it and returns at once |
| `BlockThread.StepPaired` | kernel/exec/blockthread.cpp:8-53 | every step keeps a token for every job and stop request the worker has not seen, and at most one more |
| `BlockThread.NeverStuck` | kernel/exec/blockthread.cpp:8-53 | in every run the worker waits without a token only when its queue is empty and no stop was asked for, and has stopped only after a stop; tokens never exceed jobs and stops by more than one; jobs run in order, at most once |
| `BlockThread.EveryJobRuns` | kernel/exec/blockthread.cpp:8-53 | from every state of every run, the worker alone can run every job queued, in order; after a stop it stops |
| `CommandQueue.StepPaired` | kernel/blockdevsystem/blockdev_interface.cpp:8-45 | queued commands + stops = tokens + threads between push and release or acquire and take + takes refused after a stop; a step keeps this, and every command, iff it does not end a push after the queue has changed its length |
| `CommandQueue.NeverTakesFromEmpty` | kernel/blockdevsystem/blockdev_interface.cpp:30-45 | for any number of threads, no run without such a push takes the front of an empty queue before a stop; commands are taken in order |
| `CommandQueue.RunExact` | kernel/blockdevsystem/blockdev_interface.cpp:8-45 | for every run: commands and tokens are paired all along iff no push in it ends after the queue has changed its length |
| `CommandQueue.ApartNeverTorn` | kernel/blockdevsystem/blockdev_interface.cpp:30-45 | a run in which pushes overlap with no push and no take has no such push |
| `CommandQueue.TornRun` | kernel/blockdevsystem/blockdev_interface.cpp:30-45 | two overlapping pushes leave one command and two tokens, and the second take finds the queue empty |
| `CommandQueue.NoneForgotten` | kernel/blockdevsystem/blockdev_interface.cpp:30-45 | before a stop, in every run without such a push, a queued command has a token, a holder of one, or a submitter about to give one |
| `CommandQueue.EveryCommandTaken` | kernel/blockdevsystem/blockdev_interface.cpp:30-45 | from every state of such a run before a stop, every command submitted can still be taken |
| `CommandQueue.StopTakesNothing` | kernel/blockdevsystem/blockdev_interface.cpp:30-40 | after a stop no command is taken |
| `DirtyLists.WriteableFilesystem.Merge` | kernel/blockdevsystem/blockdev_writer.cpp:64-88 | group g of a collection joins group g of the dirty groups, further groups follow |
| `DirtyLists.WriteableFilesystem.TakeNow` | kernel/blockdevsystem/blockdev_writer.cpp:169-181 | takes the first non-empty group and leaves the groups after it |
| `DirtyLists.WriteableFilesystem.AddFlushed` | kernel/blockdevsystem/blockdev_writer.cpp:92-110 | the blocks of the final flush join the first group, which is made if there is none |
| `DirtyLists.AdvancedAt` | kernel/blockdevsystem/blockdev_writer.cpp:169-173 | only empty groups are skipped on the way to the group taken |
| `WriteBack.StepListed` | kernel/blockdevsystem/blockdev_writer.cpp:49-282 | every step keeps: a filesystem is in one list at most, both threads work on listed ones only, an unlisted one has nothing left to write |
| `WriteBack.LockExcludes` | kernel/blockdevsystem/blockdev_writer.cpp:49-282 | while `Submit` is in its locked loop, the other threads can only append blocks of a final flush |
| `WriteBack.StepConserved` | kernel/blockdevsystem/blockdev_writer.cpp:49-183 | every step keeps each block in exactly one place: in the lists of a filesystem, taken, or lost |
| `WriteBack.NoBlockLost` | kernel/blockdevsystem/blockdev_writer.cpp:49-282 | in every run each block is taken at most once, and until then it is in the lists of a filesystem that has not left `finish` iff it is not lost; a lost block is never taken |
| `WriteBack.EveryBlockTaken` | kernel/blockdevsystem/blockdev_writer.cpp:139-183 | from every state of every run, `Submit` alone can go on to take every block that is not lost, once |
| `WriteBack.RoundServesAll` | kernel/blockdevsystem/blockdev_writer.cpp:146-183 | in every run, a round of `Submit` does not end before a block has been taken from every filesystem that had one when the round began |
| `WriteBack.PassCollectsAll` | kernel/blockdevsystem/blockdev_writer.cpp:57-89 | in every run, a pass of `Collect` does not end before it has collected from every filesystem that was open when it began |
| `WriteBack.CompletedMovesOn` | kernel/blockdevsystem/blockdev_writer.cpp:90-130 | in every run, a pass moves a filesystem it has flushed to `finish` iff the flush was complete |
| `WriteBack.FilesystemCloses` | kernel/blockdevsystem/blockdev_writer.cpp:49-282 | from every state of every run, every filesystem can still be closed for good, with nothing left to write |
| `WriteBack.LostExact` | kernel/blockdevsystem/blockdev_writer.cpp:90-114 | a block is lost iff an append of a final flush in the run put it into a group that was copied or gone |
| `WriteBack.CollectedKept` | kernel/blockdevsystem/blockdev_writer.cpp:62-89 | no block of `OpenForWrite` or of a collection is lost, in any run |
| `WriteBack.DropsExact` | kernel/blockdevsystem/blockdev_writer.cpp:92-182 | an append loses its block iff, since the group was chosen, `Submit` erased the last group of the filesystem, or is between the copy and the removal of its first group |
| `WriteBack.FlushedBlockLost` | kernel/blockdevsystem/blockdev_writer.cpp:92-182 | a run in which the block of a final flush is appended to an erased group and its filesystem is dropped |
| `WriteBack.UndisturbedTake` | kernel/blockdevsystem/blockdev_writer.cpp:166-183 | the steps of `Submit` on one filesystem, with nothing in between, take what `TakeNow` takes |
| `WriteBack.UndisturbedFlush` | kernel/blockdevsystem/blockdev_writer.cpp:92-110 | the steps of a final flush, with nothing in between, append what `AddFlushed` appends, and lose nothing |
| `WriteBack.GroupsInOrder` | kernel/blockdevsystem/blockdev_writer.cpp:62-183 | in every run, within one collection a lower group is taken in an earlier round than a higher one |
| `WriteBack.LowerGroupsFirst` | kernel/blockdevsystem/blockdev_writer.cpp:62-183 | nothing of a higher group is taken while a block of a lower group of its collection waits |

## Left out

- `VPAllocator::TryFree`, `IsFree` and the allocators over a whole chain: they rely on an order of the chain that `MoveOneUp` does not keep.
- `mutex::try_lock` and `try_acquire_ticket`: they compare against a convention that `create_ticket` does not use.
- Per-CPU page tables, the one-gigabyte fixed mappings, and extending the bitmap beyond its first page.
- The list of table pages the shim records, and the counts and messages the shim prints while it fills the map.
- The device write loop of `Submit` (kernel/blockdevsystem/blockdev_writer.cpp:184-248): device input and output.
- The string class, smart pointers and the vector class: they would add only easy members.
- Device-tree, ELF and ACPI parsing, boot table set-up, TLB and control-register loads, drivers, system calls.
- Scheduler, raw semaphore and spinlock bodies: each call is one atomic step with its contract.
- Banks.Bump: a bank or region in the last two pages of the 64-bit space, where `page_align_up` wraps to 0 and the loop could go round for ever.
- RangePage.AllocatorPage.FreeUndoesAllocate: the stretch is not empty and does not run over the top of the address space; `TryAllocateFromAddress` is not exact there.
- TicketMutex.MutualExclusion: one mutex is modelled, and a thread unlocks only what it has locked.
- FutexMemory.NoneLeftBehind: one futex word; storers of that word follow every store by `WakeAll`.
- MulSemaphore.SemaphoreSafe: the banked count does not wrap at 2^32.
- CommandQueue.RunExact: the accesses of a push take effect one after the other; a vector that moves its storage under another thread is not modelled.
- WriteBack.DropsExact: the same for the appends of a final flush.
- WriteBack.NoBlockLost: blocks are known by number only, and filesystems are visited in any order.
- Stacks.StackAllocator.FreeStack: the state after a panic is not described.
