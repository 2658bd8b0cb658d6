# Nika kernel: a verified model of memory and processes

This project models the memory and process core of the Nika kernel as one stack and proves what each layer
promises the next: the physical page allocator, two-level page tables and address-space copy, the kernel heap,
process creation, fork, demand paging and round-robin scheduling, and beside them the number formatting of the two
printers. `dafny verify dfyconfig.toml` (Dafny 4.11) checks the whole project.

## How it is built

Each part of the kernel that works in place is a class whose methods follow the C statements (`Pmm.PageAllocator`,
`KernelHeap.KernelHeap`, `Mmu.Mmu`, `Kernel.Kernel`, the loops in `Formatting`). Every method is proved to change the
state exactly as a function of the old state says (`Frames`, `HeapList`, `HeapGrowth`, `Paging`, `NewSpace`, `System`,
`Numerals`). The theorems are about those functions and about whole runs of them.

| files | part |
|---|---|
| `Words`, `Memory` | 32-bit words and masks, physical memory, the page walk |
| `Frames`, `Pmm`, `PmmTheory` | the frame pool, the bitmap allocator, its initialisation |
| `Paging`, `Ownership`, `Regions`, `UserMappings`, `Access`, `Mmu` | page tables, the ownership invariant, mappings |
| `AddressSpaceCopy`, `CopyCost`, `NewSpace` | deep copy, exact prices, new address spaces |
| `HeapList`, `HeapCanonical` | malloc and free on the block list, before the heap first grows |
| `HeapGrowth`, `HeapMerging`, `HeapLive`, `HeapFaults`, `KernelHeap` | growth, merging, live memory over any run, what a bad free breaks |
| `System`, `SystemInvariant`, `SystemRuns`, `ForkTheorems`, `ForkRuns`, `Prices`, `WholeStack`, `Kernel` | processes and runs |
| `KernelHalf`, `KernelHalfRuns` | the shared kernel half |
| `Scheduling` | round robin under creation |
| `Numerals`, `Formatting` | itoa and ptoa |

Two history variables carry the invariants and exist in no memory: the owner of every frame handed out, and whether an
allocation has ever failed. The paging code does not check for a failed allocation; its functions go on with frame 0 as
the code does, and the theorems about runs assume only that no allocation failed. `Prices` turns that assumption into a
number: every event has a price that can be counted before it happens, and a run from boot never fails an allocation if
and only if four frames plus the sum of the prices are free (`Prices.BootRunPaid`).

## What the code does against expectation

These are properties of the code as it stands; each is a lemma.

- `panic` only prints (inc/vga.h:18), so the page-fault handler maps a fresh frame in every case. A protection fault on
  a mapped page silently replaces the page (`ForkTheorems.FaultRemaps`). It does not check the address either: a fault
  above 3 GiB changes the page for every process that shares the table (`KernelHalf.FaultSeenIff`, in a run
  `KernelHalfRuns.FaultIsSeenByOthers`).
- `heap_end` is not moved when a block is split, so the first growth drops every later block from the list, and `free`
  merges list neighbours without comparing addresses. Up to the first growth none of this does harm
  (`HeapLive.FreesBeforeGrowthAreSafe`, `HeapMerging.LiveBlocksSurviveGrowth`). After it two things can go wrong, each
  under an exact condition (`HeapLive.FreeIsSafeIff`). A free keeps live memory off the list, apart and the heap's own if
  and only if each merge takes over bytes that are the heap's and in no live block; otherwise some requests get live or
  foreign memory (`HeapFaults.UnguardedMergeExposes`). And it keeps `heap_end` on the list if and only if its block does
  not end up free behind a free block; while it is off the list growing fails (`HeapFaults.GrowthWorksIff`), and the link
  a growth writes first is in another block, which some requests hand out (`HeapFaults.AbsorbedEndBreaks`), until a split
  happens to list it again (`HeapFaults.SplitListsEndAgain`). Both happen in short runs
  (`HeapFaults.FreeAfterGrowthOverlaps`, `HeapFaults.HeapEndIsAbsorbed`). Comparing addresses before a merge would
  prevent the first only. A run is free of both in every state if and only if every free meets both conditions
  (`HeapLive.RunIsSafeIff`).
- A request above 4084 bytes that fits nowhere takes every free page and then fails (`HeapGrowth.OversizeRequestDrains`).
- `map_user_space` counts pages by size alone. All bytes of the code range are mapped if and only if what the start skips
  of its first page still fits the count (`UserMappings.CodeCoverage`), all bytes below the stack address if and only if
  it is aligned (`UserMappings.StackCoverage`): 0x1000 bytes of code at 0x1800, or of stack below 0x5800, are cut short
  (`UserMappings.UnalignedRangesAreCut`).
- Every fork loses two frames for good: the stack page and its table bought for the child, which the copy of the parent's
  stack then replaces (`ForkRuns.ForkLosesTwoFrames`).
- The allocator's NULL is also page 0. The two can be told apart from the second allocation on
  (`Frames.NullMeansExhausted`, `Frames.NullMayBePageZero`).
- A usable block clamped at 4 GiB is counted but never freed (`PmmTheory.ClampedBlockIsLost`), a block may end so
  close to 4 GiB that its loop never ends (`Pmm.LoopEndsIff`), pages are counted by size but numbered by address, so
  that RAM behind a hole is lost (`PmmTheory.NothingLostIff`, `PmmTheory.HoleLosesPages`), and a freed page need not
  be RAM to its last byte (`PmmTheory.FreedPagesAreWholeIff`).
- A kernel mapping made under a directory entry that was absent when a process was created is invisible to that process
  (`KernelHalf.KernelMappingSeenIff`, in a run `KernelHalfRuns.KernelMappingIsMissed`).
- Numbers print correctly exactly if they are not negative or, in base 10, above the smallest one
  (`Numerals.ReadsBackIff`).

## Model

| member | source | states |
|---|---|---|
| Words.MasksAreArithmetic | memory/paging.c:26-35 | the shifts and masks that split an address and an entry are division and remainder by page, table and directory sizes |
| Words.TableEntryIsOr | memory/paging.c:31 | or-ing present, writable and user into a table address gives the address plus 7 |
| Words.PageEntry | memory/paging.c:36 | an entry is always present, points to the frame of the physical address, and has the or of both flag parts below |
| Words.AlignedPageEntry | memory/paging.c:36 | for an aligned frame the entry is the address plus the flags with the present bit |
| Memory.UserHalf | inc/paging.h:14-15 | the user half is what lies below 3 GiB, in addresses, pages and directory entries |
| Pmm.SetBit | memory/pmm.c:143-146 | or-ing a bit into a bitmap byte sets that bit and no other |
| Pmm.ClearBit | memory/pmm.c:138-141 | and-ing with the complement clears that bit and no other |
| Pmm.PageAllocator.MarkUsed | memory/pmm.c:143-146 | of all pages below 4 GiB, exactly the page of the address becomes used |
| Pmm.PageAllocator.MarkFree | memory/pmm.c:138-141 | of all pages below 4 GiB, exactly the page of the address becomes free |
| Pmm.PageAllocator.AllocPage | memory/pmm.c:148-157 | returns the lowest free page and takes it, or NULL with the bitmap unchanged |
| Pmm.PageAllocator.GetMemmap | memory/pmm.c:45-83 | keeps the available entries below 4 GiB in order, clamped, at most 256, or reports which check refused the map |
| Pmm.PageAllocator.FreeBlock | memory/pmm.c:101-103 | terminates and frees exactly the pages the address loop visits |
| Pmm.PageAllocator.ReserveKernel | memory/pmm.c:131-136 | terminates and reserves exactly the pages visited over the kernel image |
| Pmm.PageAllocator.ReserveBitmap | memory/pmm.c:117-120 | reserves exactly the pages overlapping the bitmap bytes in use |
| Pmm.PageAllocator.Init | memory/pmm.c:88-129 | of the pages counted, exactly those visited for a usable block and overlapping neither kernel, bitmap nor text screen are free; all writes stay in the bitmap area |
| Pmm.LoopEndsIff | memory/pmm.c:101 | the 32-bit address loop ends if and only if the end is not past the last address of its residue class |
| Pmm.LoopMayNotEnd | memory/pmm.c:101 | a page-aligned block ending in the last page of the address space is one the loop never leaves |
| Pmm.VisitsIff | memory/pmm.c:101-103 | a page counts as visited if and only if some address of the loop falls in it |
| Pmm.AlignedVisits | memory/pmm.c:131-136 | for an aligned start the visited pages are those overlapping the range |
| PmmTheory.DisjointBlocksFit | memory/pmm.c:91-98 | disjoint blocks never count more pages than the 128 KiB bitmap area has bits |
| PmmTheory.MarkedPagesAreUsable | memory/pmm.c:100-104 | every page freed contains a byte of an available entry of the map |
| PmmTheory.MarkedIff | memory/pmm.c:60-104 | a page is freed if and only if an available entry ending below 4 GiB, not dropped because the block table was full, has a byte at the address visited in it |
| PmmTheory.NothingLostIff | memory/pmm.c:91-104 | every page freed is below the page count if and only if no block reaches past as many pages as were counted |
| PmmTheory.HoleLosesPages | memory/pmm.c:91-104 | the usual map with a hole below 1 MiB frees pages at the top that are never looked at |
| PmmTheory.PartialPageIsFreed | memory/pmm.c:100-104 | the usual first entry of a PC frees a page whose last kilobyte is not RAM |
| PmmTheory.FreedPagesAreWholeIff | memory/pmm.c:64-104 | all pages freed for an entry are memory as a whole if and only if it frees none or starts and ends on a page boundary |
| PmmTheory.ClampedBlockIsLost | memory/pmm.c:68-72 | a block clamped at 4 GiB is counted in full, or as nothing if it starts at 0, and frees no page |
| PmmTheory.FreePagesAreSafe | memory/pmm.c:109-128 | no byte of a free page is in the kernel image, on the text screen, or a bitmap byte the allocator reads |
| PmmTheory.FreeIff | memory/pmm.c:88-136 | of the pages counted, exactly those are free that a usable block visits and that have no byte of the kernel image, the text screen, or a bitmap byte that holds a page's bit |
| Frames.AllocationCount | memory/pmm.c:148-157 | a run of n allocations from N free pages leaves max(N - n, 0) and fails exactly if n exceeds N |
| Frames.AllocationOrder | memory/pmm.c:148-157 | the first N results are free pages, strictly increasing and below all still free; every later result is NULL |
| Frames.AllocationKeepsAll | memory/pmm.c:148-157 | a free page is afterwards either still free or among the pages returned |
| Frames.NullMeansExhausted | memory/pmm.c:148-157 | after one success, NULL is returned exactly if no page is free |
| Frames.NullMayBePageZero | memory/pmm.c:152 | NULL comes with a page in hand exactly if page 0 is free |
| Mmu.Mmu.CreatePageTable | memory/paging.c:17-23 | a fresh frame cleared word by word, nothing else changed |
| Mmu.Mmu.MapPage | memory/paging.c:25-37 | memory and pool change as the map-page function says, with or without a new table |
| Mmu.Mmu.MapPhysicalRegion | memory/paging.c:39-50 | the loop maps one page after the other in 32-bit address arithmetic |
| Mmu.Mmu.MapUserSpace | memory/paging.c:65-82 | both loops allocate and map one page after the other, code upward and stack downward |
| Mmu.Mmu.CloneKernelSpace | memory/paging.c:84-88 | entries 768 to 1023 come from the kernel directory, the others are kept |
| Mmu.Mmu.CopyPage | memory/paging.c:90-96 | the destination frame becomes equal to the source frame, nothing else changes |
| Mmu.Mmu.CopyAddrSpace | memory/paging.c:98-124 | the nested loops change memory and pool as the copy function says |
| Mmu.Mmu.InitPages | memory/paging.c:126-137 | directory creation and identity loop as the function says |
| Ownership.MapPageRefinesUpdate | memory/paging.c:25-37 | afterwards the page translates to the entry asked for, every other page as before, other directories see it only through a shared kernel table |
| Ownership.MapPageKeeps | memory/paging.c:25-37 | table separation and frame ownership are kept and only the target's own frames, shared kernel tables and free frames are written |
| Ownership.MapPageEntries | memory/paging.c:29-32 | present directory entries are never changed; an absent one that is used becomes the lowest free frame with the present, write and user bits and no other |
| Ownership.ConfinedKeepsView | memory/paging.c:25-124 | what is confined to one address space leaves every user page and word of every other process unchanged |
| Ownership.ConfinedTransitive | memory/paging.c:25-124 | confinement composes over consecutive operations |
| Ownership.MapUserSpaceKeeps | memory/paging.c:65-82 | mapping user space keeps ownership and is confined to that process, for any addresses and sizes, wrapping included |
| Ownership.MapRegionKeeps | memory/paging.c:39-50 | mapping on the kernel directory keeps ownership and is confined to kernel tables |
| UserMappings.MapUserSpaceMaps | memory/paging.c:65-82 | exactly the pages of which the size reaches the start, from the code page upward and from the page below the stack address downward, get fresh frames open to user code; every other user page keeps frame and contents |
| UserMappings.CodeCoverage | memory/paging.c:68-73 | the pages counted hold every byte of the code if and only if the ceiling does not wrap and start offset plus size fit the count |
| UserMappings.StackCoverage | memory/paging.c:76-81 | the pages counted hold every byte below the stack address if and only if it is page-aligned |
| UserMappings.UnalignedRangesAreCut | memory/paging.c:65-82 | a code range and a stack range, each of one page, of which half a page stays unmapped |
| Regions.MapRegionWalks | memory/paging.c:46-49 | exactly the n pages of the region are identity mapped, all other pages translate as before |
| Regions.RegionCoverage | memory/paging.c:41-44 | the two ceilings cover every byte of the region, with at most one page more, if and only if the first one does not wrap |
| Regions.MapPhysicalRegionCovers | memory/paging.c:39-50 | every byte of the region translates to itself with the flags asked for, pages outside the count as before |
| Regions.MapPhysicalRegionMaps | memory/paging.c:39-50 | exactly the pages from the first byte's to the last byte's are mapped to themselves with the flags asked for, and the next one exactly if an unaligned start and the size together still fit the pages the size alone needs; every other page walks as before |
| KernelHalf.FramebufferMapped | memory/paging.c:52-56 | every byte of the frame buffer is mapped to itself, writable for the kernel and written through |
| Regions.InitPagesIsIdentity | memory/paging.c:126-137 | exactly the first 8 MiB are identity mapped writable, nothing above, for exactly three frames, failing exactly if fewer are free |
| Regions.InitPagesFrame | memory/paging.c:128 | the kernel directory is the lowest free frame |
| AddressSpaceCopy.CopyPageChanges | memory/paging.c:113-122 | one inner step gives the child page a fresh frame with the parent page's words and leaves every other frame and walk alone |
| AddressSpaceCopy.CopyAddrSpaceCopies | memory/paging.c:98-124 | page by page: a copy on a fresh frame where the parent has a table, unmapped where the parent's page is, otherwise what the child had; the parent keeps its pages |
| AddressSpaceCopy.CopyAddrSpaceKeeps | memory/paging.c:98-124 | the copy keeps ownership, is confined to the child, and changes no directory but the child's user half |
| AddressSpaceCopy.CopiedEntries | memory/paging.c:102-111 | the child's directory gets a new table, open to user code, exactly where the parent has one, and keeps its entries elsewhere |
| CopyCost.CopyAddrSpacePaid | memory/paging.c:98-124 | costs one frame per present user directory entry plus one per present entry below, and fails exactly if fewer are free |
| CopyCost.MapPagePaid | memory/paging.c:29-32 | costs a frame exactly if the directory entry is absent |
| NewSpace.BuildSpaceKeeps | process/fork.c:21-28 | a new space maps one zeroed stack page and nothing else below the kernel half, copies the kernel's upper entries, and touches nothing that existed |
| NewSpace.BuildSpacePaid | process/fork.c:21-28 | costs exactly three frames |
| NewSpace.BuildSpaceFrames | process/fork.c:21-28 | directory, stack page and its table are the three lowest free frames in this order; page and table are open to user code, and the user half has no other table |
| Mmu.Mmu.BuildSpace | process/fork.c:21-28 | directory, kernel half and stack page are built as the function says |
| HeapCanonical.Canonical | memory/heap.c:29-43 | a tiling without free neighbours is determined by its used blocks |
| HeapCanonical.PlaceKeepsArena | memory/heap.c:32-43 | handing out keeps the tiling, adds exactly one used block, between 0 and 12 bytes larger than asked for |
| HeapCanonical.CoalesceSettles | memory/heap.c:63-71 | the single merging pass leaves no two free neighbours, keeps the tiling and all used blocks |
| HeapCanonical.FreeKeepsArena | memory/heap.c:59-72 | free keeps the tiling and removes exactly the freed block from the used ones |
| HeapCanonical.MallocFreeRestores | memory/heap.c:29-72 | malloc then free of the result restores the exact block list |
| HeapCanonical.FreesCommute | memory/heap.c:59-72 | two frees in either order give the identical list |
| HeapCanonical.FreeingAllRestores | memory/heap.c:59-72 | freeing all used blocks in any order restores the single block filling the page |
| HeapCanonical.RunKeepsArena | memory/heap.c:18-72 | every run of mallocs and frees before the first growth leaves the page tiled exactly with no free neighbours, all bytes accounted for, and as used blocks exactly those returned and not freed since |
| HeapCanonical.RunAndFreeAll | memory/heap.c:18-72 | a run followed by freeing everything ends in the state of heap_init |
| HeapCanonical.TiledDisjoint | memory/heap.c:29-45 | blocks of the list are disjoint, in address order, inside the page |
| HeapGrowth.MallocSound | memory/heap.c:29-57 | with any number of growths the block handed out lies in one heap page, overlaps nothing handed out before, and has the size asked for up to 12 bytes more |
| HeapGrowth.MallocOnlyRuns | memory/heap.c:18-57 | over any run of mallocs and other allocations heap_end stays listed and all blocks handed out are pairwise disjoint, each inside one heap page |
| HeapGrowth.PageRequest | memory/heap.c:29-57 | a request of at most 4084 bytes grows the heap only if nothing fits, then by exactly one page in which it succeeds, and fails exactly if no page is left; a growth keeps the list up to heap_end, hangs the page behind it, and moves heap_end there and heap_limit on |
| HeapGrowth.OversizeRequestDrains | memory/heap.c:47-56 | a larger request that fits nowhere takes every free page and returns NULL |
| HeapGrowth.NothingFitsOversize | memory/heap.c:31-45 | without frees, no block fits more than 4084 bytes |
| HeapMerging.MergeIsSafeIff | memory/heap.c:65-67 | the merging pass claims no byte outside the listed blocks if and only if no two free neighbours have a gap |
| HeapMerging.TilingHasNoGap | memory/heap.c:65-67 | before the first growth there is no such gap |
| HeapMerging.InitialArena | memory/heap.c:18-27 | heap_init makes one block that fills the lowest free frame, with heap_end at its start and heap_limit at its end |
| HeapMerging.ArenaIsSound | memory/heap.c:29-57 | until the first growth any mix of malloc and free leaves a list that can grow without harm to any block in use |
| HeapMerging.ListRunIsRun | memory/heap.c:18-72 | as long as every request fits the page, the heap moves as the block list alone does |
| HeapMerging.LiveBlocksSurviveGrowth | memory/heap.c:18-72 | after any mallocs and frees up to the first growth and any mallocs and growths from then on, all blocks in use are pairwise disjoint, each inside one heap page |
| HeapLive.MergeSafeIff | memory/heap.c:63-71 | the merging pass keeps live memory off the list if and only if every merge takes over spare heap bytes, and heap_end listed if and only if it is not absorbed |
| HeapLive.CoalesceEndIff | memory/heap.c:63-71 | heap_end stays listed if and only if its block is not free behind a free block |
| HeapLive.FreeIsSafeIff | memory/heap.c:59-72 | freeing a live block keeps the others disjoint, off the free list and in heap pages if and only if each merge takes over spare bytes; separately, it keeps heap_end listed if and only if its block is not free behind a free block |
| HeapLive.AdjacentMergesAreSpare | memory/heap.c:65-67 | comparing addresses before merging is enough for the first of them |
| HeapLive.ArenaFreeIsGuarded | memory/heap.c:59-72 | before the first growth every free passes both |
| HeapLive.MallocKeepsSafe | memory/heap.c:29-57 | malloc keeps live memory safe, with merged blocks and any number of growths, and its block overlaps no live one |
| HeapLive.FreesBeforeGrowthAreSafe | memory/heap.c:18-72 | a run that frees only while its requests fit the first page, and may grow from then on, is safe in every state |
| HeapLive.RunIsSafeIff | memory/heap.c:29-72 | over any run of mallocs, frees of live blocks and other allocations, live memory is off the list and heap_end on it in every state if and only if every free passes both checks |
| HeapLive.NoFreesIsSafe | memory/heap.c:29-57 | without frees it always is, and its list stays in address order, because the lowest frame is taken first |
| HeapLive.HeapInitIsSafe | memory/heap.c:18-27 | heap_init starts such a run |
| HeapFaults.UnguardedMergeExposes | memory/heap.c:59-72 | after a free with a merge over bytes that are not spare, some requests hand out live or foreign memory |
| HeapFaults.AbsorbedEndBreaks | memory/heap.c:47-72 | after a free that absorbs heap_end, the next request that fits nowhere takes every free frame and fails; if the merges were between adjacent blocks, some requests hand out a block with the link of heap_end in its payload |
| HeapFaults.GrowthWorksIff | memory/heap.c:47-56 | with a frame left, a request of at most a page that fits nowhere is met if and only if heap_end is on the list |
| HeapFaults.SplitListsEndAgain | memory/heap.c:33-40 | a concrete heap in which a split puts heap_end back on the list |
| HeapFaults.LostEndDrains | memory/heap.c:47-56 | once heap_end is off the list a request that does not fit takes every free frame and returns NULL |
| HeapFaults.HeapEndIsAbsorbed | memory/heap.c:29-72 | a concrete run without any gap in which heap_end is absorbed, its link lies in a live payload, and the next request drains the pool and fails |
| HeapFaults.FreeAfterGrowthOverlaps | memory/heap.c:47-72 | a concrete run after a growth in which malloc hands out memory of a live block |
| KernelHeap.KernelHeap.Init | memory/heap.c:18-27 | the first page becomes one free block that is start and end of the list |
| KernelHeap.KernelHeap.FindFit | memory/heap.c:30-45 | the list walk stops at the first free block that is large enough, or at the end of the list |
| KernelHeap.KernelHeap.HandOut | memory/heap.c:33-42 | the block found is split or taken whole, in place |
| KernelHeap.KernelHeap.GrowHeap | memory/heap.c:47-55 | a page is taken and listed behind heap_end, or the list is left alone |
| KernelHeap.KernelHeap.Malloc | memory/heap.c:29-57 | list, pool and result are those of the malloc function; the recursion terminates with the free pages |
| KernelHeap.SafeIsGrowable | memory/heap.c:29-57 | every heap in which live memory is safe has what malloc asks for |
| KernelHeap.KernelHeap.MergePass | memory/heap.c:63-71 | the loop over the linked nodes computes the merging pass |
| KernelHeap.KernelHeap.Free | memory/heap.c:59-72 | clears the flag of the given header and merges, and keeps heap_end on the list unless it is free behind a free block |
| SystemInvariant.StepKeeps | process/fork.c:17-74 | every event keeps the whole invariant, is confined to the address space it acts on, and loses no process |
| SystemInvariant.CreateKeeps | process/fork.c:17-37 | creating a process keeps the invariant on a directory that was free, confined to the new space |
| SystemInvariant.ForkKeeps | process/fork.c:63-74 | forking keeps the invariant and is confined to the child |
| SystemRuns.BootSound | memory/paging.c:126-137 | boot needs exactly four frames, and with them ends in a sound state that wrote only free frames |
| SystemRuns.FramesAreExclusive | memory/paging.c:25-124 | in every reachable state the frame behind a user page is behind no other page of any process, and no directory, table, page given to the heap or free frame |
| SystemRuns.RecordsAreDisjoint | process/fork.c:18 | the 36-byte process records never overlap and each lies inside one heap page |
| SystemRuns.PidsAreUnique | process/fork.c:19-35 | pids count down along the list to 1, the next one exceeds them all, and the counter never wraps |
| SystemRuns.ReservedFramesUntouched | memory/pmm.c:106-126 | frames that were not free at boot are never written in any run |
| SystemRuns.UserFramesWereFree | memory/paging.c:65-124 | every frame behind a user page was free at boot |
| SystemRuns.OnlyOwnEvents | process/fork.c:17-74 | only a process's own faults and stores, and mappings made for it, act on it |
| SystemRuns.Isolation | process/fork.c:17-74 | over any run a process sees the same user pages and words until an event acts on it |
| ForkTheorems.ForkIsDeepCopy | process/fork.c:63-74 | the child's user half is page by page a copy on fresh frames where the parent has a table, and has nothing but its own stack page elsewhere; the parent is unchanged and still current |
| ForkTheorems.NewProcessPages | process/fork.c:17-33 | a new process has one zeroed page, its stack, and no other user page |
| ForkTheorems.NewProcessRecord | process/fork.c:17-37 | the record is new in front of the list, with esp and ebp 0xBFFFF0, eflags 0x202, ready, the entry point asked for and the next pid, in a new heap block of at least 36 bytes; list and current process are otherwise kept |
| ForkTheorems.NewProcessStack | process/fork.c:26-27 | the stack page is on a frame that was free, open to user code |
| ForkTheorems.ForkRecord | process/fork.c:63-67 | a child's record is such a record with the parent's entry point |
| ForkTheorems.ForkedProcessesAreIsolated | process/fork.c:63-74 | after a fork neither process ever sees the other's stores, faults or mappings |
| ForkTheorems.CreatePaid | process/fork.c:17-37 | creating a process costs exactly three frames and at most one heap page |
| ForkTheorems.ForkPaid | process/fork.c:63-74 | a fork costs a process plus one frame per table and per page of the parent, and succeeds exactly if that many are free |
| ForkTheorems.FaultRemaps | memory/pf.c:7-20 | whatever the error code and the address, the faulting page gets the lowest free frame, open to user code, and every other page of the process is kept |
| ForkTheorems.StoreThenLoad | memory/paging.c:25-37 | a store through a mapped page changes exactly the word a load of that address sees |
| SystemRuns.EntriesAreOpen | memory/paging.c:29-32 | in every state reached from boot every directory entry in use, and the entry of every user page of a process, is a frame with the present, write and user bits and no other |
| SystemInvariant.MayWriteIff | memory/paging.c:29-36 | user code may write to exactly the mapped pages of its user half, and to those of the kernel half whose own entry lets it |
| Access.UserWritableIsBits | inc/paging.h:6-8 | an entry lets user code write exactly if its write and user bits are set |
| SystemInvariant.StoreTarget | memory/pf.c:17 | whatever a process stores to, also above 3 GiB, is a user page of its own or a page of the kernel half put there for user code: never kernel memory, a table, or a user page of another process |
| Access.MapPageUpper | memory/paging.c:25-37 | a mapping keeps every user-writable page of the kernel half on a frame handed out for one, unless it gives user code another frame there |
| Access.CopyAddrSpaceWrites | memory/paging.c:98-124 | the copy writes nothing but the child's directory and frames that were free |
| ForkRuns.StepMapsFresh | process/fork.c:17-74 | no event unmaps a user page or maps one on a frame already in use |
| ForkRuns.EveryProcessHasItsStack | process/fork.c:26-27 | in every state reached from boot every process has its stack page |
| ForkRuns.ForkCopiesWholeUserHalf | process/fork.c:63-74 | in a run from boot the child's whole user half is a copy: every page on a fresh frame with the parent's words, or unmapped as the parent's is |
| ForkRuns.ForkLosesTwoFrames | process/fork.c:26-28 | the stack page and table bought for the child are in no later state free, in any directory, or behind any user page |
| KernelHalf.StepKeepsEntries | memory/paging.c:84-102 | no event changes a present directory entry of an existing directory |
| KernelHalf.NewProcessSharesKernelHalf | process/fork.c:24 | created and forked processes start with the kernel's entries 768 to 1023 |
| KernelHalf.KernelHalfIsShared | memory/paging.c:84-88 | once shared, a kernel entry makes every page below it look the same to kernel and process in all later states |
| KernelHalf.MappingSeenIff | memory/paging.c:25-37 | a mapping made in one directory is seen in another exactly if they already had the table of that page in common |
| KernelHalf.KernelMappingSeenIff | memory/paging.c:25-37 | a kernel mapping is seen by an existing process exactly if the table was already shared |
| KernelHalf.FaultSeenIff | memory/pf.c:17 | a page fault changes the page for another process or the kernel exactly if they share its table, which is only possible above 3 GiB |
| KernelHalfRuns.KernelMappingIsMissed | memory/paging.c:84-88 | boot, create, map a page at 3 GiB: the kernel has it and the process does not |
| KernelHalfRuns.FaultIsSeenByOthers | memory/pf.c:17 | boot, map a page at 3 GiB, create two, fault there in one: the other sees the fresh frame instead of what it saw before |
| Prices.MapUserSpacePaid | memory/paging.c:65-82 | costs one frame per page and one per table its pages need that is not there yet |
| Prices.MapRegionPaid | memory/paging.c:39-50 | costs one frame per table that is not there yet |
| Prices.FaultPaid | memory/pf.c:12-17 | costs a page, and a table if there is none |
| Prices.StepPaid | process/fork.c:17-74 | every event takes exactly its price and runs out of frames if and only if fewer are free |
| Prices.RunPaid | process/fork.c:17-74 | every run takes exactly the sum of its prices and runs out of frames if and only if fewer are free |
| Prices.BootRunPaid | memory/paging.c:126-137 | for any set of free frames, no allocation of boot and the run fails if and only if four frames and the price of the run are free |
| WholeStack.KernelMemoryIsSafe | memory/pmm.c:106-126 | from the memory map on, no run writes a page of the kernel image, the bitmap in use or the text screen, and no process maps one in its user half |
| WholeStack.BootKernel | core/init.c:28-45 | pmm_init, init_pages and heap_init on the classes end in the state the run theorems start from |
| Kernel.Kernel.CreateProcess | process/fork.c:17-37 | record, address space, list head and next pid change as the create function says |
| Kernel.Kernel.HeapIsReady | process/fork.c:18 | the system invariant gives what the next malloc of a record asks for, so the operations can follow each other |
| Kernel.Kernel.Fork | process/fork.c:63-74 | -1 and no copy without a current process or without a record for the child, else the child's pid and the state of the fork function |
| Kernel.Kernel.Schedule | process/fork.c:52-61 | the pointer walk selects the successor, or the head at the end of the list |
| Kernel.Kernel.SwitchTo | process/fork.c:39-41 | a null argument changes nothing, any other becomes current |
| Kernel.Kernel.PageFault | memory/pf.c:7-20 | allocation and mapping happen after either message; a protection fault is reported for odd error codes, a lack of memory exactly if no page is free or page 0 is |
| Scheduling.NextTurnExactly | process/fork.c:52-61 | a process that ran in a list of n is selected again by call n + k exactly, k counting creations before the scan wraps; later creations do not delay it |
| Scheduling.AtMostOneTurn | process/fork.c:52-61 | between two turns of a process every other one runs at most once |
| Scheduling.RunIsRingRun | process/fork.c:34-61 | over any system run list and current process move as the ring does |
| Scheduling.NoStarvation | process/fork.c:34-61 | in the system, the next tick selects a waiting process exactly at tick n + k and never later |
| Scheduling.FirstTick | process/fork.c:52-59 | the first selection is the head of the list, an empty list selects nobody, and nothing else changes |
| Scheduling.FirstTurnExactly | process/fork.c:34-61 | before anybody has run, the process at position k is first selected at tick k + b + 1 exactly, b counting the creations before the first tick; later creations do not delay it |
| Numerals.ReadsBackIff | lib/stdio.c:41-65 | the text of a number reads back as the number if and only if it is not negative, or base 10 and above the smallest |
| Numerals.NegativeHexIsWrong | lib/stdio.c:52-53 | -48 in base 16 prints as -0 |
| Numerals.PointerReadsBack | lib/serial.c:70-94 | a pointer's text is 0x and digits that read back as the pointer, at most ten characters |
| Numerals.PointerLength | lib/serial.c:70-94 | it has at most k digits if and only if the pointer is below 16^k, so no leading zeros |
| Numerals.TextLength | lib/stdio.c:41-65 | a text has at most k digits, besides a decimal's sign, if and only if the magnitude is below base^k |
| Numerals.NegativeText | lib/stdio.c:45-53 | a negative number in another base than 10 prints as many characters as its magnitude has digits, each as far below 0 as the digit is above |
| Numerals.DecimalFits | lib/serial.c:117 | a decimal text with terminator fits 12 bytes and fills them exactly from -1000000000 down |
| Numerals.DigitsFitTemporary | lib/serial.c:38 | the digits and sign fit the 32-byte temporary in every base |
| Formatting.ReverseInPlace | lib/stdio.c:60-64 | the buffer part is reversed and the rest kept |
| Formatting.Itoa | lib/stdio.c:41-65 | writes the text of the number and a terminator, nothing beyond |
| Formatting.SerialItoa | lib/serial.c:37-68 | writes the same text as the other itoa, for every number and base |
| Formatting.Ptoa | lib/serial.c:70-94 | writes the text of the pointer and a terminator |

## Left out

- Assembly, port I/O, CR3 and invlpg, the TLB, accessed and dirty bits, and interrupts arriving inside an operation.
- The boot order in core/init.c beyond page setup and heap setup (the text screen is mapped between the two, on tables that exist, which the runs can do as their first event), gdt, idt, drivers, the RAM file system, and the
  screen and varargs code of the printers.
- Mmu.Mmu.CopyPage: copies word by word where the code copies byte by byte; for page-aligned frames the result is the same.
- ForkTheorems.StoreThenLoad: stores are aligned words; a byte store is a word store that keeps the other three bytes.
- KernelHeap.KernelHeap.Free: headers are objects with an address, not words of a frame, so a header overwritten after an unsafe merge is not modelled; the list after the merge is.
- KernelHeap.KernelHeap.Malloc: asks that `heap_end` is listed, which fails only after a free that absorbs it (`HeapLive.FreeIsSafeIff`); the code then writes a link into memory that belongs to another block, which needs headers as words of memory.
- KernelHeap.KernelHeap.GrowHeap: asks for the same.
- Kernel.Kernel.CreateProcess: after a failed malloc the code fills in the record at address 0 and makes NULL the head of the list, so that the list is lost; the model lists a record at address 0 and leaves frame 0 alone. Theorems about runs exclude failed allocations.
- Kernel.Kernel.Fork: the same holds for the state it leaves when it returns -1 because the child's record is NULL.
- Regions.MapPhysicalRegionCovers: on the kernel directory, the only one the kernel passes; mapped into the user half of a process a region would give it frames it does not own.
- Regions.MapRegionWalks: on the kernel directory, likewise.
- Ownership.MapRegionKeeps: on the kernel directory, likewise.
- Kernel.Kernel.PageFault: asks for a current process; without one the code allocates a frame and then maps through a NULL record, whose directory is whatever low memory holds. In the run theorems such a fault does nothing.
- Frames are read and written by physical address, although once paging is on only the first 8 MiB are identity mapped: a kernel whose frames lie above cannot reach them.
- Freeing is not an event of the system machine, because nothing in the process code frees memory.
- Numerals.ReadsBackIff: negating the smallest int is taken to wrap, which the C language leaves undefined.
- Pmm.PageAllocator.Init: the memory map is a sequence of entries; the record size field and the pointer walk over the boot loader's memory are left out, and a map on which a loop does not end or that counts more pages than the bitmap area holds is excluded by a precondition.
