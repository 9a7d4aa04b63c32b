# AxeialOS verification

A Dafny model of the parts of the AxeialOS kernel whose correctness rests on invariants rather than on
hardware: the physical page allocator and its boot code, the four-level page tables with address-space
creation, teardown and isolation, fork's page copy, zeroed ranges and the ELF segment loader, the slab
heap, the per-CPU scheduler and the load balancer, the in-memory filesystem with its cpio parser and the
two path walkers, byte streams over partitioned block devices, and the recursive mutex.

Code that updates state in place is modelled by classes and methods whose contracts tie the new state to
a specification function or state the promised property outright; the properties that span operations are
lemmas over the specification. `dafny verify dfyconfig.toml` checks everything.

| file | what it holds |
|---|---|
| `Bits`, `Pte`, `Common` | 64-bit words as numbers, page-table entries, small shared types |
| `Pmm`, `PmmBoot` | the bitmap allocator; boot from the memory map |
| `PageTables`, `Spaces` | the tree of tables in physical memory, its ownership invariant, the effect of each write |
| `Vmm`, `Teardown`, `Runs`, `Drivers`, `HugePages` | the memory manager's methods, teardown, whole runs and the methods that make them, a huge page |
| `Fork`, `ZeroedRange`, `PhysBytes`, `Elf`, `ElfAlignment` | page copy, zeroed ranges, memory by bytes, segment loading |
| `Slab` | the kernel heap up to 2048 bytes |
| `Scheduler`, `SchedulerOutcome`, `SchedulerRuns`, `LoadBalance` | queues and selection, the outcome of a call written out, conservation and starvation, balancing |
| `RamFs`, `Vfs`, `Cpio`, `MountTermination`, `ArchiveReads` | the tree, the two walkers, the parser and when it ends, the end-to-end round trip |
| `BlockStream` | the DevFS cursor over a partition |
| `Mutex` | the recursive mutex as a step machine |

## Results that differ from what one might expect

- The boot code frees the page a usable region starts in even when the region starts inside that page
  (`PmmBoot.RegionPagesExact`).
- `Elf64Load` adds the page offset to an address that already contains it, so a segment is placed right
  exactly when its address is page-aligned or it has nothing to copy (`ElfAlignment.RightIffAligned`).
- `ThreadExit` queues the running thread as a zombie while its state is one `Schedule` treats as ready, so
  the thread is destroyed and still queued (`SchedulerRuns.ThreadExitLosesConservation`). A call of
  `Schedule` is sound exactly when the running thread is not on the zombie queue yet, whatever its state
  (`SchedulerRuns.ScheduleKeepsIff`): a terminated one would be queued and destroyed a second time.
- An archive header whose length wraps the 32-bit offset can make the mount loop stand still
  (`Cpio.WrapStandsStill`); the loop ends exactly when the parser never returns to an offset
  (`MountTermination.StopsIff`), and in particular when no header wraps.
- The page-table walker does not look at the page-size bit. Its walk is the processor's exactly when no huge
  page lies on it (`Vmm.CodeWalkIff`), and on a huge page its lookup can answer that nothing is mapped
  (`HugePages.LookupMissesHugePage`). User halves never hold one (`Runs.NoHugeInUserHalf`).
- `RamFSAttachPath` silently loses a node under a directory with 64 entries and duplicates a name beside a
  file in the way; `RamFs.AttachIff` says exactly when it inserts.
- A space copies the kernel's top entries once, so a slot the kernel fills later stays invisible to spaces
  created before (`Runs.FirstMapSeenIff`); present slots stay shared over every run (`Runs.KernelHalfShared`).
- A PT_LOAD header with `p_memsz` 0 makes `Elf64Load` fail, because no pages can be allocated for it.
- A mutex nested 2^32 times loses its count (`Mutex.WrapLosesCount`).
- `MapPage` on a page that is already mapped answers 1 and changes nothing; the comments in the source
  call this success, and the model keeps it.

## Model

| member | source | states |
|---|---|---|
| `Pmm.SetTest` | Kernel/PMM/Bitmap.c:42-48 | setting a page's bit in the word array marks that page and no other |
| `Pmm.ClearTest` | Kernel/PMM/Bitmap.c:50-56 | clearing a page's bit releases that page and no other |
| `Pmm.SameBits` | Kernel/PMM/Bitmap.c:58-64 | the word array is determined by its bits, so equal used sets of all bits mean equal bitmaps |
| `Pmm.Allocator.TestBitmapBit` | Kernel/PMM/Bitmap.c:58-64 | true exactly for the pages of the used set |
| `Pmm.Allocator.SetBitmapBit` | Kernel/PMM/Bitmap.c:42-48 | the used set gains exactly that page |
| `Pmm.Allocator.ClearBitmapBit` | Kernel/PMM/Bitmap.c:50-56 | the used set loses exactly that page |
| `Pmm.Allocator.Empty` | Kernel/PMM/Bitmap.c:33-37 | the zeroed bitmap, one word per 64 pages rounded up, with no page marked |
| `Pmm.Allocator.FindFreePage` | Kernel/PMM/PMM.c:5-31 | the first free page at or after the hint, else the first from the start; not found exactly when every page is used; the hint moves just past the page and stays at most TotalPages |
| `Pmm.Allocator.AllocPage` | Kernel/PMM/PMM.c:88-108 | 0 exactly when no page is free (both as FreePages = 0 and as every bit set); otherwise one free page, never page 0, becomes used; the accounting invariant (counters count the bits, Used + Free = Total, page 0 used, hint in range) is kept |
| `Pmm.Allocator.FreePage` | Kernel/PMM/PMM.c:110-133 | exactly when a release is refused as invalid or as a double free; otherwise exactly that page is released; accounting kept |
| `Pmm.Allocator.AllocPages` | Kernel/PMM/PMM.c:135-194 | for n >= 2 the lowest run of n free pages, 0 exactly when there is no such run; exactly that run is marked; the free count falls by n |
| `Pmm.Allocator.FindRun` | Kernel/PMM/PMM.c:160-190 | the search loop finds the lowest start of a free run, or there is none |
| `Pmm.Allocator.RunFits` | Kernel/PMM/PMM.c:149-160 | a free run is never longer than FreePages and never starts at page 0, so TotalPages - n does not underflow |
| `Pmm.Allocator.FreePages` | Kernel/PMM/PMM.c:196-212 | every releasable page of the addressed range, in 64-bit arithmetic, and no other leaves the used set; accounting kept |
| `Pmm.ReleaseUsed` | Kernel/PMM/PMM.c:196-212 | what a sequence of single releases does to the used set |
| `Pmm.ReleasableRange` | Kernel/PMM/PMM.c:196-212 | without a 64-bit wrap the releasable pages are the pages of the range but page 0, and none when the address is unaligned |
| `Pmm.AllocFreeRoundTrip` | Kernel/PMM/PMM.c:135-212 | FreePages of what AllocPages returned gives back the bitmap word for word |
| `PmmBoot.ParseMemoryMap` | Kernel/PMM/MemMap.c:3-66 | the first 64 entries classified, and the page count up to the highest end, in 64-bit arithmetic; where nothing wraps, the least page count that covers them all |
| `PmmBoot.FindBitmapPlace` | Kernel/PMM/Bitmap.c:12-28 | the base of the first usable region with room for the bitmap; 0 when there is none or when it starts at address 0 |
| `PmmBoot.ReleaseRegion` | Kernel/PMM/MemMap.c:85-95 | the existing pages of a region leave the used set |
| `PmmBoot.MarkMemoryRegions` | Kernel/PMM/MemMap.c:68-114 | all pages, minus the usable regions' pages, plus the bitmap's own pages, are used |
| `PmmBoot.CountPages` | Kernel/PMM/PMM.c:66-81 | UsedPages counts the set bits and UsedPages + FreePages = TotalPages |
| `PmmBoot.InitializePmm` | Kernel/PMM/PMM.c:33-86 | boot leaves the used set above and exact counters; it fails exactly when no usable place for the bitmap exists; the allocator's invariant holds exactly when page 0 is not offered as usable or lies under the bitmap; on page-aligned usable entries a page is free exactly when it lies wholly in a usable one of the boot loader's first 64 entries and holds no byte of the bitmap's words |
| `PmmBoot.RegionPagesExact` | Kernel/PMM/MemMap.c:85-95 | the code frees exactly the whole pages of a region if and only if the region is page-aligned or shorter than a page |
| `PmmBoot.FreeAfterBoot` | Kernel/PMM/MemMap.c:68-114 | on page-aligned usable regions a page is free after boot exactly when it is a whole page of a usable region and holds no byte of the bitmap |
| `Pte.TableEntryFacts` | Kernel/VMM/Pages.c:36-41 | the entry the walker installs is present, is no huge page, and masks back to the table's frame |
| `Pte.LeafEntryFrame` | Kernel/VMM/VMM.c:198-198 | the stored entry is present and carries the requested frame, with the flags' own address bits or-ed in |
| `Pte.LeafEntryFlags` | Kernel/VMM/VMM.c:198-198 | outside the address field the entry carries exactly the caller's flag bits, plus present |
| `Pte.UseKeeps` | Kernel/VMM/Pages.c:36-41 | an accessed or dirty bit the processor sets in an entry changes neither what it leads to nor whether it is present or huge |
| `PageTables.WalkFacts` | Kernel/VMM/Pages.c:13-58 | every table a walk reaches is recorded with its level, its index and the table the walk came from |
| `PageTables.WalkUnique` | Kernel/VMM/Pages.c:13-58 | two walks that meet in a table used the same indices, and in a user half the same root |
| `PageTables.LeafWriteTranslate` | Kernel/VMM/VMM.c:190-198 | writing one leaf entry changes exactly the translations that read it: that page number in the spaces sharing the table, and in a user half in no other space |
| `PageTables.InstallInv` | Kernel/VMM/Pages.c:22-36 | linking a fresh zeroed table keeps tree shape and ownership |
| `PageTables.InstallTranslate` | Kernel/VMM/Pages.c:22-36 | linking a fresh zeroed table changes no translation of any space |
| `PageTables.TouchedInv` | Kernel/VMM/Pages.c:36-41 | the processor's accessed bit in a table entry keeps tree shape and ownership |
| `PageTables.TouchedTranslate` | Kernel/VMM/Pages.c:36-41 | and changes no translation of any space |
| `Spaces.InstallStep` | Kernel/VMM/Pages.c:22-36 | one table installation keeps the whole state invariant, all earlier walks and all translations |
| `Spaces.LeafStep` | Kernel/VMM/VMM.c:190-198 | one leaf write keeps the invariant and has exactly the stated effect on every space |
| `Spaces.UserUnshared` | Kernel/VMM/VMM.c:34-90 | two spaces never reach the same table in their user halves |
| `Spaces.CreateInv` | Kernel/VMM/VMM.c:34-90 | a created space keeps tree shape, ownership and frame accounting |
| `Spaces.CreateTranslate` | Kernel/VMM/VMM.c:78-86 | a new space has an empty user half and the kernel's upper half, and no other space changes |
| `Vmm.Manager.constructor` | Kernel/VMM/VMM.c:5-32 | taking over the boot PML4 as the kernel space establishes the invariant |
| `Vmm.Manager.GetPageTable` | Kernel/VMM/Pages.c:3-61 | without creation nothing changes and the answer is the walk the code makes; where no huge page lies on the walk the returned frame is the processor's page table; with creation it succeeds exactly when enough pages are free for the missing tables, takes exactly that many, and when it fails midway no translation changes, the invariant holds and no page is left free |
| `Vmm.Manager.CreateVirtualSpace` | Kernel/VMM/VMM.c:34-90 | fails exactly when fewer than two pages are free, then leaving nothing allocated; otherwise the created state |
| `Vmm.Manager.MapPage` | Kernel/VMM/VMM.c:165-204 | returns 1 exactly for valid aligned arguments with enough pages for the missing tables, takes exactly that many pages; then insert-if-absent at that page and no other change; on 0 no translation of any space changes, and valid arguments fail only with the last free page gone; invariant kept; invalid arguments change nothing, and no other space's PML4 is written |
| `Vmm.Manager.UnmapPage` | Kernel/VMM/VMM.c:206-238 | returns 1 exactly when the page was mapped; then that translation is removed and no other changes |
| `Vmm.Manager.GetPhysicalAddress` | Kernel/VMM/VMM.c:240-268 | the lookup the code makes, at every address; where no huge page lies on the walk the answer has the frame of the translated entry and the page offset of the address, and is 0 when nothing is mapped; state unchanged |
| `Vmm.Manager.FollowTables` | Kernel/VMM/Pages.c:10-60 | the non-creating loop is the walk that follows every present entry whatever its page-size bit |
| `Vmm.CodeWalkIff` | Kernel/VMM/Pages.c:13-58 | that walk is the processor's if and only if no huge page lies on it |
| `HugePages.LookupMissesHugePage` | Kernel/VMM/VMM.c:240-268 | a machine that satisfies the invariant and maps a huge page in its kernel half, where the code's lookup answers that nothing is mapped |
| `Runs.MapsRefine` | Kernel/VMM/VMM.c:165-238 | on the map from page numbers to entries, MapPage is insert-if-absent and UnmapPage is delete, in the space they name only |
| `Runs.StepView` | Kernel/VMM/VMM.c:34-238 | one step of the machine, the processor's accessed and dirty bits included, changes a user page of a living space exactly as the one-cell specification says |
| `Runs.Isolation` | Kernel/VMM/VMM.c:34-238 | over every run of create, destroy, map, unmap, accessed and dirty bits and outside writes, allocations and releases, a user page's final translation depends only on its own space's maps, unmaps and uses of it |
| `Runs.BornEmpty` | Kernel/VMM/VMM.c:34-90 | a space created in a run starts with an empty user half and the kernel's upper half |
| `Runs.KernelHalfUntouched` | Kernel/VMM/VMM.c:165-238 | mapping and unmapping in a user half never shows in any kernel half |
| `Runs.KernelHalfShared` | Kernel/VMM/VMM.c:83-86 | over every run, a space that shares a present top entry with the kernel goes on seeing exactly what the kernel sees below it |
| `Runs.BornShared` | Kernel/VMM/VMM.c:83-86 | a new space shares exactly the kernel's top entries present at its creation |
| `Runs.FirstMapSeenIff` | Kernel/VMM/VMM.c:83-86 | what the kernel maps in a slot is seen by a space with the same top entry if and only if the entry was present before: a slot filled later stays invisible to older spaces |
| `Drivers.Perform` | Kernel/VMM/VMM.c:34-238 | each request makes the step it asks for, with the answer its arguments and the state determine (map succeeds exactly for aligned arguments with enough free pages, unmap exactly on a mapped page), or changes nothing where it asks for nothing |
| `Drivers.PerformAll` | Kernel/VMM/VMM.c:34-238 | any sequence of requests: each got its answer and made its step, and every user page of every space that lives throughout ends as its own space's maps and unmaps of it make it |
| `Teardown.BelowStep` | Kernel/VMM/VMM.c:110-155 | each entry adds its table and everything below it to the set to release, all of it new: no frame is met twice |
| `Teardown.BelowRoot` | Kernel/VMM/VMM.c:110-155 | what hangs below the user half of a PML4 is exactly that space's user tables |
| `Teardown.DestroyedInv` | Kernel/VMM/VMM.c:92-163 | what remains after a teardown satisfies the invariant |
| `Vmm.Manager.ReleaseBelow` | Kernel/VMM/VMM.c:110-155 | the nested loops release exactly the tables below, each once, every release accepted |
| `Vmm.Manager.DestroyVirtualSpace` | Kernel/VMM/VMM.c:92-163 | drops a reference; at the last one the user-half tables, the PML4 and the structure are each released exactly once, no release is refused as a double free, no kernel-half table and no leaf frame is released; null and the kernel space are refused |
| `Fork.TakeAndFill` | Kernel/Proc/Proc.c:437-447 | taking a fresh frame and filling it is invisible to every space |
| `Fork.CopyStep` | Kernel/Proc/Proc.c:424-453 | copying one page and mapping it extends the set of copies by exactly that page |
| `Fork.CopyEntryFrame` | Kernel/Proc/Proc.c:449-453 | the child's entry is present and leads to the new frame |
| `Fork.CopyEntryBits` | Kernel/Proc/Proc.c:449-453 | bit by bit: present is set; writable, user, write-through, cache-disable, accessed, dirty and no-execute are the parent's; every other bit outside the address field is clear |
| `Fork.CopyPage` | Kernel/Proc/Proc.c:436-453 | one page's copy; a failed allocation changes nothing, a failed mapping is passed over as in the source; either happens only with the last free page gone, and never with four free pages for every page left to copy |
| `Fork.CopyBelow` | Kernel/Proc/Proc.c:387-457 | one of the nested loops: every selected page below a table is copied, the rest skipped; an allocation fails only with the last free page gone |
| `Fork.CopyUserPages` | Kernel/Proc/Proc.c:386-457 | if no allocation failed the child maps exactly the parent's user-flagged pages from UserVirtualBase up, each in its own fresh frame with equal contents and the kept flags; in every case the parent's translations and all allocated data are unchanged; an allocation fails only with the last free page gone, and four free pages for every selected page always suffice |
| `Fork.ChildReadsParent` | Kernel/Proc/Proc.c:386-457 | reading the child after a complete copy: a page is there exactly when the parent's entry has the user bit and the address is at least 0x400000, with the parent's flag bits as kept, and the parent's contents in a frame that was free before |
| `ZeroedRange.OnlyHere` | Kernel/VMM/VMM.c:165-204 | a mapping made in a user half is seen by its own space alone |
| `ZeroedRange.VirtMapRangeZeroed` | Kernel/Proc/VirtBin/VLoader.c:32-60 | on success the range maps consecutive fresh zeroed frames where it was unmapped; pages before a failed mapping stay; all other translations of all spaces and all allocated data are unchanged in either case; it fails only for an empty or unaligned range, without a free run of that length, or with the last free page gone and the next page's table missing; four free pages a page and a free run always suffice; it never takes more, and after a failed mapping the rest of the run stays allocated and unmapped |
| `PhysBytes.PackedBytes` | BootImg/ELFLoader/ELF.c:258-270 | bytes stored through 64-bit words read back as the same bytes |
| `Elf.CopyChunk` | BootImg/ELFLoader/ELF.c:250-270 | at any page offset, stores file bytes while there are any and zeros after them at GetPhysicalAddress's answer plus the page offset, possibly across a frame's end, and changes no other byte of memory |
| `Elf.CopySegment` | BootImg/ELFLoader/ELF.c:234-273 | the copy loop fills every page of the segment and never fails on a range just mapped |
| `Elf.LoadSegment` | BootImg/ELFLoader/ELF.c:182-278 | one PT_LOAD header: mapped, filled, and nothing outside its pages changed, also when it fails; it fails only on an empty segment, a file too short, without a free run, or with the last free page gone; with pages and a run it succeeds exactly when the header can load; it takes at most four pages a page |
| `Elf.Elf64Load` | BootImg/ELFLoader/ELF.c:173-284 | after success every PT_LOAD segment is in consecutive fresh frames with the header's flags and its image as contents, earlier segments surviving later ones; nothing outside the segments' pages changes in any space, and at most four pages a page are taken, whether it succeeds or fails; a failure is without headers or at one header, the segments before it in memory, that has p_memsz 0 or bytes past the file, finds no free run, or took the last free page |
| `Elf.SegmentFlags` | BootImg/ELFLoader/ELF.c:190-202 | bit by bit, a loaded segment's entries are present and user, writable exactly when the header asks for it, no-execute exactly when the header is not executable, and carry no other flag |
| `Elf.TranslatedByte` | Kernel/VMM/VMM.c:240-268 | the byte read through a translation is the byte at the physical address GetPhysicalAddress gives, at every address |
| `Elf.SegmentReads` | BootImg/ELFLoader/ELF.c:173-284 | a loaded segment reads as the file's bytes up to p_filesz and as zeros up to p_memsz |
| `ElfAlignment.CopyLoop` | BootImg/ELFLoader/ELF.c:234-273 | the copy loop at any alignment, each chunk placed from GetPhysicalAddress's answer: over a range that maps consecutive frames, what it leaves in physical memory is the recursive function the next row is about, and the page tables stay sound |
| `ElfAlignment.RightIffAligned` | BootImg/ELFLoader/ELF.c:234-273 | what that loop leaves is right for every file content if and only if p_vaddr is page-aligned or there is nothing to copy, because the page offset is added twice |
| `Scheduler.Stride` | Kernel/AxeThreads/Scheduler.c:528-556 | every stride lies between 1 and 64 |
| `Scheduler.Pick` | Kernel/AxeThreads/Scheduler.c:497-574 | the selected index holds the least cooldown and is the first to hold it |
| `Scheduler.RotateDispatch` | Kernel/AxeThreads/Scheduler.c:558-569 | a turn of the retry loop changes neither the thread that will be selected, nor the queue left behind, nor any final cooldown |
| `Scheduler.RotateMeasure` | Kernel/AxeThreads/Scheduler.c:558-569 | each retry strictly lowers the sum of cooldowns, so the loop ends |
| `Scheduler.RetrySame` | Kernel/AxeThreads/Scheduler.c:497-569 | waking, reaping and retrying after a turn gives what finishing at once would have given |
| `Scheduler.ScheduleKeeps` | Kernel/AxeThreads/Scheduler.c:435-591 | a call of Schedule keeps the queue invariant (no thread in two places, ReadyCount right, cooldowns at most 63), moves no thread out but the reaped zombies, and destroys no record twice |
| `SchedulerOutcome.StrideTable` | Kernel/AxeThreads/Scheduler.c:527-556 | the strides are 64, 32, 16, 8, 4, 2 and 1 from idle to kernel priority, so a higher priority always has a shorter one; unlisted priorities count as normal |
| `SchedulerOutcome.ScheduleOutcome` | Kernel/AxeThreads/Scheduler.c:435-591 | one call written out from the state before: the queues, the candidates in order, who is destroyed, the first candidate with the least cooldown dispatched with its stride less one, the others cooled by the least or one more, everybody else as before |
| `SchedulerOutcome.RunningGoes` | Kernel/AxeThreads/Scheduler.c:461-495 | a blocked thread ends waiting, a sleeper asleep until its wake-up time and runnable from then on, an ended thread destroyed, and every other thread runnable, each in no other place |
| `Scheduler.CpuScheduler.AddThreadToReadyQueue` | Kernel/AxeThreads/Scheduler.c:20-56 | the thread joins the ready tail, marked ready, and the count rises |
| `Scheduler.CpuScheduler.RemoveThreadFromReadyQueue` | Kernel/AxeThreads/Scheduler.c:58-94 | the ready head leaves, the rest keeps its order, the count falls; nothing happens on an empty queue |
| `Scheduler.CpuScheduler.WakeupSleepingThreads` | Kernel/AxeThreads/Scheduler.c:227-292 | the in-place unlinking loop moves exactly the due sleepers to the ready tail, in order, and keeps the others' order |
| `Scheduler.CpuScheduler.CleanupZombieThreads` | Kernel/AxeThreads/Scheduler.c:294-320 | all zombies and only they are destroyed, one destruction logged for every queue entry |
| `Scheduler.CpuScheduler.Schedule` | Kernel/AxeThreads/Scheduler.c:435-591 | the retry loop terminates and equals the loop-free closed form: with i the first index of the least cooldown m, thread i runs, the queue becomes Q[i+1..] + Q[..i], earlier threads' cooldowns fall by m+1, later ones' by m, the runner's becomes its stride - 1; the destroyed records are exactly the zombies, each once |
| `SchedulerRuns.Conservation` | Kernel/AxeThreads/Scheduler.c:20-591 | over every run of ticks, state changes of the running thread and new threads, no thread is in two places and every thread is accounted for: where it was, born, or destroyed from the zombie queue |
| `SchedulerRuns.ScheduleKeepsIff` | Kernel/AxeThreads/Scheduler.c:462-502 | a call keeps every thread in one place and destroys no record twice if and only if the running thread is not already on the zombie queue |
| `SchedulerRuns.ThreadExitLosesConservation` | Kernel/AxeThreads/ThreadMGR.c:589-607 | after ThreadExit the next call always destroys the thread's record and leaves it queued or running |
| `SchedulerRuns.SteadyTick` | Kernel/AxeThreads/Scheduler.c:435-591 | what a tick does to a fixed set of runnable threads |
| `SchedulerRuns.Closer` | Kernel/AxeThreads/Scheduler.c:558-574 | a tick that does not select a thread brings it strictly closer to selection |
| `SchedulerRuns.NoStarvation` | Kernel/AxeThreads/Scheduler.c:435-591 | with a fixed set of n runnable threads every one of them is dispatched within 64 n calls |
| `SchedulerRuns.SteadyStays` | Kernel/AxeThreads/Scheduler.c:435-591 | a steady CPU stays steady while its sleepers sleep, so the runs of the bound exist |
| `LoadBalance.Scan` | Kernel/AxeThreads/ThreadMGR.c:453-475 | the first most loaded and the first least loaded CPU |
| `LoadBalance.Balance` | Kernel/AxeThreads/ThreadMGR.c:450-504 | with the first most and first least loaded CPU more than two apart, the head of the longer ready queue moves to the tail of the shorter if affinity allows and to its own tail otherwise, all other queues unchanged; otherwise nothing changes; every thread keeps its number of places, and the spread never widens |
| `Slab.LiveDisjoint` | Kernel/KHeap/KHeap.c:38-141 | live objects never overlap each other or any of the five fields of any slab, and start on 16-byte boundaries |
| `Slab.TakeKeeps` | Kernel/KHeap/KHeap.c:92-107 | taking and clearing the head of a free list keeps the exact split into free and live objects |
| `Slab.FreeKeeps` | Kernel/KHeap/KHeap.c:112-141 | freeing a live object keeps the split and changes no other live object |
| `Slab.ClientWriteKeeps` | Kernel/KHeap/KHeap.c:92-141 | whatever an owner writes inside its own object keeps the heap and all other objects sound |
| `Slab.CarveKeeps` | Kernel/KHeap/Slab.c:17-56 | a carved page joins the heap with all of its objects free |
| `Slab.OwningSlab` | Kernel/KHeap/KHeap.c:121-133 | masking a live pointer always finds the slab it came from, with its magic |
| `Slab.KernelHeap.GetSlabCache` | Kernel/KHeap/Slab.c:3-15 | the smallest size class that fits, none above 2048 |
| `Slab.KernelHeap.Carve` | Kernel/KHeap/Slab.c:36-53 | the free list threaded through the page is acyclic, holds every object once and has length FreeCount |
| `Slab.KernelHeap.GrowCache` | Kernel/KHeap/Slab.c:17-56 | a new slab is added exactly when a page is free; no live object changes |
| `Slab.KernelHeap.KMalloc` | Kernel/KHeap/KHeap.c:38-110 | 0 exactly for size 0 or when the class has no free object and no page is left; otherwise a new live object of the smallest fitting class, all zero; every live object keeps its contents; heap invariant kept |
| `Slab.KernelHeap.KFree` | Kernel/KHeap/KHeap.c:112-141 | exactly that object stops being live and heads its slab's free list; other live objects keep their contents; heap invariant kept |
| `RamFs.CompsLaws` | Kernel/RamFS/RamFs.c:26-102 | components of a path: none of nothing, a name is one, a slash separates; so repeated, leading and trailing slashes do not count |
| `RamFs.OnePath` | Kernel/RamFS/RamFs.c:283-366 | a node is reached by one component list only |
| `RamFs.AddInv` | Kernel/RamFS/Nodehelpers.c:4-41 | adding a node under a directory with a free slot keeps sibling-name uniqueness and files without children |
| `RamFs.AddLookup` | Kernel/RamFS/Nodehelpers.c:29-41 | adding a node extends the map from component lists to nodes by exactly one key |
| `RamFs.AttachEffect` | Kernel/RamFS/RamFs.c:9-155 | with nothing in the way, attaching a path adds exactly its missing prefixes as new nodes, leads to the returned node, stores the data there, and leaves every other lookup, name, kind and data alone |
| `RamFs.AttachIff` | Kernel/RamFS/RamFs.c:9-155 | attaching does all that if and only if the existing part of the path is directories and there is a free slot where it leaves the tree: a full directory drops the node, a file in the way gets a directory of the same name beside it |
| `Vfs.FileSystem.RamFSAttachPath` | Kernel/RamFS/RamFs.c:9-155 | the cursor loop over the path computes the attachment by segments; repeated and trailing slashes do not count; a path without a leading slash changes nothing |
| `Vfs.FileSystem.RamFSLookup` | Kernel/RamFS/RamFs.c:283-366 | the cursor loop is lookup by components; none for a path without a leading slash |
| `Vfs.FileSystem.Walk` | Kernel/VFS/VFS.c:85-136 | the component walker, with components cut to 255 characters and files refusing further components |
| `Vfs.FindMount` | Kernel/VFS/VFS.c:138-161 | the longest mount path that is a prefix of the path, the first of equals; none exactly when no non-empty mount path is a prefix |
| `Vfs.FileSystem.VfsResolve` | Kernel/VFS/VFS.c:513-568 | resolution with the tree mounted at / is that walk over all components |
| `Vfs.WalkersAgree` | Kernel/VFS/VFS.c:85-161 | for components of at most 255 characters the two path walkers reach the same node or both none, on every absolute path; on any other path one fails and the other reads it as absolute |
| `Vfs.FileSystem.RamFSRead` | Kernel/RamFS/FSOperations.c:4-43 | the bytes from the offset, cut at the end; nothing for directories or past the end |
| `Vfs.FileSystem.VfsReadAll` | Kernel/VFS/VFS.c:1906-1937 | the first BufLen bytes of the file the path resolves to; fails when it does not resolve or is a directory |
| `Cpio.CpioAlignUp` | Kernel/RamFS/CpioHelpers.c:3-7 | the next multiple of four, in 32 bits |
| `Cpio.CpioParseHex` | Kernel/RamFS/CpioHelpers.c:9-34 | the loop computes the hexadecimal value, below 2^32 |
| `Cpio.HexRoundTrip` | Kernel/RamFS/CpioHelpers.c:9-34 | parsing the digits of a number, written with the format's own characters in either case, gives the number |
| `Cpio.NextRecord` | Kernel/RamFS/RamFs.c:169-274 | one turn of the archive loop, with every offset in 32-bit arithmetic |
| `Cpio.RamFSMount` | Kernel/RamFS/RamFs.c:157-281 | terminates on every image whose run of records ends and attaches that run; what a run is follows in the rows about records and archives |
| `Cpio.Progress` | Kernel/RamFS/RamFs.c:169-254 | a record that does not wrap moves the parser forward by at least a header |
| `Cpio.ModeTells` | Kernel/RamFS/RamFs.c:228-237 | type nibble 4 in the mode is a directory; 8 and every other is a file, whatever the permission and upper bits are |
| `Cpio.TakesOnlyMagic` | Kernel/RamFS/RamFs.c:178-184 | a record is taken only where the bytes 070701 are |
| `Cpio.EncodedRecord` | Kernel/RamFS/RamFs.c:169-274 | an encoded newc record is parsed back to its path, kind and data, and the parser stands at the next record |
| `Cpio.MountArchive` | Kernel/RamFS/RamFs.c:157-281 | mounting an archive attaches its entries in order and stops at the trailer, whatever the unread header fields and the bytes after it are |
| `Cpio.WrapStandsStill` | Kernel/RamFS/RamFs.c:198-226 | an image whose name length wraps the 32-bit offset leaves the parser at the same record for ever, so its mount never ends |
| `MountTermination.StopsIff` | Kernel/RamFS/RamFs.c:169-278 | the mount loop ends if and only if the parser never comes back to an offset it stood at |
| `MountTermination.ForwardStops` | Kernel/RamFS/RamFs.c:169-254 | a run whose every record moves forward ends |
| `MountTermination.NoWrapForward` | Kernel/RamFS/RamFs.c:169-254 | a run moves forward when no header it takes has lengths that wrap a 32-bit offset; a directory's data length does not matter |
| `ArchiveReads.BuildStep` | Kernel/RamFS/RamFs.c:256-277 | attaching the next entry of a mountable archive keeps the tree equal to the entries so far |
| `ArchiveReads.ArchiveRoundTrip` | Kernel/RamFS/RamFs.c:157-281 | for every mountable list of entries, each with its own type, the mount terminates after one record for each entry; then a path resolves exactly when it is the root, an entry or above one, VfsReadAll of a regular or special entry, under any spelling of its path, gives its archived bytes or the first BufLen of them, a directory entry is a directory and cannot be read, and an unknown path cannot be read |
| `BlockStream.ChunkRead` | Kernel/DevFS/DevFS.c:439-440 | a slice of one block is the slice of the flat array at the cursor |
| `BlockStream.ChunkWrite` | Kernel/DevFS/DevFS.c:519-528 | patching one block patches the flat array at the cursor and nowhere else |
| `BlockStream.DevFile.BlkPartReadBlocks` | Kernel/BlocksDevs/BlockDev.c:160-199 | block l of the partition is disk block StartLba + l; the count is cut at the partition's end and nothing past it is read, whatever the driver answers |
| `BlockStream.DevFile.BlkPartWriteBlocks` | Kernel/BlocksDevs/BlockDev.c:201-240 | exactly the disk blocks from StartLba + l that the driver took, all inside the partition, change |
| `BlockStream.DevFile.ReadBlock` | Kernel/DevFS/DevFS.c:432-437 | one block of the partition, or none past its end |
| `BlockStream.DevFile.WriteBlock` | Kernel/DevFS/DevFS.c:528-533 | one block of the partition changes, or nothing past its end |
| `BlockStream.DevFile.Read` | Kernel/DevFS/DevFS.c:399-455 | any read returns the flat array's bytes at the cursor, cut at the device end, and advances the cursor by their number; with enough buffers it returns all of them |
| `BlockStream.DevFile.WriteChunk` | Kernel/DevFS/DevFS.c:505-544 | one read-modify-write turn patches exactly its bytes; it fails exactly at the device end and then changes nothing |
| `BlockStream.DevFile.Write` | Kernel/DevFS/DevFS.c:488-547 | any write patches the flat array with the bytes that fit, no other byte of it and no block outside the partition changes |
| `BlockStream.DevFile.SeekSet` | Kernel/DevFS/DevFS.c:568-571 | the cursor stands at the requested position, negative ones clamped to 0, with 0 <= Offset < Blk |
| `BlockStream.ReadBack` | Kernel/DevFS/DevFS.c:399-547 | what was written is read back at its place and every disjoint range reads as before |
| `Mutex.StepInv` | Kernel/Sync/Mutexes.c:13-83 | every single read, store or compare-and-swap of any CPU keeps the invariant |
| `Mutex.RunInv` | Kernel/Sync/Mutexes.c:4-83 | so does every interleaving of any length |
| `Mutex.Safety` | Kernel/Sync/Mutexes.c:4-83 | under every interleaving from InitializeMutex: at most one CPU inside, Owner none or the holder, RecursionCount the holder's depth, Lock set exactly while held |
| `Mutex.FastPathIsHolders` | Kernel/Sync/Mutexes.c:18-22 | the recursive fast path is taken exactly by a CPU that is inside |
| `Mutex.LockDropsAtOutermostRelease` | Kernel/Sync/Mutexes.c:53-57 | the lock frees exactly at the last store of a release that brought the depth to zero |
| `Mutex.ReleaseTestsDepth` | Kernel/Sync/Mutexes.c:51-57 | a release that has stored the count goes on to free the lock if and only if the depth is zero |
| `Mutex.ReleaseGives` | Kernel/Sync/Mutexes.c:41-58 | under every interleaving, a finished release gave up exactly one level; the outermost one ends by freeing the lock, an inner one never touches it, and one by a CPU that holds nothing changes no shared field |
| `Mutex.AcquireGains` | Kernel/Sync/Mutexes.c:13-39 | under every interleaving, a finished acquire gained exactly one level |
| `Mutex.TryGainsIff` | Kernel/Sync/Mutexes.c:60-83 | under every interleaving, a finished try gained a level if and only if its CPU was inside already or its swap found the lock free |
| `Mutex.CallsEnd` | Kernel/Sync/Mutexes.c:13-83 | no call takes more than seven steps of its CPU besides failed swaps of a spinning acquire |
| `Mutex.FailedTryChangesNothing` | Kernel/Sync/Mutexes.c:60-83 | under every interleaving, no step a CPU makes during a whole call of TryAcquireMutex that gains nothing changes a shared field |
| `Mutex.WrapLosesCount` | Kernel/Sync/Mutexes.c:20-20 | a nested acquire keeps the invariant if and only if the 32-bit count does not wrap |

## Left out

- Assembly, interrupt entry, GDT/IDT, timers, APIC, serial, console, FPU and register save areas: hardware effects.
- TLB flushes and CR3 loads: translations are read from the tables in memory.
- The HHDM offset in the memory manager: a frame is addressed by its number; null results of PhysToVirt are not modelled. The slab heap keeps the offset.
- Vmm.Manager.GetPageTable: with creation, requires that no huge page lies on the walk: there the source would link tables into the data behind the huge page. Frames outside memory read as zero.
- Vmm.Manager.MapPage: the same requirement on huge pages.
- Vmm.Manager.UnmapPage: the same requirement on huge pages: there the source would clear a word of data.
- Vmm.Manager.constructor: the boot loader's tables are taken to form a tree of used frames with an empty user half; InitializeVmm does not check this.
- PmmBoot.InitializePmm: requires that region ends do not wrap 64 bits, since the page count then need not cover the bitmap; a missing boot-loader response is an empty map.
- Vmm.Manager.ReleaseBelow: the nested loops of the source are one loop with the level as a parameter.
- Fork.CopyBelow: the nested loops of the source are one loop with the level as a parameter.
- Fork.CopyUserPages: requires that the child's user half is empty, that the parent has no user-flagged page in its kernel half and that its pages are allocated frames that are no tables; the rest of fork (descriptors, threads, signals) is not modelled.
- ZeroedRange.VirtMapRangeZeroed: the range lies in the user half.
- Elf.Elf64Load: segments are page-aligned, in the user half, disjoint and unmapped before; heap exhaustion for the segment buffer, ELF header parsing, entry point and auxiliary vector are not modelled. memcpy and memset within one page are one step.
- ElfAlignment.CopyLoop: requires that the bytes an unaligned segment misplaces behind its last frame hit data, not a table; the source does not check this.
- Slab.KernelHeap.KMalloc: sizes up to 2048 only; above that KFree returns a single page of several. Slab headers are records beside memory, one cell per pointer or magic field; KFree takes live pointers or null.
- Scheduler.CpuScheduler.CleanupZombieThreads: a thread queued twice is two log entries; in the linked queue it is a cycle and the walk does not end.
- Scheduler.CpuScheduler.Schedule: queues are sequences, not linked nodes, so the sharing of Next and Prev with the global thread list is not captured; the tick count is fixed within a call; ThreadCount, CpuTime, StartTime, LastCpu and context-switch counters are dropped; queue operations are atomic under their spinlock.
- LoadBalance.Balance: the affinity test is a parameter; loads are the ready-queue lengths and stay below 2^32 - 3.
- Global thread list, MigrateThreadToCpu, exit and wait: the links are shared with the queues.
- Vfs.FileSystem.VfsResolve: only the root mount exists, so the search over the mount table is stated in `Vfs.FindMount` alone; dentry and vnode allocation always succeeds; the VFS lock is not modelled and the functions are sequential.
- Vfs.FileSystem.VfsReadAll: the private file cursor is modelled, the public offset that VfsRead adds to twice is not.
- Vfs.FileSystem.RamFSAttachPath: heap exhaustion is not modelled.
- RamFs.AttachEffect: requires directories along the existing part and a free slot where the path leaves the tree, exactly when the insertion works (`RamFs.AttachIff`).
- Cpio.RamFSMount: requires that the run of records ends, exactly when `MountTermination.StopsIff` says; bytes after the image read as zero.
- ArchiveReads.ArchiveRoundTrip: starts from an empty root; components longer than 255 characters are cut by the walker and excluded.
- BlockStream.DevFile.Read: the disk driver answers every in-range block; heap exhaustion is the parameter `buffers`, one per block; positions do not wrap.
- BlockStream.DevFile.BlkPartReadBlocks: what the driver answers is a parameter, at most the blocks it was asked for, and it has moved that many.
- BlockStream.DevFile.BlkPartWriteBlocks: the same.
- BlockStream.DevFile.Write: as for reading; each write is of one block after reading it.
- BlockStream.DevFile.SeekSet: SEEK_CUR, SEEK_END and character devices are not modelled.
- Mutex.Safety: memory is sequentially consistent; every CPU number is below 0xFFFFFFFF; nesting stays below 2^32.
- Writing and creating files in RamFS, ProcFS, sockets, pipes, module relocation, PCI, the shell and the C library: I/O or easy members.
