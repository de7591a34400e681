# PenOS: verified model of memory, heap, virtqueue and scheduler

PenOS is a 32-bit x86 kernel in C. This project models its stateful core in Dafny and proves what
the code is for, over all inputs and all runs. Where the source edits arrays, tables, lists and
counters in place, the model is a class whose methods do the same; each method is proved equal to a
function on an abstract state, and the theorems are about those functions.

| file | what it holds |
|---|---|
| `Common.dfy` | `Option` and powers of two |
| `Bitmap.dfy`, `Pmm.dfy` | bitmap and physical frame allocator: refines "take the least free frame" |
| `Swap.dfy` | page-table words as bit fields, and the swap area over a disk of sectors |
| `Machine.dfy` | the state of memory (frames, free set, slots, disk, hand), who owns each frame and slot, and the steps that preserve ownership |
| `Paging.dfy`, `UserMemory.dfy`, `AddressSpaces.dfy` | swap-out, eviction, allocation, mapping, faults, accesses, address spaces |
| `Clock.dfy`, `Eviction.dfy` | the eviction scan against a plain second-chance scan, and what it costs |
| `Supply.dfy`, `Faults.dfy` | how much memory can still be handed out, and when swap-outs, faults and accesses go through |
| `EntryWords.dfy` | the entries the kernel writes, as numbers |
| `Clone.dfy`, `CloneElsewhere.dfy`, `CloneLoaded.dfy`, `CloneCost.dfy`, `CloneSupply.dfy` | cloning an address space: with room, of a directory that is not loaded, of the loaded one without room, what undoing it restores, and when it succeeds |
| `Runs.dfy`, `RunSupply.dfy` | runs of the whole memory subsystem against plain memory, and which steps return |
| `Slots.dfy`, `SlotRuns.dfy` | which steps and runs lose swap slots |
| `Vm.dfy` | the paging code itself, in place on an array of page frames |
| `HeapWindow.dfy` | the heap's pages and page tables on that memory |
| `Heap.dfy`, `HeapRuns.dfy`, `HeapSupply.dfy` | the kernel heap as a block list over its window, runs of its callers, and when they get memory |
| `HeapLinks.dfy` | the heap as linked headers edited in place |
| `Virtqueue.dfy`, `Input.dfy` | the split virtqueue as a two-party protocol, its memory layout, and the input driver's polling |
| `Sched.dfy`, `SchedLife.dfy` | the round-robin scheduler, the timer interrupt path, and the lives of tasks |
| `Twalk.dfy` | the 9P Twalk encoder with its in-place path splitter |
| `Calendar.dfy` | the time-zone roll-over of the `date` command |

Main results:

- **Swapping is invisible** (`MemoryRuns.RunRefines`). Over every run of loads, stores, faults,
  evictions, swap-outs, mappings, unmappings and directory creation, cloning, switch and destruction
  that does not halt, every user page of every address space holds what plain memory would hold.
- **The kernel halts exactly when it must** (`MemorySupply.AllocManyIff`, `RunSupply.StepReturnsIff`,
  `HeapSupply.EnsureIff`). The supply is the free frames plus the user pages that can still go to
  disk; `n` allocations in a row, a fault, an access, a clone of a directory that is not loaded and
  the growth of the heap go through exactly when the supply has the frames they take.
- **The skipping scan is second chance** (`Clock.EvictIsSecondChance`, `EvictSucceedsIff`).
- **Cloning** with room, or of a directory that is not loaded, is faithful exactly when nothing of
  the source is on disk (`CloningElsewhere.CloneFaithful`); destroying the clone restores free
  frames, slots and disk exactly when there was room (`CloningCost.CloneUndoneIff`).
- **The heap** stays tiled, merged and backed over every run, moves frames only between free set,
  window and page tables, touches no byte of a payload in use, and stays writable for the kernel and
  out of the user's reach (`HeapClients.EveryRunKeeps`, `KernelHeaps.PayloadUntouched`,
  `HeapClients.HeapStaysKernelOnly`); `kmalloc` is sound exactly when its sums do not wrap
  (`HeapBlocks.MallocServesIff`).
- **The virtqueue** partitions its descriptors and overruns no ring under every interleaving of
  driver and device, across index wrap-around (`QueueProtocol.EveryRunKeeps`, `Virtqueues.*`).
- **The scheduler** resumes every task where it was interrupted, in its own directory, and a ready
  task waits at most seven ticks (`Scheduling.EveryRunResumes`, `BoundedWaiting`). A task exists
  exactly until it exits or is killed, and one tick later it is gone for good
  (`TaskLives.HealthyRunIff`, `EndedForGood`).

Where the code does less than one might expect, the model follows the code and says exactly when:

- **Swap slots get lost.** Unmapping or mapping over a page on disk, and destroying a directory with
  pages on disk, leave slots marked that no page is in, for ever; no other step does
  (`SlotRuns.LostRunIff`, `DestroyLosesIff`).
- **Heap page tables are never returned.** `kfree` after `kmalloc` restores free frames and slots
  exactly when no page table was missing; the first `kmalloc` on a new heap misses one
  (`HeapBlocks.FreeUndoesMalloc`, `FirstTableIsLost`). A trimmed page's frame is returned exactly
  when the loaded directory reaches it through the same table (`HeapPages.UnmapReturnsFrameIff`).
- **A clone of the loaded directory without room** can evict the page it is copying and then copy
  the swap entry's number as if it were a frame (`CloningLoaded.CloneWithoutRoomIff`,
  `CloneLosesPage`). Every clone drops the pages that are on disk.
- **Directories get lost.** A directory is allocated but held by no task exactly if it was the loaded
  one when its owner's slot was cleared; a task that exits always loses its own
  (`Scheduling.OrphanRunIff`, `ExitLosesDirectory`).
- **The heap's byte counter** falls behind by what was handed out through reuse; it is right exactly
  when that is a multiple of 2^32 (`HeapClients.CounterTrails`).
- **`kmalloc` rounds and adds in 32 bits**; `HeapBlocks.NoWrap` is the exact condition under which
  that is harmless, and the largest request breaks it (`HeapBlocks.LargestRequestFails`).
- **Start-up cuts sizes to 32 bits.** The kernel image is reserved exactly if rounding up its end does
  not wrap, and all of memory is counted exactly if its frame count survives the cut
  (`PhysicalFrames.BaseIsLeastIff`, `TotalCountsMemoryIff`).
- A page read back from disk is mapped present, writable and user whatever it was before
  (`UserMemory.SwapKeepsFlagsIff`).
- When a slot cannot be read, the fault handler still gives the slot back and leaves a page of
  zeros (`Faults.FaultReturnsIff`, `UserMemory.FaultKeeps` with `readOk` false).
- Queue sizes that are not powers of two break at the index wrap (`Virtqueues.WrapIsSeamlessIff`),
  and posting an empty chain publishes a descriptor that is still free
  (`Virtqueues.Virtqueue.AddChain`).
- A stale frame override would be obeyed by a tick that changes nothing; dispatching never leaves one.
- The year is an unsigned 32-bit number and can wrap in either direction.

Interrupt frames, directories and pages are numbers; 0 is NULL. Inputs from outside (the memory
map, connected ports, how far a disk transfer gets, device completions, the interrupted frame, the
UTC time) are parameters. Bytes past the end of memory read as zeros and writes there are lost.

## Model

| member | source | states |
|---|---|---|
| `Bitmaps.Bitmap.Set` | src/mem/pmm.c:19-22 | exactly the given bit joins the set of marked bits, whatever byte it shares |
| `Bitmaps.Bitmap.Clear` | src/mem/pmm.c:24-27 | exactly the given bit leaves the set of marked bits |
| `Bitmaps.Bitmap.Test` | src/mem/pmm.c:29-32 | true exactly for members of the marked set |
| `Bitmaps.Bitmap.Fill` | src/mem/pmm.c:34-39 | all bits marked, or none |
| `PhysicalFrames.ReleasesExactlyOverlap` | src/mem/pmm.c:46-75 | the frames a region releases are exactly those sharing a byte with it, if and only if its rounded end does not wrap at 2^64 |
| `PhysicalFrames.BaseIsLeastIff` | src/mem/pmm.c:162-169 | the first usable frame is the least one beyond the first MiB and the kernel image, if and only if rounding up the end of the kernel does not wrap at 2^32 |
| `PhysicalFrames.TotalCountsMemoryIff` | src/mem/pmm.c:171-183 | from the first usable frame on, exactly the frames below 2^20 that lie wholly below the highest end of the map, or within the reported sizes without one, are counted, if and only if cutting the count to 32 bits does no harm |
| `PhysicalFrames.InitialFreeIsMemory` | src/mem/pmm.c:160-193 | whatever is cut off, a frame freed at start-up is in memory, beyond the first MiB, and beyond the kernel unless its end wraps |
| `PhysicalFrames.InitialFreeIsOverlap` | src/mem/pmm.c:160-193 | after start-up a frame is free iff it lies beyond the kernel and the first MiB, within memory and the first 2^20 frames, and overlaps some type-1 entry, or there is no map |
| `PhysicalFrames.InitialFreeIgnoresOrder` | src/mem/pmm.c:96-112 | order and repetition of map entries do not change the free set |
| `PhysicalFrames.HighestEnd` | src/mem/pmm.c:77-94 | the result is the end of some entry and no entry ends later |
| `PhysicalFrames.Pmm.HighestAddress` | src/mem/pmm.c:77-94 | the loop computes that maximum, 0 for an empty map |
| `PhysicalFrames.Pmm.ReleaseRegion` | src/mem/pmm.c:46-75 | the free set grows by exactly the usable frames of the region; frames already free are counted once |
| `PhysicalFrames.Pmm.ProcessAvailableRegions` | src/mem/pmm.c:96-112 | exactly the usable frames of type-1 entries become free, all usable frames without a map |
| `PhysicalFrames.Pmm.Init` | src/mem/pmm.c:160-193 | from any earlier state the free set becomes the one the map and the end of the kernel determine, with base, count and hint consistent |
| `PhysicalFrames.Pmm.Alloc` | src/mem/pmm.c:114-134 | returns and removes the least free frame, 0 exactly when none is free; the second pass is unreachable |
| `PhysicalFrames.Pmm.Release` | src/mem/pmm.c:136-153 | the frame joins the free set; NULL, foreign and free frames change nothing; no free frame falls below the hint and the counter counts the free set |
| `Pages.WordsAreNumbers` | include/mem/paging.h:5-9 | the bit-field view of entries and 32-bit numbers are in bijection |
| `Pages.FlagPositions` | include/mem/paging.h:6-9 | every flag sits at its bit: 0 PRESENT, 1 RW, 2 USER, 5 accessed, 6 dirty, 9 SWAPPED, and the frame or slot number from bit 12 on |
| `EntryWords.NewEntries` | src/mem/paging.c:104-132 | the entries written for pages, tables, heap pages and pages on disk are the numbers frame + 7, frame + 3 (7 for the user), frame + 3 and slot * 4096 + 0x200 |
| `EntryWords.ClearedEntry` | src/mem/paging.c:36-76 | a second chance clears bit 5 of an entry and nothing else |
| `EntryWords.OpenedEntry` | src/mem/paging.c:115-120 | opening a table to the user sets bit 2 of its entry and nothing else |
| `Machines.AddressSplits` | src/mem/paging.c:99-131 | directory index, table index and offset make up the address |
| `SwapArea.SlotsAreDisjoint` | src/mem/swap.c:53-85 | a written slot reads back as written and every other slot is unchanged, sector by sector |
| `SwapArea.ForeignSectors` | src/mem/swap.c:6-8 | writing a slot leaves the first 100 million bytes of the disk, and all from 120 million on, as they were |
| `SwapArea.Swap.Init` | src/mem/swap.c:13-30 | the first connected port is chosen, or an earlier choice kept without one; with a port, all slots become unused |
| `SwapArea.Swap.FindFreeSlot` | src/mem/swap.c:36-43 | the least unused slot, -1 exactly when there is none |
| `SwapArea.Swap.Out` | src/mem/swap.c:53-71 | the least unused slot is marked and holds the page, all other slots and the rest of the disk are as they were; fails exactly without disk or slot or when the transfer breaks off, and then marks nothing and changes no slot in use |
| `SwapArea.Swap.In` | src/mem/swap.c:73-85 | succeeds exactly with a disk, a valid slot and a good transfer, and yields what the slot holds |
| `SwapArea.Swap.Release` | src/mem/swap.c:87-91 | a valid slot becomes unused, contents stay |
| `Machines.LinkPage` | src/mem/paging.c:126-132 | linking an owned frame where nothing is mapped keeps single ownership of frames and slots and changes that page alone |
| `Machines.MovePageOut` | src/mem/paging.c:293-325 | moving a page to a slot keeps single ownership and every page's contents |
| `Paging.SwapOutKeeps` | src/mem/paging.c:293-325 | swap-out, successful or not, keeps the invariant, all contents, all directories and all kernel frames |
| `Paging.EvictKeeps` | src/mem/paging.c:36-76 | any number of eviction turns does the same |
| `Paging.AllocKeeps` | src/mem/paging.c:78-97 | the frame handed out is zeroed and was nobody's; all contents survive the eviction it may take |
| `Evictions.EvictOutcome` | src/mem/paging.c:36-76 | a successful scan frees exactly one page of the loaded user half and marks exactly one slot, a failed one changes neither; no frame outside the loaded user half changes |
| `Evictions.AllocOutcome` | src/mem/paging.c:78-97 | an allocation takes one free frame, or one evicted from the loaded user half for one slot, and changes no other frame outside it |
| `Paging.NeedTableKeeps` | src/mem/paging.c:99-124 | finding or making a table changes no page and no other entry's target; the entry is open to the user exactly if that was asked for or so before |
| `Paging.InstallKeeps` | src/mem/paging.c:126-132 | mapping a fresh frame changes exactly one page, to the frame's bytes, even if making the table evicts |
| `MemorySupply.EvictSupply` | src/mem/paging.c:36-76 | an eviction succeeds iff some page in memory can go to a slot, and uses up exactly one such page for one more free frame |
| `MemorySupply.AllocSupply` | src/mem/paging.c:78-97 | an allocation succeeds iff the supply, free frames plus evictable pages, is not empty, and takes exactly one from it |
| `MemorySupply.AllocManyIff` | src/mem/paging.c:78-97 | n allocations in a row go through iff the supply has n |
| `Faults.SwapOutIff` | src/mem/paging.c:293-325 | a swap-out succeeds iff the page is in memory, a disk is there and a slot is unused, whatever the page's flags; then the least unused slot holds its bytes, the entry names the slot, the frame is free and nothing else changed; otherwise nothing changed |
| `Faults.FaultReturnsIff` | src/mem/paging.c:228-291 | the handler returns iff the page is on disk or a user touches an absent page, and the supply has a frame for it and one for a missing table; a slot is given back even if it could not be read |
| `Faults.AccessIff` | src/mem/paging.c:228-291 | a mapped page is accessed iff its protection allows it; any other page, by the user or if it was on disk, can be read and written iff the supply has the frames |
| `Faults.FirstTouch` | src/mem/paging.c:272-277 | with two free frames a user's read or write of an absent page always goes through |
| `Faults.SwapRoundTrip` | src/mem/paging.c:228-325 | a user page swapped out can be accessed again at once, even with nothing else free, and all user memory is what it was |
| `Faults.CreateSucceedsIff` | src/mem/paging.c:357-373 | a directory can be made iff the supply has a frame |
| `UserMemory.FaultKeeps` | src/mem/paging.c:228-277 | a fault that returns changes the faulting page only: to its slot's bytes if it was on disk, to zeros if it was untouched |
| `UserMemory.SwapKeepsFlagsIff` | src/mem/paging.c:254-268 | a page's flags survive swap-out and swap-in if and only if they were present, writable and user with nothing else set |
| `UserMemory.AccessKeeps` | src/mem/paging.c:228-277 | an access that goes through leaves all user contents, zero-filling an untouched page |
| `UserMemory.LoadReturnsContent` | src/mem/paging.c:228-277 | a load returns the abstract word wherever the page was |
| `UserMemory.StoreKeeps` | src/mem/paging.c:228-277 | a store changes exactly one word of one user page of one address space |
| `AddressSpaces.CreateKeeps` | src/mem/paging.c:357-373 | a new directory has an empty user half, shares the kernel half, and disturbs no other |
| `AddressSpaces.DestroyKeeps` | src/mem/paging.c:439-469 | exactly the destroyed space goes, all others keep their contents; the loaded one is refused |
| `AddressSpaces.UnmapKeeps` | src/mem/paging.c:134-143 | exactly one user page becomes unmapped |
| `AddressSpaces.NoSharing` | src/mem/paging.c:293-325 | distinct user pages have distinct frames and distinct slots; frames are not free, slots are marked |
| `Clock.TurnIsSweep` | src/mem/paging.c:36-76 | a turn that does not evict equals a plain sweep of the slots it covers, skipped ones included |
| `Clock.ScanFindsIdle` | src/mem/paging.c:36-76 | the scan evicts the first page with a clear Accessed bit after clearing all earlier ones |
| `Clock.EvictIsSecondChance` | src/mem/paging.c:36-76 | the victim and the whole resulting state are those of a slot-by-slot second-chance scan, within the bound of two turns |
| `Clock.EvictSucceedsIff` | src/mem/paging.c:36-76 | eviction succeeds iff a user page is resident, a disk is there and a slot is free |
| `Clock.AllocSucceedsIff` | src/mem/paging.c:78-97 | the kernel halts for want of memory iff nothing is free and nothing can be evicted |
| `Cloning.CloneCopies` | src/mem/paging.c:376-422 | with a frame per copied page and table, the clone succeeds with a directory whose present user pages have the same bytes and flags on frames that were free, and shares kernel entries |
| `Cloning.CopiedPage` | src/mem/paging.c:397-410 | page by page: resident pages are copied with bytes and flags, all others are missing |
| `Cloning.CloneFaithfulIff` | src/mem/paging.c:376-422 | the copy's contents equal the source's if and only if no user page of the source is on disk; every other space is unchanged |
| `Cloning.CloneIsolated` | src/mem/paging.c:376-422 | a store through either space is invisible in the other |
| `Cloning.DestroyUndoesClone` | src/mem/paging.c:376-469 | destroying the clone restores the free set exactly; slots and disk were never touched |
| `CloningElsewhere.CloneElsewhereIff` | src/mem/paging.c:376-422 | room or not, a clone of a directory that is not loaded equals its source if and only if no user page of the source is on disk; evictions on the way change no contents |
| `CloningElsewhere.CloneFaithful` | src/mem/paging.c:376-422 | the same for every clone with room or of a directory that is not loaded |
| `CloningLoaded.OnlyPageIsEvicted` | src/mem/paging.c:36-97 | with no free frame and one resident page, an allocation hands out that very page, and its entry names a slot |
| `CloningLoaded.CloneWithoutRoomIff` | src/mem/paging.c:376-422 | cloning the loaded directory with two free frames and one resident page succeeds, and the copy of the page equals it if and only if the slot taken has the page's frame number, or the slot with that number already held the page's bytes |
| `CloningLoaded.CloneLosesPage` | src/mem/paging.c:399-408 | the failing input: if that frame lies beyond the slots and is not all zeros, the copy differs |
| `CloningCost.CloneUndoneIff` | src/mem/paging.c:376-469 | a clone with room succeeds; any clone that succeeds leaves the slots alone, and destroying it restores free frames, slots and disk, if and only if there was room |
| `CloningCost.CreateUndoneIff` | src/mem/paging.c:357-469 | destroying a new directory restores free frames and slots if and only if a frame was free |
| `CloningCost.NewDirectoriesMapThemselves` | src/mem/paging.c:357-422 | entry 1023 of a created or cloned directory maps it onto itself, writable for the kernel only |
| `CloningSupply.CloneElsewhereSucceedsIff` | src/mem/paging.c:376-422 | the clone of a directory that is not loaded succeeds iff the supply has a frame for the directory, each table and each page in memory |
| `MemoryRuns.MapFreshKeeps` | src/sys/syscall.c:102-107 | mapping a new frame over any page changes exactly that page, to the frame's bytes |
| `MemoryRuns.StepRefines` | src/mem/paging.c:228-469 | each step does to every user page of every space what plain memory does |
| `MemoryRuns.RunRefines` | src/mem/paging.c:36-469 | over every run that does not halt, every page of every space equals the run of plain memory, and ownership stays single |
| `MemoryRuns.LoadAfterRun` | src/mem/paging.c:228-277 | a load after any run returns the word of plain memory |
| `MemoryRuns.FreshMachine` | src/mem/paging.c:327-339 | a machine with one directory, an empty user half, any kernel tables and the recursive entry meets the run invariant |
| `RunSupply.MapFreshIff` | src/sys/syscall.c:102-107 | mapping a new frame succeeds iff one is free and the supply has a second one for a missing table |
| `RunSupply.StepReturnsIff` | src/mem/paging.c:36-469 | a step of a run returns iff its protection allows it and the supply has the frames it takes; otherwise the kernel halts |
| `SlotRuns.UnmapLost` | src/mem/paging.c:134-143 | unmapping loses exactly the slot of the page, if it was on disk |
| `SlotRuns.MapLost` | src/mem/paging.c:126-132 | so does mapping over a page, whatever evictions the table takes |
| `SlotRuns.AccessLost` | src/mem/paging.c:228-277 | an access loses no slot, through faults and evictions |
| `SlotRuns.DestroyLost` | src/mem/paging.c:439-469 | destroying a directory loses exactly the slots of pages only it reaches |
| `SlotRuns.DestroyLosesIff` | src/mem/paging.c:439-469 | with the kernel half shared, it loses none if and only if all its user pages are in memory |
| `SlotRuns.StepLostIff` | src/mem/paging.c:36-469 | a slot is marked and named by no page after a step if and only if it was before or the step loses it |
| `SlotRuns.LostRunIff` | src/mem/paging.c:36-469 | the same over every run: lost slots stay lost, and only unmapping, mapping over and destroying lose them |
| `SlotRuns.SlotsKeptIff` | src/mem/paging.c:36-469 | every marked slot has its page after a run if and only if no step of it lost one |
| `VirtualMemory.Vm.SwapOut` | src/mem/paging.c:293-325 | the in-place code computes the specified swap-out on memory, allocator and disk |
| `VirtualMemory.Vm.EvictPage` | src/mem/paging.c:36-76 | the loop computes the specified eviction with 2 * 768 * 1024 turns |
| `VirtualMemory.Vm.AllocFrameZero` | src/mem/paging.c:78-97 | computes the specified allocation and halts exactly when it is undefined |
| `VirtualMemory.Vm.GetPageTable` | src/mem/paging.c:99-124 | computes the specified table lookup or creation |
| `VirtualMemory.Vm.Map` | src/mem/paging.c:126-132 | computes the specified mapping |
| `VirtualMemory.Vm.UnmapPage` | src/mem/paging.c:134-143 | computes the specified unmapping, nothing without a table |
| `VirtualMemory.Vm.VirtToPhys` | src/mem/paging.c:145-157 | frame address plus offset of a mapped address, else 0 |
| `VirtualMemory.Vm.PageFault` | src/mem/paging.c:228-291 | computes the specified fault on every branch and halts exactly where the handler does |
| `VirtualMemory.Vm.CreateDirectory` | src/mem/paging.c:357-373 | computes the specified new directory |
| `VirtualMemory.Vm.CloneDirectory` | src/mem/paging.c:376-422 | the nested loops compute the specified clone, with every allocation in its place |
| `VirtualMemory.Vm.SwitchDirectory` | src/mem/paging.c:425-436 | only the loaded directory changes |
| `VirtualMemory.Vm.FreeTables` | src/mem/paging.c:449-465 | exactly the allocator's frames reachable through the user half become free |
| `VirtualMemory.Vm.DestroyDirectory` | src/mem/paging.c:439-469 | computes the specified destruction |
| `HeapBlocks.FirstFit` | src/mem/heap.c:125-133 | the first free block that is large enough, and none before it is |
| `HeapBlocks.TakeKeeps` | src/mem/heap.c:72-89 | taking and splitting a block keeps tiling, merging and the end of the heap, and leaves room for the request |
| `HeapBlocks.TakeIsTight` | src/mem/heap.c:72-89 | a block handed out is at most 48 bytes larger than asked for, and what is split off is a free block of more than 32 |
| `HeapBlocks.CoalesceKeeps` | src/mem/heap.c:91-108 | after freeing and merging, blocks tile the same range and no two neighbours are free |
| `HeapBlocks.TrimKeeps` | src/mem/heap.c:206-225 | trimming drops at most one block and leaves the last one in use |
| `HeapPages.EnsureKeeps` | src/mem/heap.c:34-53 | mapping up to a target backs exactly the pages below its round-up with cleared frames, makes a table exactly when one was missing, and leaves user memory and earlier pages alone whatever it evicts |
| `HeapPages.ReleaseKeeps` | src/mem/heap.c:227-235 | unmapping to a target frees exactly the frames of the dropped pages, and no table |
| `HeapPages.ReleaseRestoresIff` | src/mem/heap.c:34-53 | releasing what was mapped restores free frames and slots if and only if every table was there |
| `HeapPages.MapOneKeeps` | src/mem/heap.c:34-45 | mapping the next page: one cleared page more, writable for the kernel and closed to the user, and a table exactly when its directory entry had none |
| `HeapPages.HeapIsKernelOnly` | src/mem/heap.c:34-45 | by page protection the kernel may write every page of the window and the user may read none |
| `HeapPages.UnmapOneKeeps` | src/mem/heap.c:229-234 | unmapping the last page frees its frame and nothing else |
| `HeapPages.UnmapReturnsFrameIff` | src/mem/heap.c:230-234 | a page mapped through any directory gets its frame back if and only if the loaded directory has the same table there |
| `HeapBlocks.MallocServesIff` | src/mem/heap.c:119-150 | on real page tables: the heap stays well formed, blocks in use stay put, user memory and window data are kept, frames only move between free set, window and tables up to evictions, and the payload is new, aligned and large enough (or NULL), if and only if no deciding 32-bit sum wraps |
| `HeapBlocks.LargestRequestFails` | src/mem/heap.c:119-150 | the failing input: the largest request on an empty heap gets a block of size 0 |
| `HeapSupply.MapOneIff` | src/mem/heap.c:34-45 | mapping a page halts the kernel iff no frame is free, or no table is there and the supply has no second frame; the frames it takes are counted |
| `HeapSupply.EnsureIff` | src/mem/heap.c:47-53 | growing halts the kernel iff fewer frames are free than pages and missing tables take, where the very last frame, if for a table, may come from an eviction |
| `HeapSupply.MallocOutcomeIff` | src/mem/heap.c:119-150 | a request that does not wrap gets memory iff it is not empty and a free block is large enough or the heap can grow within its window; it halts the kernel iff frames run out, and gets NULL otherwise |
| `HeapBlocks.FreeKeeps` | src/mem/heap.c:168-182 | the heap stays well formed, exactly the frames of the trimmed pages become free, and every other block in use stays put |
| `HeapBlocks.FreeUndoesMalloc` | src/mem/heap.c:119-182 | freeing a fresh allocation restores block list, end and mapped pages for whole reuse, split and growth; free frames and slots are restored if and only if growth found its tables; the byte counter is off by the block's size on reuse |
| `HeapBlocks.FirstTableIsLost` | src/mem/heap.c:119-182 | the failing input: one byte allocated and freed on a new heap without a table does not restore free frames and slots |
| `HeapClients.EveryRunKeeps` | src/mem/heap.c:119-236 | over every run of allocations, frees and directory switches, callers hold exactly the blocks in use, each with the room asked for, on a well-formed heap; user memory is kept and frames only move between free set, window and tables, up to evictions |
| `HeapClients.PayloadsApart` | src/mem/heap.c:10-15 | blocks are aligned, inside the mapped window and pairwise disjoint, headers included |
| `HeapClients.EmptyHeap` | src/mem/heap.c:110-117 | the initial heap over any machine with an empty window meets the run invariant |
| `HeapClients.SwitchKeeps` | src/mem/paging.c:425-436 | switching to a directory that shares the window's tables keeps the heap |
| `HeapClients.HeapStaysKernelOnly` | src/mem/heap.c:119-236 | over every run of allocations, frees and switches, all of the heap is writable for the kernel and closed to the user |
| `HeapClients.CounterTrails` | src/mem/heap.c:148-187 | over every run the counter plus the bytes handed out through reuse equals the bytes in use modulo 2^32, so the counter is right if and only if the reused bytes are a multiple of 2^32 |
| `KernelHeaps.PayloadSpared` | src/mem/heap.c:55-108 | headers written, pages cleared and pages unmapped by a call all lie outside every payload in use before and after it |
| `KernelHeaps.PayloadUntouched` | src/mem/heap.c:119-236 | over every run no byte of a payload is written or unmapped until its holder frees it |
| `KernelHeaps.KernelHeap.constructor` | src/mem/heap.c:110-117 | an empty linked heap |
| `KernelHeaps.KernelHeap.FindFit` | src/mem/heap.c:125-133 | walking the links finds the first fit |
| `KernelHeaps.KernelHeap.Tail` | src/mem/heap.c:194-204 | walking the links finds the last block |
| `KernelHeaps.KernelHeap.MapNewPage` | src/mem/heap.c:34-45 | takes a frame, maps it present and writable for the kernel through the paging code and clears it, as specified |
| `KernelHeaps.KernelHeap.MapUpTo` | src/mem/heap.c:47-53 | maps pages on the paging code as specified, halts exactly when frames run out for a page or its table |
| `KernelHeaps.SplitLinked` | src/mem/heap.c:72-89 | after a split all next and prev links are mutually inverse for the new list |
| `KernelHeaps.JoinLinked` | src/mem/heap.c:91-108 | after absorbing a neighbour they are again |
| `KernelHeaps.KernelHeap.Kmalloc` | src/mem/heap.c:119-150 | for every request the pointer code computes the specified allocation, keeps the links and writes only headers of blocks; without wrap-around the heap stays valid and serves the request |
| `KernelHeaps.KernelHeap.AbsorbNext` | src/mem/heap.c:93-100 | first half of the merge, on links |
| `KernelHeaps.KernelHeap.AbsorbIntoPrev` | src/mem/heap.c:101-107 | second half of the merge, on links |
| `KernelHeaps.KernelHeap.TrimBlocks` | src/mem/heap.c:206-225 | the unlinking loop computes the trimmed list and its end |
| `KernelHeaps.KernelHeap.UnmapDownTo` | src/mem/heap.c:227-235 | the unmapping loop, with its lookups in the loaded directory, computes the specified release |
| `KernelHeaps.KernelHeap.Kfree` | src/mem/heap.c:168-182 | the pointer code computes the specified free and writes only headers of blocks; NULL and free blocks change nothing |
| `QueueProtocol.PostKeeps` | src/drivers/virtio.c:181-224 | posting keeps descriptors partitioned into free list and disjoint chains |
| `QueueProtocol.CollectKeeps` | src/drivers/virtio.c:233-265 | collecting returns one whole chain and keeps the partition |
| `QueueProtocol.NoOverrun` | src/drivers/virtio.c:172-175 | unread, taken and completed requests together are the in-flight chains, at most the queue size |
| `QueueProtocol.EveryRunKeeps` | src/drivers/virtio.c:152-265 | for every interleaving of driver and device the partition holds, neither ring holds more than the queue size, and completions name in-flight chains |
| `Virtqueues.WrapKeepsSlot` | src/drivers/virtio.c:214-221 | wrapping an index at 2^16 does not move its ring slot |
| `Virtqueues.WrapIsSeamlessIff` | src/drivers/virtio.c:84-88 | among sizes 1 to 128 that holds at every index exactly for powers of two |
| `Virtqueues.RingPush` | src/drivers/virtio.c:214-221 | publishing into a ring that is not full overwrites no live slot |
| `Virtqueues.RingPop` | src/drivers/virtio.c:241-262 | taking the oldest entry leaves the rest in order, across the wrap |
| `Virtqueues.Virtqueue.constructor` | src/drivers/virtio.c:80-132 | the free list runs through all descriptors; sizes outside 1..128 become 128; the queue is fit for index wrap-around exactly for powers of two |
| `Virtqueues.Virtqueue.AddBuf` | src/drivers/virtio.c:152-178 | -1 exactly without a free descriptor, else posts a one-buffer chain |
| `Virtqueues.Virtqueue.AddChain` | src/drivers/virtio.c:181-224 | -1 exactly without enough free descriptors, else posts the chain in order and returns its head; an empty chain publishes the free list's head while it stays free, and the queue is no longer valid |
| `Virtqueues.Virtqueue.FillChain` | src/drivers/virtio.c:186-210 | the first free descriptors describe the buffers, all others are untouched |
| `Virtqueues.Virtqueue.GetBuf` | src/drivers/virtio.c:233-265 | -1 exactly when nothing is completed, else the oldest completion, its whole chain back on the free list |
| `Virtqueues.Virtqueue.FreeChain` | src/drivers/virtio.c:248-260 | the walk ends after exactly the chain's descriptors, pushed in order, others untouched |
| `Virtqueues.Virtqueue.ReadChain` | src/drivers/virtio.c:189-210 | a device following the links reads exactly the posted buffers |
| `InputQueue.PollingFindsBuffers` | src/drivers/virtio_input.c:133-160 | for every interleaving of polling and device moves, a completion's descriptor indexes the buffer the device filled |
| `InputQueue.BuffersApart` | src/drivers/virtio_input.c:133-204 | every request in flight is one device-writable event buffer inside the array, and no two share a byte |
| `InputQueue.PostEvents` | src/drivers/virtio_input.c:182-204 | descriptor i gets buffer i for i below the lesser of 32 and the queue size; the rest are refused |
| `InputQueue.Poll` | src/drivers/virtio_input.c:133-160 | handles every completion once in order and posts each buffer again on its own descriptor |
| `Scheduling.SpawnKeeps` | src/sched/sched.c:66-113 | spawning keeps the invariant: counts, unique ids, one running task, in its own directory if it has one, others ready with a frame, live directories |
| `Scheduling.KillKeeps` | src/sched/sched.c:296-317 | killing keeps it; task 0 survives |
| `Scheduling.ExitKeeps` | src/sched/sched.c:528-539 | exiting keeps it |
| `Scheduling.TickKeeps` | src/sched/sched.c:353-416 | a tick keeps it |
| `Scheduling.TickDispatches` | src/sched/sched.c:371-416 | with several tasks, a tick dispatches the first ready slot after the current one; the branches for no next and no current task are never taken |
| `Scheduling.TickAlone` | src/sched/sched.c:353-370 | alone, the running task is resumed where it was |
| `Scheduling.EveryRunResumes` | src/sched/sched.c:353-416 | over every run the invariant holds and a tick resumes the chosen task with exactly the frame it was last interrupted at, or its first |
| `Scheduling.BoundedWaiting` | src/sched/sched.c:511-524 | a ready task that is not killed runs within its cyclic distance, at most 7 ticks, whatever else happens |
| `TaskLives.SpawnIff` | src/sched/sched.c:66-113 | a spawn succeeds iff a slot is unused and there is a stack; the task is then ready under an identifier never used before with the frame, directory and stack given, and no other slot changes |
| `TaskLives.KillIff` | src/sched/sched.c:296-317 | a kill succeeds iff the identifier is that of a task other than task 0; the running task becomes a zombie, any other leaves its slot, and no other slot changes |
| `TaskLives.TickHealth` | src/sched/sched.c:353-416 | after a tick no zombie is left and every other task is still there |
| `TaskLives.TickLoads` | src/sched/sched.c:353-416 | a tick loads the directory of the task it resumes, and keeps the loaded one if that has none |
| `TaskLives.HealthyStepIff` | src/sched/sched.c:296-539 | a task lives on through exactly the steps that neither kill it nor are its exit |
| `TaskLives.HealthyRunIff` | src/sched/sched.c:296-539 | over every run a task is there and no zombie iff it was before and no step ended it |
| `TaskLives.EndedForGood` | src/sched/sched.c:296-539 | once a task was killed or exited and a tick has passed, no slot ever holds it and it never runs again, whatever happens in between |
| `Scheduling.DestroyFreesIff` | src/sched/sched.c:475-496 | removing a task frees its directory, if and only if it is not the loaded one; otherwise no task holds it any more |
| `Scheduling.OrphanStepIff` | src/sched/sched.c:296-509 | a directory is allocated and held by no task after a step if and only if it was before, or the step cleared its owner while it was loaded |
| `Scheduling.OrphanRunIff` | src/sched/sched.c:296-509 | the same over every run: such a directory is never freed |
| `Scheduling.ExitLosesDirectory` | src/sched/sched.c:528-539 | the failing input: a task with a directory that exits loses it at the next tick, for ever |
| `Scheduling.EveryRunKeepsStacks` | src/sched/sched.c:74-86 | over every run the stacks not freed are exactly those of the tasks, each of one task |
| `TaskTable.Scheduler.constructor` | src/sched/sched.c:50-64 | the initial table: task 0 running |
| `TaskTable.Scheduler.SpawnTask` | src/sched/sched.c:66-113 | computes the specified spawn, -1 exactly when the table is full or no stack was to be had |
| `TaskTable.Scheduler.KillTask` | src/sched/sched.c:296-317 | computes the specified kill, which TaskLives.KillIff describes |
| `TaskTable.Scheduler.DestroyTask` | src/sched/sched.c:475-496 | computes the specified removal, stack included; the loaded directory is not freed |
| `TaskTable.Scheduler.ReapZombies` | src/sched/sched.c:498-509 | computes the specified reaping loop |
| `TaskTable.Scheduler.PickNext` | src/sched/sched.c:511-524 | computes the specified scan |
| `TaskTable.Scheduler.SchedTick` | src/sched/sched.c:353-416 | computes the specified tick with all its branches |
| `TaskTable.Interrupts.RequestFrameSwitch` | src/arch/x86/interrupts.c:59-65 | a non-NULL frame becomes the override |
| `TaskTable.Interrupts.TimerCallback` | src/arch/x86/timer.c:8-16 | counts the tick and requests a switch exactly when the scheduler chose another frame |
| `TaskTable.Interrupts.DispatchTimer` | src/arch/x86/interrupts.c:183-204 | no override is left behind, and the processor resumes with the scheduler's frame exactly unless a stale override met an unchanged frame |
| `WalkMessages.WalkRoundTrip` | src/fs/9p.c:21-47 | decoding by the 9P grammar gives back tag, fids and names, and the size field is the message length |
| `WalkMessages.ComponentsOfJoin` | src/fs/9p.c:237-251 | splitting a path joined from names gives the names back |
| `WalkMessages.ComponentsAreNames` | src/fs/9p.c:237-251 | components are non-empty, without slash, and fit the buffer |
| `WalkBuilder.SplitPath` | src/fs/9p.c:237-251 | the in-place loop leaves exactly the components, in order, as terminated strings that read back |
| `WalkBuilder.Transmitter.AppendString` | src/fs/9p.c:40-47 | appends the counted string |
| `WalkBuilder.Transmitter.BuildWalk` | src/fs/9p.c:211-263 | the buffer holds a message that decodes to the request with exactly the path's components; the tag advances modulo 2^16 |
| `Calendar.YearLength` | src/shell/shell.c:725-733 | month lengths of a year add up to its 365 or 366 days |
| `Calendar.DayNumberClosed` | src/shell/shell.c:725-733 | the day number by month table and leap-year rule equals a closed form over years from March that uses neither |
| `Calendar.SameHourSameTime` | src/shell/shell.c:725-733 | no two valid times have the same hour number |
| `Calendar.RollOver` | src/shell/shell.c:768-797 | the local time is valid, and its hour number is the given one plus the offset if and only if the 32-bit year does not wrap; if it does, the calendar goes round between its first and last hours |
| `Calendar.RoundTrip` | src/shell/shell.c:768-797 | rolling over by an offset and back is the identity, wrap included |

## Left out

- The boot directory's identity window (src/mem/paging.c:168-177): it aliases frames, so the ownership theorems are about directories whose user half is empty at the start. Kernel image mappings appear as entries naming frames below the allocator's base.
- Directory entry 1023, which maps the directory onto itself, as a map target.
- TLB, CR3 and CR0: `invlpg` and register loads have no effect, and only modelled loads and stores set Accessed and Dirty bits, so none changes during a scan.
- MemoryRuns.RunRefines: stores to the kernel half are not steps of the runs, and its contents are not compared; clones are steps where CloningElsewhere.CloneFaithful makes them faithful; frames mapped by callers are new ones, and mapping without a free frame is not a step.
- Cloning.CloneCopies: assumes a free frame for each table and page to copy. Cloning.CloneFaithfulIff and Cloning.DestroyUndoesClone do too: clones without room are the subject of CloningElsewhere.CloneElsewhereIff, CloningLoaded.CloneWithoutRoomIff and CloningCost.CloneUndoneIff.
- Cloning.DestroyUndoesClone: assumes room; CloningCost.CloneUndoneIff shows that nothing less will do.
- CloningSupply.CloneElsewhereSucceedsIff: for the loaded directory, whose pages the clone itself may evict, only CloningCost.CloneUndoneIff says that room suffices.
- CloningLoaded.CloneWithoutRoomIff: of the clones of the loaded directory without room, those with two free frames and a single resident page; with more pages, which of them are damaged depends on the hand.
- AddressSpaces.UnmapKeeps: says nothing about the frame or slot left behind; for slots SlotRuns.UnmapLost does. Frames stay with the caller, as in the code.
- AddressSpaces.DestroyKeeps: says nothing about slots; SlotRuns.DestroyLost does.
- VirtualMemory.Vm.Map: physical addresses are reached by frame number; that the kernel's own identity mapping makes them reachable is taken for granted. A disk write that breaks off is modelled in SwapArea.Swap.Out and does not occur in the paging code above it.
- HeapClients.EveryRunKeeps: switches are to directories that share the window's tables; HeapPages.UnmapReturnsFrameIff says what a trim does under another one.
- HeapSupply.MallocOutcomeIff: requests whose 32-bit sums wrap are the subject of HeapBlocks.MallocServesIff.
- KernelHeaps.PayloadUntouched: headers are records at addresses beside the page contents, so the bytes of payloads are a matter of which addresses are written.
- KernelHeaps.KernelHeap.Kfree: pointers other than NULL come from `kmalloc`.
- `kmalloc_aligned`, whose result cannot be freed.
- Virtqueues.Virtqueue.constructor: allocation of the queue's memory and the port writes are not modelled.
- InputQueue.Poll: what an event does to the mouse state is not modelled.
- TaskTable.Scheduler.SpawnTask: the stack that `kmalloc` returns is a parameter, 0 if there is none; the frame built on it is a number.
- Task identifiers do not wrap, and no task sleeps; `sched_spawn_elf` is not modelled.
- TaskTable.Interrupts.DispatchTimer: other vectors, the end-of-interrupt write and the panic path are not modelled.
- WalkBuilder.Transmitter.BuildWalk: paths have fewer than 256 bytes and at most 32 components, what the fixed buffers of the code can hold.
- The 9P transport, replies and fids, and the 64-bit codecs.
- Calendar.RollOver: parsing the offset and reading the clock are not modelled.
- Shared memory, the ELF loader, file systems, console, drivers for disk, bus, mouse and sound, and start-up code: they add port access and output, or break the one-owner rule for frames.
