# A verified model of the so-finalproject kernel

A small 32-bit x86 kernel, modelled in Dafny: its heap, its physical frame allocator, its page directories and the
loader that fills them, its scheduler, blocking system calls and context switch, its console and keyboard, and the
file system image that the build tool writes and the kernel reads.

`dafny verify dfyconfig.toml` checks the whole project.

## What is proved

**Heap** (`FreeList`, `HeapMemory`, `HeapTiling`, `KernelHeap`). The headers in memory link one circle in address order
with a single wrap. The circle and the live blocks tile exactly the pages the heap has obtained. The list is a
canonical form of the set of free units: histories that agree on what is free have the same list, so the order of
releases does not matter and an allocation that does not grow the heap is exactly undone by freeing it. Every search
terminates, and a request grows the heap at most once and only when nothing fits.

**Frames** (`Bits`, `FrameSets`, `BootMap`, `FrameAllocator`). The bitmap and the counter refine a set of used frames.
Allocation is first fit for single frames and for runs. The frames free after boot are characterised exactly.

**Address spaces** (`Translation`, `AddressSpace`, `Machine`, `Paging`, `Loader`, `Isolation`). The two-level walk of
sections 4.3 and 4.6 of volume 3A of the Intel Software Developer's Manual is defined over physical memory as bytes.
Mapping one page changes the translation and the rights of that page only, also when a 4 MiB page is split on the way.
The loader builds the intended address space for every program size. Over every run of spawns, stores of processes in
their own pages, by themselves or in system calls, and changes the kernel makes to its own memory, all frames of all
processes stay distinct and every address space stays as it was built. What the kernel sees at its own address while a
process runs is stated exactly.

**Processes** (`ProcessTable`, `Scheduler`, `ProcessCreate`, `KernelSteps`, `KernelRuns`, `KernelCalls`,
`ContextSwitch`, `SwitchRuns`). Kernel code runs with interrupts off, so the kernel is a machine of atomic steps between
user mode, calls of the scheduler and the halt instruction inside a blocking call. Over every run from boot there is one
running process with its own stack and directory loaded, live pids are unique and never come back, lines are delivered
once, whole and in order, and a ready process waits for at most fifteen scheduler calls. A wait returns only after a
state in which its pid is not alive, a read returns with exactly one line, and that line is made of the keys pressed
since the last one. A control block keeps its pid, directory, kernel stack and name until its slot is reused. The switch
reads and writes through the page directory that is loaded at each moment. In the run of `Isolation`, with switches
added, a process that is switched in again pops exactly what it pushed.

**Console and keyboard** (`Tape`, `FrameBuffer`, `LineEditor`, `Keyboard`, `EchoedLine`). The screen is a window onto an
unbounded tape. The line is what cancelling backspaces leaves of the keys. The unfinished line is what the screen shows
before the cursor.

**File system** (`SofsImage`, `SofsBuilder`, `SofsDriver`). What the build tool writes is what the driver reads.

## Where the code does not do what one would expect

Each of these is stated with the exact condition.

- A request for more than 2^32 - 8 bytes gets a block too small for it (`KernelHeap.PayloadHoldsRequest`).
- Address zero means "none" only while no run of that length starts at frame zero (`FrameSets.ZeroMeansNone`).
- An available region that ends exactly at 4 GiB is skipped, and one that reaches past 4 GiB loses the last frame
  (`BootMap.EntryExact`, `BootMap.EndingAtFourGiB`, `BootMap.ReachingPastFourGiB`).
- Rounding an address in the last page up wraps to zero: a release then frees frame zero, a reservation takes nothing
  (`BootMap.ReleaseExact`, `BootMap.ReserveExact`).
- With exactly one frame too few, creating a process succeeds although its stack is not mapped, because the page
  mapping fails silently (`Loader.LoadProcess`).
- While a process runs, the kernel does not reach a frame at its own address if a page of the process hides it
  (`Isolation.ShadowExact`). A program of two pages hides its own kernel stack if that is frame 1, which first fit picks
  when it is free (`Isolation.StackSeenExactly`, `Isolation.TwoPagesHideStack`). A program of more than 256 pages hides
  the kernel text, which is linked at 1 MiB, so the switch to it has no next instruction
  (`Isolation.ImageSeenExactly`, `Isolation.LongProgramHidesText`). A process can create another only while none of its
  pages hides its kernel stack, the kernel image or a free frame (`Isolation.ProcessWorking`,
  `Isolation.HiddenFrameMissed`).
- System calls store at the address they are given. The store stays in the caller's own data only if the page is one of
  the caller's own (`Isolation.StoreExact`); the page of another process's directory is not, and a store there undoes
  that process's address space (`Isolation.OtherDirectoryReached`, `Isolation.OverwrittenDirectoryBroken`).
- A wait for a pid that was never handed out returns at once, and that pid can come alive later
  (`KernelRuns.UnissuedPidComesAlive`): in some run that creates at most `n` processes if and only if it is among the
  next `n` pids (`KernelRuns.StaysDeadExactly`). Every process uses up at least three frames for good, which bounds `n`
  (`Isolation.AlwaysFits`).
- Without a memory map, memory whose end passes 4 GiB is released only up to where the wrapped end says
  (`BootMap.UpperMemoryExact`).
- A process that waits for its own pid never returns (`KernelRuns.OwnWaitNeverReturns`).
- The repository's README says that the shell's `exit` halts the system. The code halts it only when no other process
  is alive (`KernelRuns.HaltsWithLastExit`).
- A file is found under its own name only if that has at most 63 bytes and no earlier file is stored under it
  (`SofsDriver.LookupFindsFile`).

## Model

| member | source | states |
|---|---|---|
| FrameSets.ZeroMeansNone | src/pfa.c:146-195 | result 0 of a first-fit allocation means "no run" exactly when no run of that length starts at frame 0 |
| FrameSets.ZeroCanBeSuccess | src/pfa.c:146-156 | with every frame free, result 0 is frame 0 and not a failure |
| FrameSets.ContiguousRoundTrip | src/pfa.c:166-207 | releasing what a contiguous allocation returned restores the used set exactly |
| BootMap.ReleaseExact | src/pfa.c:53-68 | a release frees exactly the frames wholly inside its region, if and only if rounding the start up does not wrap onto a region that reaches into frame 1 |
| BootMap.ReserveExact | src/pfa.c:70-85 | a reservation takes exactly the frames its region touches, if and only if rounding the end up does not wrap |
| BootMap.LastPageWraps | src/pfa.c:12-15 | a region starting at 0xFFFFF001 frees frame 0, one ending there reserves nothing |
| BootMap.EntryExactAt | src/pfa.c:109-121 | frame by frame, an entry releases what it describes if and only if neither its start nor its end is lost to 32-bit arithmetic there |
| BootMap.EntryExact | src/pfa.c:109-121 | an available region is released exactly if and only if it lies above 4 GiB, ends below 4 GiB and does not start in the last page, or runs from inside the last page to 4 GiB |
| BootMap.EndingAtFourGiB | src/pfa.c:116-118 | the region from 3 GiB to 4 GiB releases nothing |
| BootMap.ReachingPastFourGiB | src/pfa.c:116-118 | the region from 3 GiB to 5 GiB loses the last frame below 4 GiB, and not the one before |
| BootMap.MapReleasesExact | src/pfa.c:101-124 | the map frees a frame exactly when it is wholly inside some available region, whatever the order or overlap, if and only if a described frame is released by some entry and at any other frame all entries are exact |
| BootMap.UpperMemoryExact | src/pfa.c:125-128 | without a map a frame is released exactly when it lies in the reported memory above 1 MiB, if and only if the size does not lose it past 4 GiB |
| BootMap.BootReservesExact | src/pfa.c:131-143 | the boot reservations take a frame exactly when it touches frame 0, the kernel, the boot structure or the map table, if and only if not only regions ending in the last page reserve it |
| BootMap.FreeAfterBoot | src/pfa.c:87-144 | a frame is free after initialisation exactly when it lies wholly inside available memory and touches nothing reserved, if and only if releases and reservations are exact there |
| BootMap.FreeWithoutMap | src/pfa.c:125-143 | the same for a boot without a memory map |
| FrameAllocator.AlignUp | src/pfa.c:12-15 | masking rounds the wrapped sum up to a page boundary |
| FrameAllocator.AlignDown | src/pfa.c:17-20 | masking rounds down to a page boundary |
| FrameAllocator.FrameAllocator.MarkUsed | src/pfa.c:22-32 | adds exactly that frame to the set the bitmap stands for and keeps the counter its size |
| FrameAllocator.FrameAllocator.MarkFree | src/pfa.c:34-44 | removes exactly that frame and keeps the counter the size of the set |
| FrameAllocator.FrameAllocator.IsUsed | src/pfa.c:46-51 | the bit test decides membership in the used set |
| FrameAllocator.FrameAllocator.MarkRegionFree | src/pfa.c:53-68 | releases the frames inside the region, with the wrap-around of the rounding |
| FrameAllocator.FrameAllocator.MarkRegionUsed | src/pfa.c:70-85 | reserves the frames the region touches, with the wrap-around of the rounding |
| FrameAllocator.FrameAllocator.ReleaseMap | src/pfa.c:101-123 | the walk over the map table visits every entry once, terminates, and releases what they describe |
| FrameAllocator.FrameAllocator.Init | src/pfa.c:87-144 | the used set is all frames without the released ones plus the reserved ones |
| FrameAllocator.FrameAllocator.Alloc | src/pfa.c:146-156 | takes the lowest free frame, or reports 0 and changes nothing when there is none |
| FrameAllocator.FrameAllocator.Free | src/pfa.c:158-164 | removes exactly the frame of the address |
| FrameAllocator.FrameAllocator.FindRun | src/pfa.c:166-187 | finds the lowest run of that many free frames if and only if there is one |
| FrameAllocator.FrameAllocator.AllocContiguous | src/pfa.c:166-195 | takes exactly the lowest run, or reports 0 and changes nothing when there is none or none is asked for |
| FrameAllocator.FrameAllocator.FreeContiguous | src/pfa.c:197-207 | removes exactly the frames counted from the address, wrapping at 32 bits |
| FrameAllocator.FrameAllocator.Reserve | src/pfa.c:209-212 | adds exactly the frames the region touches |
| FrameAllocator.FrameAllocator.FreeCount | src/pfa.c:224-227 | the counter difference is the number of frames outside the used set |
| FreeList.Canonical | src/kheap.c:107-128 | two well-formed free lists that cover the same units are the same list |
| FreeList.TakeReleaseIdentity | src/kheap.c:66-75 | taking a block and giving it back restores the list exactly |
| FreeList.ReleaseOrderIrrelevant | src/kheap.c:107-128 | giving back the same blocks in any order ends in the same list |
| FreeList.JoinedWellFormed | src/kheap.c:114-126 | putting a block in with merging on both sides keeps the order, the gaps between neighbours and the static header |
| FreeList.JoinedUnits | src/kheap.c:114-126 | a release adds exactly the units of the block |
| FreeList.RemoveTakes | src/kheap.c:67-68 | unlinking a block takes exactly its units and keeps the list well-formed |
| FreeList.ShrinkTakes | src/kheap.c:69-73 | cutting the tail off a block takes exactly the tail's units and keeps the list well-formed |
| HeapMemory.MeetTests | src/kheap.c:114-121 | the two pointer comparisons decide exactly whether the block meets its neighbours, also at the wrap of the circle |
| HeapMemory.StopsAtPredecessor | src/kheap.c:107-112 | the exit tests of the release loop hold at the predecessor of the place the block belongs to and nowhere else |
| HeapMemory.FreedLinked | src/kheap.c:114-126 | after the two halves of a release the headers link exactly the list with the block joined in |
| HeapMemory.RemovedLinked | src/kheap.c:67-68 | after unlinking, the headers link exactly the list without the block |
| HeapMemory.ShrunkLinked | src/kheap.c:69-73 | after a tail split, the headers link exactly the list with the shortened block |
| HeapTiling.ReleaseTiles | src/kheap.c:92-129 | giving a live block back keeps free and live blocks tiling the heap's pages |
| HeapTiling.TakeTiles | src/kheap.c:66-75 | handing out a block keeps the tiling and overlaps no live block |
| HeapTiling.GrowTiles | src/kheap.c:21-36 | adding fresh pages keeps the tiling of the larger set of pages |
| HeapTiling.LiveExclusive | src/kheap.c:45-90 | no unit belongs to two live allocations, or to a live one and the free list, and each lies in a heap page |
| HeapTiling.ListDetermined | src/kheap.c:45-129 | the live allocations and the pages determine the free list |
| KernelHeap.PayloadHoldsRequest | src/kheap.c:55-56 | the payload holds the request if and only if it is at most 2^32 - 8 bytes, and never exceeds it by a whole unit |
| KernelHeap.LargestRequestGetsNothing | src/kheap.c:55-56 | a request of 2^32 - 1 bytes gets a header and no payload |
| KernelHeap.PointerFaithful | src/kheap.c:75 | the payload pointer is 8-aligned, not null, and leads back to the header |
| KernelHeap.PagesHoldUnits | src/kheap.c:23-24 | the pages asked for hold the block and one page less would not, unless the size arithmetic wraps to no page at all |
| KernelHeap.KernelHeap.Init | src/kheap.c:38-43 | the list is the static header alone, and the heap invariant holds |
| KernelHeap.KernelHeap.FindPlace | src/kheap.c:107-112 | the walk around the circle terminates at the predecessor of the place the address belongs to |
| KernelHeap.KernelHeap.Release | src/kheap.c:92-129 | the list becomes the old one with the block joined in, `freep` names the predecessor, no other header changes |
| KernelHeap.KernelHeap.Kfree | src/kheap.c:131-134 | keeps the heap invariant and ends exactly that allocation; the next search starts at the block before it; the null pointer is ignored |
| KernelHeap.KernelHeap.Search | src/kheap.c:62-89 | one turn finds a block if and only if some block is large enough, and then the first one after `freep` |
| KernelHeap.KernelHeap.TakeWhole | src/kheap.c:67-75 | an exact fit is unlinked whole; invariant and other allocations are kept |
| KernelHeap.KernelHeap.TakeTail | src/kheap.c:69-75 | a longer block keeps its head and gives its tail; invariant and other allocations are kept |
| KernelHeap.KernelHeap.Morecore | src/kheap.c:21-36 | the pages of one first-fit grant join the heap, and then a block of that size fits; on failure nothing changes |
| KernelHeap.KernelHeap.SearchOrGrow | src/kheap.c:62-89 | terminates; finds the first fit after `freep`, in the list and from the `freep` it was called with if anything fits there; grows at most once, only when nothing fits, and finds a fit after growing, also when the pages merged into `freep`'s block |
| KernelHeap.KernelHeap.Kmalloc | src/kheap.c:45-90 | keeps the heap invariant, adds exactly one allocation of the rounded size, fails exactly when the grant fails; if anything fits, the block is the end of the first fit after `freep`, and the next search starts at the block before that one |
| KernelHeap.AllocateFitting | src/kheap.c:45-90 | an allocation that some free block can hold succeeds and takes no frame |
| KernelHeap.AllocateAndFree | src/kheap.c:45-134 | an allocation that does not grow the heap is exactly undone by freeing it |
| AddressSpace.SplitRepeats | src/paging4k.c:40-50 | the 1024 entries of the new table translate as the 4 MiB page did |
| AddressSpace.NewTable | src/paging4k.c:46-68 | linking a table that repeats the entry keeps the directory invariant and every translation and right |
| AddressSpace.OpenedToUser | src/paging4k.c:71-75 | opening a directory entry to user mode changes no translation and no right |
| AddressSpace.PageMapped | src/paging4k.c:78 | writing one page table entry remaps exactly its page |
| AddressSpace.Untouched | src/paging4k.c:25-79 | a directory none of whose frames changed translates as before |
| Paging.CreateKernelDir | src/paging4k.c:5-23 | a fresh frame becomes a directory of supervisor identity pages; fails exactly when no frame is free |
| Paging.IdentityDirectory | src/paging4k.c:18-20 | such a directory meets the invariant and maps every address to itself, for the kernel only |
| Paging.SplitPage | src/paging4k.c:34-55 | the split keeps every translation; it fails exactly when no frame is free and then changes nothing |
| Paging.AddTable | src/paging4k.c:57-68 | an empty table behind an absent entry keeps every translation; same failure rule |
| Paging.OpenTable | src/paging4k.c:70-76 | finds the existing table and opens it to user mode without changing a translation |
| Paging.EnsureTable | src/paging4k.c:34-76 | after all three branches a table is there and no translation changed; fails exactly when a frame was needed and none was free |
| Paging.MapPage | src/paging4k.c:25-79 | the page maps to the frame with the given rights, every other page of the directory keeps translation and rights, no other used frame changes; fails exactly when a table was needed and no frame was free, then nothing changes |
| Loader.CopyPage | src/process.c:82-88 | the frame holds the copied bytes and zeros behind them; nothing else changes |
| Loader.LoadPage | src/process.c:78-91 | the next page of the program is in a fresh frame, mapped unless a table was needed and no frame was left; earlier pages keep frame and contents |
| Loader.LoadCode | src/process.c:78-91 | all pages of the program are in distinct fresh frames in order, for every size |
| Loader.AddStack | src/process.c:93-98 | a zeroed fresh frame becomes the stack page; exact failure and exact condition for it to be mapped |
| Loader.PushAll | src/process.c:118-131 | the words sit from the top of the stack downwards |
| Loader.LoadProcess | src/process.c:66-131 | builds the process as intended, its kernel stack in the lowest free frame; fails exactly when too few frames are free, and maps the stack exactly when one more is; frames in use before keep their contents |
| Isolation.ProgramVisible | src/process.c:78-91 | user mode reads the file's bytes from address 0, then zeros to the end of the last page, through writable pages |
| Isolation.StackVisible | src/process.c:93-98 | the page below 0xC0000000 is the process's own and reads as zeros |
| Isolation.KernelElsewhere | src/paging4k.c:18-20 | every other address is mapped to itself and closed to user mode |
| Isolation.ShadowExact | src/process.c:71-89 | the kernel reaches a frame at its own address if and only if no page of the running process hides it |
| Isolation.UserStoreStaysHome | src/process.c:89-98 | user mode reaches no frame but the process's program and stack frames |
| Isolation.StoreExact | src/syscall.c:46-69 | a store the kernel makes at an address the caller gives is always carried out, and stays in the caller's own data if and only if the page is one of the caller's own |
| Isolation.OtherDirectoryReached | src/syscall.c:46 | the page of another process's directory is not one of the caller's own, and a store there reaches that directory |
| Isolation.OverwrittenDirectoryBroken | src/syscall.c:46 | a directory whose first entry was overwritten with one that is not present no longer maps what was built |
| Isolation.StackSeenExactly | src/process.c:208-215 | while a process runs, the kernel reaches its stack at its own address if and only if no page of the process hides it |
| Isolation.ReservedSeenExactly | src/process.c:22-24 | the same for a reserved frame, such as one of the kernel image with the process table |
| Isolation.ImageSeenExactly | link.ld:6 | the kernel sees its own text and data if and only if no page of the process hides a frame of them |
| Isolation.LongProgramHidesText | link.ld:6 | a program of more than 256 pages hides the kernel text at 1 MiB |
| Isolation.HiddenStackReadsProgram | src/process.c:68-91 | a kernel stack hidden by a program page reads as the program |
| Isolation.TwoPagesHideStack | src/process.c:68-91 | a program of two pages hides its kernel stack if frame 1 was free |
| Isolation.FreeSeenExactly | src/process.c:71-96 | while a process runs, the kernel sees every free frame if and only if no page of the process hides one |
| Isolation.HiddenFrameMissed | src/process.c:71-96 | what the kernel stores in a hidden free frame goes into the running program |
| Isolation.BootWorking | src/paging.s:12-18 | under the identity directory the kernel sees itself and every free frame, so it can load programs |
| Isolation.ProcessWorking | src/syscall.c:33-36 | under a process's directory the kernel sees itself, its stack and every free frame, so it can load a program, if and only if no page of the process hides one of them |
| Isolation.ProcessesFitFrames | src/process.c:68-98 | each process takes at least three frames of its own, so processes and reserved frames together never exceed the frames there are |
| Isolation.LedgerGrows | src/process.c:68-98 | a process built from free frames shares no frame with an earlier one and leaves their address spaces as they were |
| Isolation.Spawn | src/process.c:66-131 | loading a program, successful or not, is a spawn step of the run |
| Isolation.StepKeepsLedger | src/syscall.c:12-83 | spawns, stores in own pages and changes of kernel memory keep all processes' frames apart and their address spaces as built |
| Isolation.AlwaysApart | src/kmain.c:50-59 | in every state of every run of such steps all processes' frames are pairwise distinct, clear of what was reserved at boot, and every address space is as built |
| Isolation.AlwaysFits | src/process.c:68-98 | in every state of every run there are at most a third as many processes as frames not reserved at boot |
| ProcessCreate.FindProgram | src/process.c:60-65 | finds the first file of that name and where its bytes are in memory |
| ProcessCreate.ProcessCreate | src/process.c:43-149 | fails exactly when the table is full, the file is missing or frames are too few, and then the table and the next pid are unchanged; else the first dead slot holds the next pid, ready, with the stack pointer, directory and kernel stack of the process that was built from the file, and no other slot changes |
| ProcessCreate.EnteredSpace | src/process.c:133-138 | entering the slot of a created process loads a directory whose address space is the file's, and the end of the process's kernel stack |
| ProcessCreate.SpawnProcess | src/process.c:43-149 | a process created during a run of switches is loaded as the run's spawns require, with the stack pointer in its control block |
| ProcessTable.ScanFinds | src/process.c:197-203 | the scan finds the ready slot that comes up first around the table, or there is none |
| ProcessTable.AroundTable | src/process.c:197-199 | the scan visits the slots in increasing order, modulo the size of the table |
| ProcessTable.ScheduledExact | src/process.c:180-216 | in terms of the table before: the nearest ready slot runs, its directory and the end of its kernel stack are loaded, the process that ran is ready, a dead one stays dead, and nothing else of any slot changes; without a ready slot nothing changes |
| ProcessTable.CreatedExact | src/process.c:133-148 | a creation writes every field of the first dead slot, the name cut to 31 bytes, takes the next pid, changes no other slot and does not switch |
| Scheduler.Scheduler.constructor | src/process.c:26-35 | all slots are dead and nothing is current |
| Scheduler.Scheduler.FindFreeSlot | src/process.c:53-58 | finds the first dead slot |
| Scheduler.Scheduler.Register | src/process.c:133-148 | every field of the slot is the one given, with the next pid, ready, the name cut to 31 bytes; no other slot changes |
| Scheduler.Scheduler.ProcessIsAlive | src/process.c:152-161 | true exactly when a live slot has that pid |
| Scheduler.Scheduler.FindReady | src/process.c:189-203 | finds the ready slot nearest after the start, or there is none |
| Scheduler.Scheduler.Schedule | src/process.c:180-216 | the nearest ready process runs with its own directory and the end of its own kernel stack loaded, the old one becomes ready if it was running, and no other field of any slot changes; without a ready process nothing changes |
| Scheduler.Scheduler.Start | src/process.c:219-240 | enters the first ready process, with its directory and the end of its kernel stack, if and only if there is one |
| KernelSteps.StepOneRunning | src/syscall.c:12-83 | every step keeps one running process, the current one, with its stack and directory loaded, all others ready or dead |
| KernelSteps.StepPidsUnique | src/process.c:133-148 | every step keeps live pids unique and below the next pid |
| KernelSteps.StepLinesInOrder | src/syscall.c:39-47 | every step keeps deliveries matching the completed lines one by one |
| KernelSteps.StepKeepsInv | src/syscall.c:12-83 | timer ticks, keys, yield, exit, spawn, read and wait keep the whole invariant |
| KernelRuns.BootedInv | src/kmain.c:76-82 | the state in which the scheduler enters the first process meets the invariant, whatever was typed before |
| KernelRuns.AlwaysInv | src/kmain.c:76-82 | the invariant holds in every state of every run from boot |
| KernelRuns.HaltsWithLastExit | src/syscall.c:21-27 | a step halts the system if and only if it is the exit of the last live process |
| KernelRuns.DeadStaysDead | src/process.c:133-161 | a pid that has died is never alive again, even when its slot is reused |
| KernelRuns.WaitReturnsWhenDead | src/syscall.c:49-59 | a wait returns exactly at a test that finds the pid not alive, and a pid that had been handed out is dead ever after |
| KernelRuns.Reach | src/process.c:180-216 | a live process in user mode can be brought to run without any process being created or exiting |
| KernelRuns.BornCounts | src/process.c:133 | pids are handed out one for each process created |
| KernelRuns.ComesAlive | src/process.c:133 | where a spawn can succeed, a pid not yet handed out is alive after a run that creates just the processes up to it |
| KernelRuns.StaysDeadExactly | src/syscall.c:49-59 | where a spawn can succeed, a pid that is not alive stays so in every run that creates at most n processes if and only if it has been handed out or is not among the next n pids |
| KernelRuns.UnissuedPidComesAlive | src/syscall.c:49-59 | at boot pid 2 is not alive, and after the first spawn it is |
| KernelRuns.OwnWaitNeverReturns | src/syscall.c:49-59 | a process waiting for its own pid stays in the wait in every run |
| KernelRuns.ScheduledCloser | src/process.c:189-212 | a ready process is run, or the current slot gets strictly closer to it |
| KernelRuns.BoundedWaiting | src/process.c:189-212 | a ready process runs by the fifteenth scheduler call, whatever is created or exits in between |
| KernelRuns.LinesDelivered | src/syscall.c:39-47 | the i-th delivery is the longest prefix of the i-th completed line that fits its reader; at most one line is waiting |
| KernelCalls.SpawnCreates | src/syscall.c:33-36 | a spawn writes the new process into the first dead slot with the next pid and does not switch |
| KernelCalls.StepKeepsBlock | src/process.c:133-148 | no step changes a control block but for its state; only a spawn writes one, whole, into a dead slot |
| KernelCalls.BlockStays | src/process.c:133-148 | over any run a control block keeps pid, directory, kernel stack and name until its slot is reused by a later pid |
| KernelCalls.SwitchesExactly | src/syscall.c:29-59 | a tick in user mode, a yield and a test that must wait run the nearest ready process and leave the old one ready; no other event but exit and spawn changes the table |
| KernelCalls.ExitSwitches | src/syscall.c:21-27 | an exit leaves its process dead and runs the nearest ready one |
| KernelCalls.PlacesKept | src/syscall.c:12-83 | only the running process moves, in user mode only into a call; a new process starts in user mode |
| KernelCalls.BlockEnters | src/syscall.c:39-59 | a read or wait starts at the test of its loop and changes nothing else |
| KernelCalls.LoopGoesRound | src/syscall.c:39-59 | test, scheduler call, second test, halt, wake-up and the test again follow one another as in the loop, and only a test that passes returns |
| KernelCalls.StepInCall | src/syscall.c:39-59 | a process inside a call stays alive in it, with its pid, until the step in which it runs its test and finds what it waits for |
| KernelCalls.WaitBlocks | src/syscall.c:49-59 | in every run after a wait for a pid, the process is back in user mode only after a state in which that pid was not alive |
| KernelCalls.StepDelivers | src/syscall.c:39-47 | a line is delivered exactly by a reader's test that finds one complete: to that reader's pid, with its room, the longest prefix that fits; the line is then empty |
| KernelCalls.ReadDelivers | src/syscall.c:39-47 | from inside a read to its return, whatever others do and read meanwhile, the process receives exactly one line, with its pid and its room, and the line is empty when it returns |
| KernelCalls.LineFromKeys | src/drivers/keyboard.c:79-92 | in every state of every run the line is made only of keys pressed since the last delivery |
| KernelCalls.LineIsEdited | src/drivers/keyboard.c:42-71 | unless those keys have an Enter or overfill the line, it is what their backspaces leave of their characters |
| KernelCalls.EnterRecords | src/drivers/keyboard.c:54-59 | a line is completed by an Enter on an unfinished line, as it stands, and by nothing else |
| ContextSwitch.Cpu.SaveRegisters | src/context_switch.s:23-27 | flags and registers sit below the return address in that order; other memory is unchanged |
| ContextSwitch.Cpu.RestoreRegisters | src/context_switch.s:37-42 | flags, registers and return address come from the stack in the same order |
| ContextSwitch.Cpu.SwitchContext | src/context_switch.s:22-42 | the old context and stack pointer are saved under the old directory, the new ones loaded under the new one, no other memory changes, and the kernel image is still reached |
| ContextSwitch.Cpu.JumpToProcess | src/context_switch.s:46-56 | the context of the first process is loaded under its directory and memory is unchanged |
| ContextSwitch.Cpu.Trampoline | src/context_switch.s:62-68 | user mode starts with what the interrupt return frame says |
| ContextSwitch.Cpu.FirstRun | src/context_switch.s:46-68 | a process that never ran, whose directory shows its kernel stack and the kernel image, starts at address 0 in ring 3 with interrupts on and its stack at 0xC0000000 |
| ContextSwitch.FirstFrameRead | src/process.c:118-131 | the words pushed at creation are what the switch and the interrupt return read |
| SwitchRuns.VisibleExactly | src/process.c:208-215 | a process's directory shows its kernel stack and the kernel image if and only if none of its pages hides one of them |
| SwitchRuns.SpawnReady | src/syscall.c:33-36 | in every reachable state the current process can create another if and only if none of its pages hides a free frame |
| SwitchRuns.StartsInv | src/process.c:219-240 | the state in which the scheduler enters the first process meets the invariant |
| SwitchRuns.SwitchTouches | src/process.c:208-215 | a switch changes only the stack of the process that leaves and the frame of its saved stack pointer |
| SwitchRuns.SwitchLeavesOthers | src/process.c:208-215 | a switch leaves the stack and the saved stack pointer of every other process untouched |
| SwitchRuns.StoreLeavesOthers | src/syscall.c:39-69 | so does a store of the current process in its own pages |
| SwitchRuns.StepKeepsInv | src/context_switch.s:22-42 | work of the current process and the kernel, spawns, switches and exits keep every suspended context in place and visible under its directory |
| SwitchRuns.CallReaches | src/context_switch.s:33-42 | in every reachable state the switch finds all it touches at its own address, its instructions included, under the old directory and then under the new one |
| SwitchRuns.SwitchTo | src/process.c:208-215 | the switch the scheduler calls for leads to the next world of the run, which meets the invariant |
| SwitchRuns.CreationIsSpawn | src/process.c:133-148 | a loaded program whose control block is written is a spawn of the run, provided it hides neither its kernel stack nor the kernel image |
| SwitchRuns.StackStays | src/context_switch.s:22-42 | while a process is away, its kernel stack does not change |
| SwitchRuns.Resumes | src/process.c:208-215 | a switch resumes a process with the registers and the stack it left, under its own directory |
| SwitchRuns.ResumesWhatItLeft | src/context_switch.s:22-42 | between a switch out and the next switch in, over every interleaving, nothing is lost: the process pops exactly what it pushed, and its whole stack above is byte for byte what it left |
| SwitchRuns.FirstRunReachesUser | src/context_switch.s:62-68 | a created process first switched in arrives at the trampoline with the intended interrupt return frame |
| Tape.PutAllConcat | src/drivers/fb.c:80-110 | writing two buffers is writing their concatenation |
| Tape.NewlineMovesDown | src/drivers/fb.c:93-95 | a newline adds only blanks and ends at the start of the next row, also from the start of a row |
| Tape.PlainAppended | src/drivers/fb.c:96-99 | characters other than backspace and newline are appended as they are |
| Tape.BackspaceErases | src/drivers/fb.c:87-92 | a backspace erases the last character, but none that has left the screen |
| Tape.BackspaceTakesBack | src/drivers/fb.c:87-104 | a backspace takes back a character just written, and the window too if it did not scroll |
| Tape.WindowFollows | src/drivers/fb.c:101-104 | the window moves only when the end of the text leaves it, by as little as shows it again |
| FrameBuffer.ScrollMovesWindow | src/drivers/fb.c:33-49 | scrolling shows the window one row further down the tape |
| FrameBuffer.FrameBuffer.WriteCell | src/drivers/fb.c:53-58 | exactly that cell gets the character and the default colours |
| FrameBuffer.FrameBuffer.Scroll | src/drivers/fb.c:33-49 | rows 1 to 24 move up, the last row is blank, the cursor is at its start |
| FrameBuffer.FrameBuffer.Clear | src/drivers/fb.c:68-78 | the screen shows the empty tape |
| FrameBuffer.FrameBuffer.PutChar | src/drivers/fb.c:84-105 | each character moves the screen as it moves the tape |
| FrameBuffer.FrameBuffer.Write | src/drivers/fb.c:80-110 | after any writes the screen is the window of the tape, blank from the cursor on |
| LineEditor.KeyRows | src/drivers/keyboard.c:12-29 | the rows of keys type the characters printed on them, Enter, backspace and space have their codes, and releases type nothing |
| LineEditor.OrdinaryKey | src/drivers/keyboard.c:65-69 | an ordinary key appends exactly its character and echoes it, up to 127 characters; a full line ignores it |
| LineEditor.BackspaceUndoes | src/drivers/keyboard.c:60-64 | a backspace undoes an ordinary key, and does nothing on an empty line |
| LineEditor.EnterCompletes | src/drivers/keyboard.c:57-59 | Enter completes the line with its text unchanged |
| LineEditor.KeyIgnored | src/drivers/keyboard.c:50-55 | a completed line and a key without a character change nothing |
| LineEditor.LineIsKept | src/drivers/keyboard.c:42-71 | before Enter, the line is at every moment what is left when each backspace cancels the nearest character before it, if and only if that is never longer than 127 characters |
| Keyboard.Keyboard.Handler | src/drivers/keyboard.c:42-71 | a key edits the line as `LineEditor` says and the screen follows with exactly the echo |
| Keyboard.Keyboard.ReadLine | src/drivers/keyboard.c:79-92 | the reader gets the longest prefix of the line that fits, and a new line begins |
| EchoedLine.AlwaysEchoed | src/drivers/keyboard.c:42-71 | after any keys and reads the tape is the earlier text followed by the line |
| EchoedLine.ScreenShowsLine | src/drivers/keyboard.c:42-71 | the cells before the cursor show the unfinished line, across wraps, backspaces and scrolls |
| SofsImage.SamePadding | tools/mkfs.py:56-69 | rounding the running offset and padding each file give the same next offset |
| SofsImage.ExtentAligned | tools/mkfs.py:44-56 | contents start at multiples of four, behind the table |
| SofsImage.ExtentBefore | tools/mkfs.py:44-56 | extents are disjoint, in order and inside the image |
| SofsBuilder.AlignUp4 | tools/mkfs.py:25-26 | masking rounds up to a multiple of four |
| SofsBuilder.PlanOffsets | tools/mkfs.py:44-56 | the running offset of each file is the sum of the padded files before it |
| SofsBuilder.BuildFs | tools/mkfs.py:29-69 | the bytes written are an image of the files; fails exactly when there is none or a 32-bit field overflows |
| SofsDriver.StrCmp | src/kutil.c:26-33 | zero exactly when the strings are equal |
| SofsDriver.FsInstance.Init | src/fs.c:8-21 | accepts an image exactly when the magic number is right |
| SofsDriver.FsInstance.Find | src/fs.c:31-45 | finds the first entry of that name, or there is none |
| SofsDriver.ImageIsDirectory | src/fs.c:8-45 | an image in memory is a directory of the stored names |
| SofsDriver.ContentsReadBack | src/fs.c:47-55 | address and size lead back to exactly the contents of every file |
| SofsDriver.LookupFindsFile | src/fs.c:31-45 | a file is found under its own name if and only if the name was not cut and no earlier file is stored under it |
| SofsDriver.LongNameNotFound | tools/mkfs.py:51-52 | a file with a 64-byte name is not found under it |
| SofsDriver.DistinctNamesFound | src/fs.c:31-45 | with distinct names of at most 63 bytes every file is found |

## Left out

- Port I/O and device programming, the GDT, IDT and TSS tables, the interrupt stubs, the boot code and the build files:
  hardware effects and constants. The stack pointer in the TSS and the rule "a tick schedules only in ring 3" are kept.
- User programs and their library; `fs_list`, `process_get_info` and the write and clear system calls: easy members.
- Reading the input directory and the ASCII encoding of names in the build tool: the list of names and contents is the
  input.
- Frames of a process that exits or of a failed spawn: the code never returns them, so they stay used in the model.
- TLB contents and kernel stack overflow: a CR3 load is taken to flush, and a switch is taken to find room for its nine
  words on the current stack.
- Heap headers live in a map of their own, apart from the memory of the other components; blocks and addresses count
  8-byte units.
- KernelSteps: the bodies of the system calls are steps on values, because the scheduler leaves them in the middle and
  another process continues; the scheduler itself is a class.
- Scheduler.Scheduler.Schedule: ends where the code calls the switch; the stack pointer the switch saves in the control
  block is part of `ContextSwitch.Cpu.SwitchContext` and `SwitchRuns`.
- KernelCalls.BlockStays: likewise, the stack pointer here is the one the process was created with.
- KernelSteps: a pid is an unbounded number; the code's counter wraps after 2^32 spawns, and a pid from 2^31 on reads as
  a failure to the caller.
- SwitchRuns: kernel code is taken to write no saved stack pointer of a live process except in a switch or when it
  enters a new process, as in the code. Runs contain only stores in a caller's own pages and only processes that hide
  neither their kernel stack nor the kernel image; `Isolation.StoreExact` and `SwitchRuns.VisibleExactly` say exactly
  which these are.
- Isolation.AlwaysApart: runs contain only stores in a caller's own pages and spawns by processes that hide no free
  frame; `Isolation.StoreExact` and `Isolation.ProcessWorking` say exactly which these are.
- Isolation.StepKeepsLedger: as for `Isolation.AlwaysApart`.
- Loader.LoadProcess: needs a current directory that hides neither the kernel nor a free frame;
  `Isolation.BootWorking` shows this at boot and `Isolation.ProcessWorking` says exactly when it holds while a process
  runs.
- Isolation.Spawn: as for `Loader.LoadProcess`.
- ProcessCreate.ProcessCreate: as for `Loader.LoadProcess`.
- ProcessCreate.SpawnProcess: as for `Loader.LoadProcess`.
- FrameBuffer: the screen is taken to be reached at its own address; `Isolation.ReservedSeenExactly` says when a process
  hides it.
- KernelSteps: frames are not part of this machine, so a spawn may succeed whenever a slot is free. Properties of every
  run hold all the same; what some run reaches is stated for runs with a bounded number of spawns.
- Keyboard.Keyboard.ReadLine: the destination is an array apart from the driver's own; what a store at an arbitrary
  address reaches is `Isolation.StoreExact`.
- FrameAllocator.FrameAllocator.Init: needs a map table whose records end below 4 GiB.
- FrameAllocator.FrameAllocator.ReleaseMap: as for `FrameAllocator.FrameAllocator.Init`.
- SofsDriver.FsInstance.Find: needs entry names that end inside the image, as every built image has.
