# MCSOS kernel: verified models of its core

MCSOS is a small x86_64 teaching kernel in C. This project models its memory managers, scheduler, locks,
RAM file system and ELF64 load planner in Dafny and proves what each of them keeps over whole runs.

Each component comes in two layers. A value model (`FrameModel`, `PageModel`, `HeapModel`, `SchedModel`,
`PathModel`, `VfsModel`, `DescModel`, `ElfModel`) states what the C code computes and carries the theorems.
A class (`FrameAllocator`, `AddressSpace`, `KernelHeap`, `Scheduler`, `Lockdep`, `RamFs`, `FdTable`,
`ElfPlanner`) updates the same fields, arrays, links and headers in place as the C code does, with its loops,
and every method is proved equal to the value model.

| component | files | main results |
|---|---|---|
| frame allocator | `FrameModel`, `FrameAllocator` | exactly when the boot map is honoured; lowest free frame in every run |
| page tables | `PageModel`, `PageProofs`, `PageBits`, `PageRuns`, `AddressSpace` | every run of map and unmap agrees with a flat map; entries, addresses and indices bit by bit |
| both together | `KernelMemory` | table frames are distinct, used and never handed out, in every run |
| kernel heap | `HeapModel`, `HeapLinks`, `KernelHeap` | exact tiling, allocation undone by free, freeing all in any order, exact validator |
| scheduler | `SchedModel`, `Scheduler` | partition of the threads, what each operation does to queue, states and counts, exact accounting, bounded waiting, exact validator |
| locks | `Mutex`, `Lockdep`, `Deadlock` | mutual exclusion and the answer to every whole call under every interleaving; no wait-for cycle; exactly when the threads are stuck and when a run can be wound up |
| files | `PathModel`, `VfsModel`, `DescModel`, `RamFs`, `FdTable` | paths and nodes correspond one to one; exactly why a path does not resolve; files are isolated over whole runs |
| ELF planner | `ElfModel`, `ElfLayout`, `ElfPlanner` | accepted exactly when plannable, down to the bytes written; plan is exactly the PT_LOAD headers; which error |

Words are integers below 2^64 with wrap-around written out; `Words` says how shifts and masks appear, and
`Bits` what a bit of such a word is. Pointers
in the heap are addresses in a map of headers; threads are objects; a node of the file system is its index.

These promises do not hold of the code as it stands. Each has an input that shows it and its exact condition:

- `align_up` wraps in the last page of the address space and overflowing regions are dropped, so not every boot
  map is honoured (`FrameModel.LastPageWrapsToZero`). A region is representable iff every otherwise representable
  map that contains it is honoured (`FrameModel.MapHonouredIff`); a given map is honoured iff at every frame the
  regions that are not representable are masked by others (`FrameModel.HonouredIffMasked`).
- `pmm_reserve_range` reports success on ranges it does not take (`FrameModel.ReserveAllTakesNothing`); it takes
  exactly the touched frames iff the range is representable or they were all used (`FrameModel.ReservesIff`).
- `vmm_map_page` keeps only bits 12 to 51 of a physical address (`PageRuns.HighAddressTruncated`): query returns
  the mapped address iff it lies below 2^52 (`PageRuns.MappedAddressIff`).
- `kmem_validate` never tests where the last block ends (`KernelHeap.ShortChainAccepted`): an accepted chain tiles
  the arena iff its last block ends at the arena's end (`KernelHeap.ChainTilesIff`).
- `mcs_spin_unlock` clears the word for any caller (`Deadlock.ForeignReleaseBreaks`): a release keeps the locks and
  the threads inside them in step iff no other thread is inside the lock (`Deadlock.ReleaseAgreesIff`).
- A thread that stops at a refused acquire keeps its locks (`Deadlock.StoppedHolderSticks`): a state is stuck iff
  every thread has stopped or waits through a chain of holders for one that has (`Deadlock.StuckIff`).
- `pmm_free_frame` frees a page table for any caller, and the next allocation can return it
  (`KernelMemory.FreedRootReturns`): a free keeps the tables safe iff the frame is no table
  (`KernelMemory.FreeKeepsIff`).
- `mcs_vfs_lseek` answers an int, so a far seek that moved the offset can look refused
  (`DescModel.FarSeekLooksRefused`): the answer is the position iff that is below 2^31 (`DescModel.SeekEffect`).
- `mcsos_sched_enqueue` accepts a thread that is already queued; that call always leaves a list the validator
  rejects (`Scheduler.SchedulerState.EnqueueQueued`), so "not queued" is an obligation of callers.

## Model

| member | source | states |
|---|---|---|
| `FrameModel.SpanPages` | kernel/core/pmm.c:64-109 | the address ranges walked by the free and reserve loops are whole pages: first and last frame times 4096 are the rounded, clipped ends |
| `FrameModel.PagesConserved` | kernel/core/pmm.c:64-84 | every whole page of a usable region that begins inside the machine is freed or counted as ignored |
| `FrameModel.FreeRangeEffect` | kernel/core/pmm.c:35-84 | marking a range free frees exactly the frames of the range and keeps every free frame at or above the hint |
| `FrameModel.UseRangeEffect` | kernel/core/pmm.c:51-109 | marking a range used takes exactly the frames of the range, leaves the hint where it was and never raises the free count |
| `FrameModel.InitFramesEffect` | kernel/core/pmm.c:127-175 | whatever the order or overlap of the regions, a frame ends free iff it is not frame 0, some usable span opens it and no other span closes it |
| `FrameModel.RepresentableMapHonoured` | kernel/core/pmm.c:127-175 | if every region is representable, a frame is free iff it is non-zero, wholly inside some usable region and touched by no non-usable one |
| `FrameModel.MapHonouredIff` | kernel/core/pmm.c:11-13 | a region is representable iff every otherwise representable map that contains it is honoured |
| `FrameModel.HonouredIffMasked` | kernel/core/pmm.c:64-175 | any map at all is honoured iff at every frame but 0 a representable reserved region closes it, or its dropped reserved regions have nothing to close, or its wrapping and cut-off usable regions are masked or cancel |
| `FrameModel.LastPageWrapsToZero` | kernel/core/pmm.c:11-13 | a 50-byte usable region in the last page of the address space opens every frame but 0 although none should be free |
| `FrameModel.AllocIsLowestFree` | kernel/core/pmm.c:177-196 | allocation returns the lowest free frame, never frame 0, marks exactly that frame and moves the hint past it; it fails exactly when none is free, and its second scan never succeeds |
| `FrameModel.FreeEffect` | kernel/core/pmm.c:198-211 | a free is accepted exactly for the page address of a used frame other than 0; it frees that frame and no other and lowers the hint to it; anything else changes nothing |
| `FrameModel.AllocThenFree` | kernel/core/pmm.c:177-211 | freeing the frame just allocated is accepted, restores the bitmap and points the hint at the lowest free frame |
| `FrameModel.StepKeepsInv` | kernel/core/pmm.c:177-219 | every operation keeps frame 0 used and no free frame below the hint |
| `FrameModel.Run` | kernel/core/pmm.c:127-219 | in every state reached by booting on any map and running any operations, frame 0 is used and no free frame lies below the hint |
| `FrameModel.ReservesIff` | kernel/core/pmm.c:86-109 | reserving a range takes exactly the frames it touches iff its rounding does not overflow inside the machine or every touched frame was used already |
| `FrameModel.ReserveAllTakesNothing` | kernel/core/pmm.c:86-95 | reserving from 0 to the last byte of the address space touches every frame and takes none |
| `FrameAllocator.Allocator.Test` | kernel/core/pmm.c:31-33 | the bit of a frame in the byte bitmap says whether the frame is used |
| `FrameAllocator.Allocator.BitmapSet` | kernel/core/pmm.c:23-25 | sets one frame's bit and no other frame's |
| `FrameAllocator.Allocator.BitmapClear` | kernel/core/pmm.c:27-29 | clears one frame's bit and no other frame's |
| `FrameAllocator.Allocator.MarkFrameFree` | kernel/core/pmm.c:35-49 | frees one frame, lowers the hint to it, and keeps both counters equal to the bitmap's counts |
| `FrameAllocator.Allocator.MarkFrameUsed` | kernel/core/pmm.c:51-62 | takes one frame and keeps both counters equal to the bitmap's counts |
| `FrameAllocator.Allocator.ClipEnd` | kernel/core/pmm.c:77-80 | clips a usable range to the machine and counts the whole pages beyond it |
| `FrameAllocator.Allocator.MarkRangeFree` | kernel/core/pmm.c:64-84 | the loop over addresses frees exactly the span of the region and counts the ignored pages |
| `FrameAllocator.Allocator.MarkRangeUsed` | kernel/core/pmm.c:86-109 | the loop over addresses takes exactly the span of the region and counts as reserved, in 64 bits, the frames that were free |
| `FrameAllocator.Allocator.InitFromMap` | kernel/core/pmm.c:127-175 | refuses bad arguments without change, else reaches the modelled initial state with exact counters |
| `FrameAllocator.Allocator.AllocFrame` | kernel/core/pmm.c:177-196 | the two scanning loops return what the model allocates; counters stay exact and the invariant stays |
| `FrameAllocator.Allocator.FreeFrame` | kernel/core/pmm.c:198-211 | accepts exactly aligned, non-zero, used frames of the machine, frees that one and keeps the invariant |
| `FrameAllocator.Allocator.ReserveRange` | kernel/core/pmm.c:213-219 | refuses an empty range, else takes the frames of the rounded, clipped span the model gives (`FrameModel.ReservesIff` says when those are the touched ones) and keeps the invariant |
| `PageModel.IndicesDetermineAddress` | kernel/core/vmm.c:13-22 | canonical page addresses with the same four 9-bit indices are equal |
| `PageModel.TableEntryBits` | kernel/core/vmm.c:31-64 | the entry written for a table is present, not huge, and gives back the table's address below 2^52 |
| `PageModel.LeafEntryBits` | kernel/core/vmm.c:83-110 | the entry written for a page is present, not huge, and gives back the masked address and allowed flags |
| `PageProofs.QueryIsLeaf` | kernel/core/vmm.c:112-136 | on a tree of tables query returns the leaf entry on the address's own path |
| `PageProofs.GetOrAllocOnlyLinks` | kernel/core/vmm.c:31-64 | one level of table allocation keeps the tree and every translation, and uses at most one frame |
| `PageProofs.ReachOnlyLinks` | kernel/core/vmm.c:83-110 | reaching the last level keeps the tree and every translation even when it fails half way, using at most three frames |
| `PageProofs.MapTakesInOrder` | kernel/core/vmm.c:31-64 | frames are taken from the allocator in order, at most three, and only unreachable ones are given back |
| `PageProofs.MapKeepsTree` | kernel/core/vmm.c:83-110 | map keeps the tables a tree: each table is reached along one path only; new tables come from the frames taken |
| `PageProofs.MapEffect` | kernel/core/vmm.c:83-110 | map fails with EXISTS exactly on mapped pages, succeeds whenever three usable frames are at hand, changes that one translation iff it succeeds |
| `PageProofs.MapFailure` | kernel/core/vmm.c:31-64 | with good arguments NO_MEMORY means no frame came or the last one drawn was invalid or unaligned, and gives nothing back; INVALID means the last one drawn cannot be reached, and gives exactly that one back; otherwise nothing is given back |
| `PageProofs.UnmapEffect` | kernel/core/vmm.c:138-161 | unmap succeeds exactly on mapped pages, removes that one translation and changes no other |
| `PageBits.MappedBits` | kernel/core/vmm.c:83-136 | after a map that succeeds, bit k of the flags query returns is set iff k is 0, or k is 1, 2, 3, 4, 8 or 63 and bit k was given; bit k of the address iff 12 <= k < 52 and bit k was given |
| `PageBits.LeafFlagsBits` | kernel/core/vmm.c:106-108 | WRITABLE, USER, WRITE_THROUGH, CACHE_DISABLE, GLOBAL and NO_EXECUTE each stay in their place, PRESENT is set and every other flag is dropped |
| `PageBits.TableEntryFlags` | kernel/core/vmm.c:61 | the entry of a table has bits 0 and 1 and bits 12 to 51 of the table's address, and no other |
| `PageBits.EntryTests` | kernel/core/vmm.c:33-34 | an entry is present by bit 0 and huge by bit 7 |
| `PageBits.AddrBitsBits` | kernel/core/vmm.c:37 | the address mask keeps exactly bits 12 to 51 |
| `PageBits.OtherBitsBits` | kernel/core/vmm.c:134 | the complement of the mask keeps exactly the other bits |
| `PageBits.IndexBits` | kernel/core/vmm.c:19-22 | bit j of the four indices is bit 39 + j, 30 + j, 21 + j and 12 + j of the address |
| `PageBits.CanonicalIff` | kernel/core/vmm.c:13-17 | an address is canonical iff its bits 47 to 63 are all alike |
| `PageBits.AlignedIff` | kernel/core/vmm.c:9-11 | an address is page aligned iff its bits 0 to 11 are clear |
| `PageRuns.StepAgrees` | kernel/core/vmm.c:83-161 | each call agrees with the flat map in status and in every later query |
| `PageRuns.RunAgrees` | kernel/core/vmm.c:31-161 | from a zeroed root, after any run of map and unmap calls, query agrees with the flat map at every address |
| `PageRuns.MappedAddressIff` | kernel/core/vmm.c:83-136 | query returns the physical address that was mapped iff it is below 2^52 |
| `PageRuns.HighAddressTruncated` | kernel/core/vmm.c:83-136 | page 0 mapped to physical 2^52 in a machine of four frames succeeds and is found at physical 0 |
| `PageRuns.MapThenUnmap` | kernel/core/vmm.c:83-161 | unmapping what was just mapped restores every translation |
| `PageRuns.OneParentEntry` | kernel/core/vmm.c:31-64 | every table but the root is referenced by exactly one entry, the root by none |
| `AddressSpace.VmmSpace.Init` | kernel/core/vmm.c:66-81 | sets the root exactly when it is page aligned |
| `AddressSpace.VmmSpace.ZeroPage` | kernel/core/vmm.c:3-7 | the loop zeroes all 512 entries of one table and no other |
| `AddressSpace.VmmSpace.GetOrAllocNextTable` | kernel/core/vmm.c:31-64 | does to the tables and the allocator what the model does, for every branch and error |
| `AddressSpace.VmmSpace.MapPage` | kernel/core/vmm.c:83-110 | status and new memory are the model's |
| `AddressSpace.VmmSpace.QueryPage` | kernel/core/vmm.c:112-136 | the four levels read one after another return what the model's query returns |
| `AddressSpace.VmmSpace.UnmapPage` | kernel/core/vmm.c:138-161 | status and new memory are the model's |
| `KernelMemory.AnswersDistinct` | kernel/core/pmm.c:177-196 | consecutive allocations never return the same frame |
| `KernelMemory.AllocReturnsNeither` | kernel/core/kmain.c:60-75 | an allocation returns neither a page table nor a frame still held by a caller |
| `KernelMemory.StepKeepsInv` | kernel/core/kmain.c:60-75 | every map, unmap, allocation, reservation, and every free or write of a frame the caller holds, keeps the table frames used, non-zero, distinct and nobody else's |
| `KernelMemory.WriteStep` | kernel/core/kmain.c:72-75 | whatever a caller writes to a frame it holds, the tables and every translation stay |
| `KernelMemory.FreeKeepsIff` | kernel/core/pmm.c:198-211 | freeing an address keeps the invariant iff it is not a page table |
| `KernelMemory.FreedRootReturns` | kernel/core/kmain.c:166-196 | free the root of any freshly booted kernel and the next allocation returns it while it is still the root |
| `KernelMemory.BootInv` | kernel/core/kmain.c:166-196 | the freshly booted address space satisfies the invariant |
| `KernelMemory.Run` | kernel/core/kmain.c:60-75 | in every run whose callers free and write only what they were given, tables stay tables and no allocation returns one |
| `KernelMemory.BootRunAgrees` | kernel/core/kmain.c:60-75 | from boot, in every such run on the real allocator, query agrees with the flat map at every address, with no assumption on the frames handed out |
| `HeapModel.BlocksDisjoint` | kernel/mm/kmem.c:54-77 | any two blocks, header and payload, are disjoint |
| `HeapModel.LivePayloads` | kernel/mm/kmem.c:123-137 | live payloads are 16-aligned, inside the heap, and disjoint from each other and from every header |
| `HeapModel.ChosenIsLowest` | kernel/mm/kmem.c:123-137 | allocation picks the lowest-address fitting block and fails exactly on a zero or overflowing request or when nothing fits |
| `HeapModel.TakeEffect` | kernel/mm/kmem.c:54-77 | taking a block keeps the tiling, adds exactly its payload to the live ones and gives at least the rounded request |
| `HeapModel.FreeAtClosed` | kernel/mm/kmem.c:79-96 | freeing a block fuses it with exactly those of its two neighbours that are free |
| `HeapModel.FreeEffect` | kernel/mm/kmem.c:147-159 | freeing keeps the tiling and removes exactly that payload from the live ones |
| `HeapModel.AllocThenFree` | kernel/mm/kmem.c:123-159 | an allocation freed at once restores the exact earlier block list |
| `HeapModel.FreeAllInAnyOrder` | kernel/mm/kmem.c:147-159 | freeing all live pointers in any order leaves the single initial free block |
| `HeapModel.BytesConserved` | kernel/mm/kmem.c:161-181 | total bytes are used bytes plus free bytes plus 48 per block |
| `HeapModel.UsedIsLive` | kernel/mm/kmem.c:161-181 | the used bytes are the sizes of the live payloads added up |
| `HeapModel.StepKeepsInv` | kernel/mm/kmem.c:123-159 | every allocation and free, of any pointer, keeps the exact tiling without free neighbours |
| `HeapModel.Run` | kernel/mm/kmem.c:98-159 | in every run from a fresh heap the blocks tile it exactly, sizes are positive multiples of 16, and no two neighbours are free |
| `HeapLinks.SplitRepresents` | kernel/mm/kmem.c:67-76 | the header writes of a split leave exactly the doubly linked list of the split blocks |
| `HeapLinks.MergeRepresents` | kernel/mm/kmem.c:87-94 | the header writes of a merge leave exactly the doubly linked list of the merged blocks, and no other header intact |
| `KernelHeap.Kmem.SplitIfUseful` | kernel/mm/kmem.c:54-77 | splits exactly when more than a header and 32 bytes remain |
| `KernelHeap.Kmem.CoalesceForward` | kernel/mm/kmem.c:79-96 | the loop absorbs all free blocks that follow |
| `KernelHeap.Kmem.Init` | kernel/mm/kmem.c:98-121 | succeeds exactly on a non-null arena with at least 96 aligned bytes, lays one free block over it from the first multiple of 16, and answers -1, -3 or -4 otherwise |
| `KernelHeap.Kmem.Alloc` | kernel/mm/kmem.c:123-137 | returns the payload of the block the model chooses, or null, and leaves the model's block list |
| `KernelHeap.Kmem.Calloc` | kernel/mm/kmem.c:139-145 | fails exactly as allocation does or on an overflowing product; zeroes exactly the requested bytes, all inside one live payload |
| `KernelHeap.ProductFits` | kernel/mm/kmem.c:140 | the division test detects exactly the products that do not fit 64 bits |
| `HeapModel.AllocGives` | kernel/mm/kmem.c:123-137 | a successful allocation yields a live payload at the chosen block, at least as large as asked for |
| `HeapModel.AllocExact` | kernel/mm/kmem.c:54-77 | a successful allocation adds exactly one live payload: the request rounded up to 16 when more than 80 bytes would remain, else the whole block |
| `KernelHeap.Kmem.FreeChecked` | kernel/mm/kmem.c:147-159 | frees exactly live pointers and refuses every other pointer with its own code and no change; in a heap of at most 64 MiB freeing a live pointer returns 0 |
| `KernelHeap.Kmem.GetStats` | kernel/mm/kmem.c:161-181 | the six counters are those of the block list, used bytes are those of the live payloads, and conservation holds among them |
| `KernelHeap.ChainForced` | kernel/mm/kmem.c:183-206 | the chain of headers from the head is determined, so a walk cannot miss it |
| `KernelHeap.AcceptedIff` | kernel/mm/kmem.c:183-206 | a heap whose headers represent a block list is accepted iff it has at most 1048576 blocks |
| `KernelHeap.Kmem.Validate` | kernel/mm/kmem.c:183-206 | on any headers at all, returns 0 exactly when they form a null-terminated chain of at most 1048576 adjacent, doubly linked nodes from the base and inside the arena; any other answer is the first fault of the first header that has one |
| `KernelHeap.ChainTilesIff` | kernel/mm/kmem.c:192-205 | an accepted chain covers every address of the arena exactly once iff its last node ends at the arena's end |
| `KernelHeap.ShortChainAccepted` | kernel/mm/kmem.c:192-205 | one 16-byte block at the start of a 4080-byte arena is accepted and does not tile it |
| `KernelHeap.Kmem.ValidIsAccepted` | kernel/mm/kmem.c:183-206 | every sound heap of at most 64 MiB is accepted, and its chain tiles the arena |
| `KernelHeap.GuardNeverFires` | kernel/mm/kmem.c:193 | a heap of at most 64 MiB never has more than 1048576 blocks |
| `SchedModel.EnqueueKeepsInv` | kernel/mcsos_thread.c:92-111 | enqueueing a thread that is not queued keeps the partition of the threads |
| `SchedModel.YieldKeepsInv` | kernel/mcsos_thread.c:124-145 | yield keeps the partition: one running thread besides idle, queued exactly when ready |
| `SchedModel.BlockKeepsInv` | kernel/mcsos_thread.c:155-161 | blocking keeps the partition |
| `SchedModel.StepKeepsInv` | kernel/mcsos_thread.c:92-168 | every legal operation keeps the partition |
| `SchedModel.Run` | kernel/mcsos_thread.c:92-168 | in every legal run each thread but idle is exactly one of current, queued, blocked or new; idle is never queued; the queue has no duplicates |
| `SchedModel.YieldEffect` | kernel/mcsos_thread.c:113-145 | a yield runs the head of the queue, or idle when nobody waits; the thread that ran, unless idle, becomes ready and last; one switch is counted by the scheduler and both threads, modulo 2^64, exactly when the current thread changes |
| `SchedModel.BlockEffect` | kernel/mcsos_thread.c:155-161 | idle is refused with ESTATE and nothing changes; any other thread becomes blocked, is not queued, and leaves the processor to the head of the queue or to idle |
| `SchedModel.WakeEffect` | kernel/mcsos_thread.c:92-111 | enqueue puts exactly new and blocked threads last in the queue, mark-ready exactly blocked ones; otherwise the answer is ESTATE and nothing changes |
| `SchedModel.PreparedEffect` | kernel/mcsos_thread.c:57-90 | a prepared thread has no switches, is not queued, can be enqueued and cannot be marked ready; nothing else changes |
| `SchedModel.RunBalanced` | kernel/mcsos_thread.c:136-140 | in every run the threads' switch counts add up to twice the scheduler's, modulo 2^64 |
| `SchedModel.RunExact` | kernel/mcsos_thread.c:136-140 | in every run too short to wrap a counter the sum is exactly twice `context_switches` |
| `SchedModel.StepMovesUp` | kernel/mcsos_thread.c:113-145 | a dispatch moves every waiting thread up by one; anything else leaves it in place |
| `SchedModel.BoundedWaiting` | kernel/mcsos_thread.c:92-168 | the thread at position k stays queued, at position k minus m, through the first m dispatches, for every m up to k, whatever happens in between |
| `SchedModel.DispatchedAtLast` | kernel/mcsos_thread.c:92-168 | the dispatch after those k makes it current |
| `Scheduler.SchedulerState.constructor` | kernel/mcsos_thread.c:28-55 | the boot thread runs and is idle |
| `Scheduler.SchedulerState.Append` | kernel/mcsos_thread.c:92-111 | what enqueue writes on any list at all, and its refusals |
| `Scheduler.SchedulerState.Enqueue` | kernel/mcsos_thread.c:92-111 | the linked queue becomes the model's queue with the thread at its end |
| `Scheduler.SchedulerState.PickNext` | kernel/mcsos_thread.c:113-122 | unlinks the head of the queue, or offers idle |
| `Scheduler.SchedulerState.YieldCore` | kernel/mcsos_thread.c:124-145 | the code's whole yield, including its corrupt and invalid exits, against the model |
| `Scheduler.SchedulerState.Yield` | kernel/mcsos_thread.c:124-145 | on a valid scheduler yield always succeeds and does what the model does |
| `Scheduler.SchedulerState.BlockCurrent` | kernel/mcsos_thread.c:155-161 | refused for idle, else blocks and yields as the model does |
| `Scheduler.SchedulerState.MarkReady` | kernel/mcsos_thread.c:163-168 | wakes exactly blocked threads |
| `Scheduler.SchedulerState.Tick` | kernel/mcsos_thread.c:147-153 | counts one tick and schedules nothing |
| `Scheduler.SchedulerState.Prepare` | kernel/mcsos_thread.c:73-89 | a thread object not known before becomes new, unlinked, counted from zero |
| `Scheduler.SchedulerState.ReadyCount` | kernel/mcsos_thread.c:170-176 | the walk counts the queue |
| `Scheduler.ListForced` | kernel/mcsos_thread.c:178-196 | any linked walk from the head is a prefix of the list |
| `Scheduler.SchedulerState.Validate` | kernel/mcsos_thread.c:178-196 | terminates on every heap, cyclic lists included; OK exactly when the list is finite, all ready and intact, excludes current, ends at the tail and has the recorded length |
| `Scheduler.SchedulerState.ValidIsAccepted` | kernel/mcsos_thread.c:178-196 | every valid scheduler is accepted |
| `Scheduler.SchedulerState.EnqueueQueued` | kernel/mcsos_thread.c:92-111 | enqueueing a queued thread succeeds and always leaves a list the validator rejects |
| `Mutex.StepKeepsInv` | kernel/sync/mutex.c:13-39 | every atomic step of any thread keeps one holder, the lock bit and the owner field consistent |
| `Mutex.Run` | kernel/sync/mutex.c:13-39 | under every interleaving at most one thread holds the mutex and a non-zero owner is the true holder with the lock bit set |
| `Mutex.WholeCall` | kernel/sync/mutex.c:13-39 | every whole call under every interleaving, by the call made and its answer: EINVAL iff id 0; only OK has changed the mutex; try-lock answers EDEADLK iff the caller held it when it called, OK leaves the caller holder and owner, EBUSY means another held it during the call; unlock answers OK iff the caller held it when it called, and then nobody holds it, else EPERM |
| `Mutex.HeldUntilUnlocked` | kernel/sync/mutex.c:28-39 | a holder stays the holder until its own unlock answers OK |
| `Mutex.CallEnds` | kernel/sync/mutex.c:13-39 | a call that has not returned has taken at most three steps of its thread, whatever the others do |
| `Mutex.TryLockOutcome` | kernel/sync/mutex.c:17-23 | a failed try-lock answers EDEADLK exactly to the thread that held the mutex when it called, else EBUSY |
| `Mutex.TryLockWins` | kernel/sync/mutex.c:17-26 | an exchange on a free mutex makes the caller its only holder and the call returns OK |
| `Mutex.UnlockOutcome` | kernel/sync/mutex.c:28-35 | unlock by a non-holder answers EPERM and changes nothing; by the holder it goes on to release |
| `Mutex.ReleaseFrees` | kernel/sync/mutex.c:36-38 | after the two stores of the release nobody holds the mutex |
| `Lockdep.AcceptedIff` | kernel/sync/lockdep.c:27-52 | on an increasing stack a class is accepted, and pushed, iff it is valid, there is room and it lies above everything held; EINVAL iff class 0, EOVERFLOW iff no room, and a refusal changes nothing |
| `Lockdep.ReleaseUndoesAcquire` | kernel/sync/lockdep.c:54-72 | release undoes the last acquire and refuses any other class with EDEADLK, class 0 with EINVAL and an empty stack with EPERM |
| `Lockdep.LockdepState.Init` | kernel/sync/lockdep.c:3-13 | clears the stack and the counter |
| `Lockdep.LockdepState.IsHeld` | kernel/sync/lockdep.c:15-25 | the loop finds exactly the classes on the stack |
| `Lockdep.LockdepState.BeforeAcquireLock` | kernel/sync/lockdep.c:27-52 | the array and depth become the model's stack, which stays increasing; every refusal of a valid class is counted |
| `Lockdep.LockdepState.AfterReleaseLock` | kernel/sync/lockdep.c:54-72 | the array and depth become the model's stack, which stays increasing; every refusal of a valid class is counted |
| `Deadlock.RunKeepsInv` | kernel/core/kmain.c:404-414 | in every run of any threads bracketing spinlocks with lockdep, each stack increases and covers the locks held |
| `Deadlock.WaitsAbove` | kernel/sync/lockdep.c:35-47 | whoever waits for a waiting thread wants a lower class than that thread does |
| `Deadlock.NoWaitCycle` | kernel/sync/spinlock.c:20-41 | no reachable state has a wait-for cycle of any length |
| `Deadlock.AlwaysSomeoneUnblocked` | kernel/sync/spinlock.c:28-34 | in every reachable state with no stopped thread some thread is not waiting or waits for a free lock |
| `Deadlock.StuckIff` | kernel/core/kmain.c:404-414 | no thread can get on iff every thread has stopped or waits, through a chain of holders, for one that has |
| `Deadlock.StuckStays` | kernel/sync/spinlock.c:28-34 | a stuck state stays stuck: no step changes a lock word or frees anybody |
| `Deadlock.StoppedHolderSticks` | kernel/core/kmain.c:404-406 | a reachable stuck state: a thread stopped at a refused acquire while another spins on the lock it holds |
| `Deadlock.WindUpIff` | kernel/core/kmain.c:404-414 | a run whose callers release only the top class they hold can go on, bracketed the same way, until every thread is outside every lock and every word is clear, iff no thread has stopped |
| `Deadlock.NestedIsLegal` | kernel/core/kmain.c:404-414 | a run whose callers release only the top class they hold never releases a lock another thread is inside, so mutual exclusion holds in it |
| `Deadlock.MutualExclusion` | kernel/sync/spinlock.c:20-41 | in every run in which nobody releases a lock another thread is inside, at most one thread is between its acquire and its release of each lock, and the word is set exactly then |
| `Deadlock.ReleaseAgreesIff` | kernel/sync/spinlock.c:36-41 | a release keeps the words and the threads inside in step iff no other thread is inside that lock |
| `Deadlock.ForeignReleaseBreaks` | kernel/sync/spinlock.c:36-41 | a run in which a foreign release lets two threads inside one lock |
| `PathModel.FindChildIff` | kernel/vfs/ramfs.c:41-53 | the first child with that name is found, ENOENT means there is none, and EINVAL exactly that the name is empty or longer than 31 |
| `PathModel.SegEnd` | kernel/vfs/ramfs.c:76-80 | the scan stops at the first slash or at the end |
| `PathModel.LookupIsSplitThenFind` | kernel/vfs/ramfs.c:55-99 | lookup and the parent/leaf splitter agree on every path but the root's: same node, same error |
| `PathModel.SplitIff` | kernel/vfs/ramfs.c:55-99 | a path splits at a directory and a leaf iff it is that directory's path and that leaf, and is short enough |
| `PathModel.ResolvesIff` | kernel/vfs/ramfs.c:159-203 | a path resolves to a node iff it is the node's own path and is shorter than 128 |
| `PathModel.LookupFault` | kernel/vfs/ramfs.c:159-203 | exactly why a lookup fails: EINVAL without a leading slash, ENAMETOOLONG from 128 characters on, else by the segment after the directory the path reads as far as: EINVAL for no name, ENOENT for no such child, ENOTDIR for a file though the path goes on |
| `PathModel.SplitFault` | kernel/vfs/ramfs.c:55-99 | exactly why a split fails: the same faults before the last segment, and EINVAL for the root alone |
| `PathModel.DistinctPathsDistinctNodes` | kernel/vfs/ramfs.c:159-203 | distinct paths that resolve do so to distinct nodes |
| `PathModel.AddKeepsTree` | kernel/vfs/ramfs.c:101-129 | a node added where lookup found nothing keeps the tree and sibling names unique |
| `PathModel.AddResolvesOneMore` | kernel/vfs/ramfs.c:101-129 | adding a node makes exactly one more path resolve, to that node, and every other path keeps its node |
| `VfsModel.CreateEffect` | kernel/vfs/ramfs.c:205-230 | creating keeps extents disjoint and touches no existing file; the path then resolves to the result and at most that one path is new; a new file is empty, has the next 256 bytes of the store, and the store's use grows by 256 |
| `VfsModel.CreateIff` | kernel/vfs/ramfs.c:205-230 | creating succeeds iff the path names a file, or names nothing, splits at a directory and there is room for a node and an extent |
| `VfsModel.CreateFault` | kernel/vfs/ramfs.c:205-230 | creating fails with EISDIR on a directory, with the splitter's error, or else with ENOSPC |
| `VfsModel.ThirtyTwoFiles` | kernel/vfs/ramfs.c:101-129 | with files of 256 bytes packed in the store, creating a new one fails with ENOSPC exactly when there are 32; the node table never fills up |
| `VfsModel.StoreEffect` | kernel/vfs/fd.c:172-176 | bytes stored in a file's extent change exactly those bytes, and no byte or size of any other file |
| `VfsModel.SeedEffect` | kernel/vfs/ramfs.c:232-248 | a seeded file holds exactly the bytes given; no other file changes |
| `VfsModel.SeedIff` | kernel/vfs/ramfs.c:232-248 | seeding succeeds iff the file is there or can be created and the bytes fit its capacity, 256 for a new file; it fails with create's error or ENOSPC and then leaves what create leaves |
| `DescModel.OpenEffect` | kernel/vfs/fd.c:69-111 | open takes the lowest free descriptor for the node the path names, with the mode given (read-only when it names none), at the end when appending and else at the start; it changes a file only by truncating that one to size 0, and leaves open descriptors alone |
| `DescModel.OpenIff` | kernel/vfs/fd.c:69-111 | exactly when open returns a descriptor |
| `DescModel.OpenFault` | kernel/vfs/fd.c:69-111 | the error code of every refused open, in the order of the tests |
| `DescModel.FirstWrite` | kernel/vfs/fd.c:143-178 | the first write to a file open has just created succeeds iff it has at most 256 bytes, else answers ENOSPC |
| `DescModel.AccessIff` | kernel/vfs/fd.c:113-178 | exactly when read and write succeed |
| `DescModel.AccessFault` | kernel/vfs/fd.c:113-178 | the error code of every refused read and write, by descriptor, mode bits, kind of node and room |
| `DescModel.ReadEffect` | kernel/vfs/fd.c:113-141 | read returns the file's content from the offset, as much as asked for or as there is, and moves only that offset |
| `DescModel.WriteEffect` | kernel/vfs/fd.c:143-178 | write puts the whole buffer at the offset (the end, when appending), raises the size to the larger end and touches no other file; a refused write changes no file, and nothing at all unless it appends, which moves its offset to the end |
| `DescModel.WriteSeekRead` | kernel/vfs/fd.c:113-206 | what was written is read back after seeking back over it |
| `DescModel.WriteThroughDuplicate` | kernel/vfs/fd.c:221-237 | a duplicate has its own offset: what is written through it is read next through the original |
| `DescModel.SeekEffect` | kernel/vfs/fd.c:180-206 | a seek from the start, the offset or the end of what can be read to a position at or above 0 lands there and answers the low 32 bits as a signed int, which is the position iff that is below 2^31; any other is refused with EBADF, EISDIR or EINVAL and moves nothing |
| `DescModel.FarSeekLooksRefused` | kernel/vfs/fd.c:204-205 | on any open file a seek to 2^32 - 9 moves the offset there and answers the code for a bad descriptor |
| `DescModel.CloseKeeps` | kernel/vfs/fd.c:208-219 | close answers 0 exactly for an open descriptor and frees that one only; else EBADF |
| `DescModel.DupKeeps` | kernel/vfs/fd.c:221-237 | duplicating succeeds iff the descriptor is open and a slot is free, and copies it into the lowest free slot; else EBADF or ENFILE and nothing changes |
| `DescModel.StepLeaves` | kernel/vfs/fd.c:69-237 | every operation keeps the invariant, all names, every file it is not aimed at and every open descriptor it is not given |
| `DescModel.Run` | kernel/vfs/fd.c:69-237 | in every run extents are disjoint inside the store, sizes fit capacities, and used descriptors refer to live nodes |
| `DescModel.BootRun` | kernel/vfs/ramfs.c:131-157 | the same from the state initialisation leaves; the files have taken the store in order, 256 bytes each, and are never more than 32 |
| `DescModel.RunIsolates` | kernel/vfs/fd.c:69-237 | over a whole run a file that no operation was aimed at keeps its name, size and every byte |
| `DescModel.RunKeepsPaths` | kernel/vfs/ramfs.c:159-248 | over a whole run a path that resolves goes on resolving to the same node |
| `DescModel.RunKeepsDescriptor` | kernel/vfs/fd.c:69-237 | over a whole run an open descriptor that no operation was given keeps its file, mode and offset |
| `RamFs.SameName` | kernel/vfs/ramfs.c:14-22 | the comparing loop accepts exactly the equal names |
| `RamFs.Ramfs.Init` | kernel/vfs/ramfs.c:131-157 | from any state, the loops leave an empty root directory and a zeroed store |
| `RamFs.Ramfs.FindChild` | kernel/vfs/ramfs.c:41-53 | the loop returns what the model's search returns |
| `RamFs.Ramfs.SplitParentLeaf` | kernel/vfs/ramfs.c:55-99 | the nested scanning loops return the model's split, for every path and error |
| `RamFs.Ramfs.Lookup` | kernel/vfs/ramfs.c:159-203 | the nested scanning loops return the model's lookup, for every path and error |
| `RamFs.Ramfs.AllocNode` | kernel/vfs/ramfs.c:101-129 | the node table and store usage become the model's |
| `RamFs.Ramfs.CreateFile` | kernel/vfs/ramfs.c:205-230 | result and new state are the model's |
| `RamFs.Ramfs.CopyBytes` | kernel/vfs/ramfs.c:24-29 | the loop overwrites exactly the target range |
| `RamFs.Ramfs.SeedFile` | kernel/vfs/ramfs.c:232-248 | result and new state are the model's |
| `FdTable.Files.Init` | kernel/vfs/fd.c:31-43 | from any table, the loop leaves every descriptor free and the file system as it was |
| `FdTable.Files.FdAlloc` | kernel/vfs/fd.c:55-67 | takes the lowest free slot or answers ENFILE |
| `FdTable.Files.Open` | kernel/vfs/fd.c:69-111 | result and new state are the model's |
| `FdTable.Files.CopyToUser` | kernel/vfs/fd.c:7-13 | the loop fills exactly the first n bytes of the caller's buffer |
| `FdTable.Files.Read` | kernel/vfs/fd.c:113-141 | result, buffer and new state are the model's; the rest of the buffer is untouched |
| `FdTable.Files.Write` | kernel/vfs/fd.c:143-178 | result and new state are the model's |
| `FdTable.Files.Lseek` | kernel/vfs/fd.c:180-206 | result and new state are the model's |
| `FdTable.Files.Close` | kernel/vfs/fd.c:208-219 | result and new state are the model's |
| `FdTable.Files.Dup` | kernel/vfs/fd.c:221-237 | result and new state are the model's |
| `ElfModel.PowerOfTwoIff` | kernel/user/m11_elf_loader.c:12-14 | the bit test accepts exactly the powers of two |
| `ElfModel.UserRangeIff` | kernel/user/m11_elf_loader.c:28-43 | the wrap-around tests accept exactly the non-empty ranges inside the region, over the integers |
| `ElfModel.IdentIff` | kernel/user/m11_elf_loader.c:45-60 | exactly the ELF64 little-endian version 1 identification is accepted |
| `ElfModel.PhdrBoundsIff` | kernel/user/m11_elf_loader.c:62-82 | accepts exactly the non-empty header tables of 56-byte entries that lie in the image |
| `ElfModel.LoadSegmentIff` | kernel/user/m11_elf_loader.c:83-110 | accepts exactly the segments whose file range is in the image, memory range in the region, memory no smaller than file, flags 0, 1, 2, 4, 5 or 6 (not both writable and executable), address congruent to offset modulo a power-of-two alignment |
| `ElfModel.HeaderIff` | kernel/user/m11_elf_loader.c:121-144 | exactly the good headers pass every check before the segments |
| `ElfModel.LoadsAreLoads` | kernel/user/m11_elf_loader.c:148-169 | the planned headers are exactly the PT_LOAD ones of the table |
| `ElfModel.PlanIff` | kernel/user/m11_elf_loader.c:112-174 | an image is accepted iff its header is good and it has one to eight PT_LOAD headers, all loadable |
| `ElfModel.PlanFault` | kernel/user/m11_elf_loader.c:146-173 | which error the walk gives: that of the first PT_LOAD header that may not be loaded, unless eight come before it; ESEGCOUNT for none or more than eight |
| `ElfModel.HeaderFault` | kernel/user/m11_elf_loader.c:121-144 | the header error is that of the first condition that fails, over the integers |
| `ElfModel.IdentFault` | kernel/user/m11_elf_loader.c:45-60 | the identification error is that of the first bad byte |
| `ElfModel.SegmentFault` | kernel/user/m11_elf_loader.c:83-110 | a PT_LOAD header's error is that of the first condition that fails, over the integers |
| `ElfLayout.PhdrRoundTrip` | include/mcsos/user/m11_elf_loader.h:61-70 | at any place in any image a program header is read exactly from its 56 bytes: little-endian type, flags, offset, vaddr, paddr, filesz, memsz, align |
| `ElfLayout.EhdrReads` | include/mcsos/user/m11_elf_loader.h:44-59 | every field the planner looks at reads back from the 64 bytes of a file header |
| `ElfLayout.Field64` | include/mcsos/user/m11_elf_loader.h:44-70 | a 64-bit field reads as v iff the eight little-endian digits of v stand there |
| `ElfLayout.TableReads` | kernel/user/m11_elf_loader.c:145-148 | the planner sees exactly the program header table that was written |
| `ElfLayout.WrittenIff` | kernel/user/m11_elf_loader.c:112-174 | an image written field by field is accepted iff its header says what it must and one to eight of the written PT_LOAD entries are there, all safe to load |
| `ElfLayout.LoadsInOrder` | kernel/user/m11_elf_loader.c:148-169 | the plan lists the PT_LOAD entries in table order, as many as there are |
| `ElfPlanner.ProcessImagePlan.Zero` | kernel/user/m11_elf_loader.c:16-27 | clears the entry, the count and all eight segments |
| `ElfPlanner.ProcessImagePlan.PlanOne` | kernel/user/m11_elf_loader.c:152-168 | appends one loadable header, or clears the plan with the right error |
| `ElfPlanner.ProcessImagePlan.PlanLoad` | kernel/user/m11_elf_loader.c:112-174 | reads only inside the image; on success the plan is exactly the PT_LOAD headers in order, field by field; on every error it has no segment; the entry survives only when nothing was loadable |

## Left out

- Null-pointer arguments of the C functions, except a null thread: references and arrays are not null here.
- Serial port, interrupt controllers, timer, IDT, trap dispatch, logging and panic code: port I/O and diagnostics.
- The context switch, TLB invalidation and control registers: machine code; they change none of the modelled state.
- `kernel/core/kmain.c` beyond the frame adapters, the root table and the lock bracketing: boot wiring.
- The system call layer and the `mcs_sys_*` wrappers: thin checks over the file system that would only add easy members.
- Weak memory orderings: every atomic access is one sequentially consistent step.
- The CPU's combined permissions over page-table levels: the model answers what `vmm_query_page` answers.
- Overlap between ELF segments and the section of the entry point: the planner checks neither.
- Stack arithmetic and refusals of `mcsos_thread_prepare`, and preparing a thread object a second time.
- `held_name` of the lock tracker and the names of locks and threads: never read by the modelled code.
- The `used` and `id` fields of a node: the live nodes are the first `node_count`, and a node's id is its index.
- Several file systems behind one descriptor table: the table here belongs to one file system.
- KernelHeap.Kmem.Init: the arena must end at or below 2^64 - 96, so that no pointer sum of the code wraps, and it starts from an empty header map, whatever bytes the arena held.
- KernelHeap.Kmem.FreeChecked: payload bytes are not read as headers, so bytes that look like a header, forged by a caller or left from an earlier use of the arena, are not represented.
- Scheduler.SchedulerState.Enqueue: requires that the thread is known and not queued; `EnqueueQueued` says what happens otherwise.
- Scheduler.SchedulerState.MarkReady: requires that the thread is one the scheduler knows; a blocked object it never prepared is not represented.
- Scheduler.SchedulerState.Prepare: requires a thread object not prepared before; preparing a known one again would reset its state under the queue.
- DescModel.SeekEffect: the sum of base and offset is exact; overflow of a C `long` is undefined in the source and not represented.
