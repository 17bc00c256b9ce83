# ParanukOS core, verified

A Dafny model of the machine-independent core of ParanukOS, and of the glue that joins it at boot and
in interrupts, with proofs about all inputs and all runs.

| part | files | what is proved |
|---|---|---|
| kernel heap | `FreeSpace`, `HeapModel`, `HeapHeaders`, `KernelHeap`, `HeapRuns` | a first-fit free list whose 24-byte headers live in the managed bytes refines a set of free and live blocks that tile the arena; an allocation takes no more than its layout needs; `dealloc` undoes `alloc` exactly; freeing everything, in any order, leaves one block; what `dealloc` accepts is characterised for every offset; over every run of requests and payload writes, what a caller wrote stays while its block is live |
| page tables | `PageEntries`, `Mmu`, `PagingModel`, `Paging` | the bytes written by the builder translate, under a four-level walk, exactly as the memory map and the configuration ask, by bytes: what holds RAM is mapped and nothing else; `mapped_bytes` is the size of what translates |
| user region | `UserMapModel`, `UserMap` | user mode reaches exactly the mappings, each page through the last mapping that covers it; every kernel address translates as before; a refused request changes no translation |
| frame allocator | `Bitmap`, `FrameModel`, `FrameAllocator` | two bitmaps and a counter refine a fixed set of frames, parted into free and issued; ranges handed out never overlap over any run, whether they come back whole or frame by frame |
| kernel memory | `BootMemory` | every frame that can ever be handed out is mapped to itself, kernel-only and writable, and holds nothing the kernel owns |
| scheduler | `SchedModel`, `SchedRuns`, `Scheduler` | the ring-buffer scheduler keeps its invariant on every legal run; no starvation; round-robin fairness; who exits does not run again; what the other runs still keep |
| context switch | `SwitchModel`, `SwitchRuns`, `ContextSwitch` | in every reachable state, whatever frames other code takes and gives back, each thread stands on its own stack, stacks are disjoint issued frames, reaping never frees the stack in use; a thread goes on from the frame it was interrupted with |
| locks | `LockModel`, `SpinLock`, `LockedSwitch` | over every interleaving on one core: a held lock keeps interrupts off, `lock()` never waits, no switch under a lock, leaving restores the interrupt flag; run together with the threads, the running one changes only when nothing is locked |
| image loader | `Image`, `Loader`, `ElfLayout` | a file laid out from a list of program headers reads back as its loadable ones; each covering page is requested exactly once, nothing else is written, every segment's bytes stand in memory after all segments are loaded, and a second image does not damage the first |
| user image | `UserSpace` | after loading and mapping, a user read of any linked address gives the byte the file prescribes; the physical bytes user mode can reach are exactly its stack's frames and what the stack leaves uncovered of the image's hull |
| boot | `Isolation`, `BootFlow` | all of it in one physical memory, the page tables inside the kernel image: both images survive, the machine invariant holds, and exactly when user mode reaches a byte of the kernel image or a frame of the heap or of a thread's stack; what is enough for all of it to come up |

`Wrappers`, `Arithmetic`, `LittleEndian` and `MemoryMap` hold what these share. State that the source
changes in place is a class or an array here; each method is tied to a function or predicate over values,
and the theorems are about those. `usize` and `u64` limits are written out where the code can reach them.

Assumptions taken from the surroundings, each visible as a precondition:

* arenas are below 2^63 bytes and physical addresses below 2^52;
* conventional regions of the memory map are page-aligned and do not overlap (UEFI Specification, section 7.2);
* heap callers write only inside their own payloads;
* a thread stays inside the stack it is on, and nobody gives back frames of a thread's stack; guards are dropped innermost first and, in lock runs, no lock is taken twice;
* an exit happens only where another thread or the idle thread can take over;
* `vaddr + size` of a user mapping does not overflow, and page-rounded segment ends fit in 64 bits;
* the table arena lies in one segment of the kernel image, as a static variable does, and the boot stack is not empty.

## Where code and documentation differ

The model follows the code. Where a promise fails on some inputs, the lemmas named give the exact condition and, last, an
input; the last two entries hold of every input.

* `register_boot` documents an error on repeated registration and returns none. It is harmless exactly for the running
  thread that is not idle: `SchedModel.RegisterBootAgain`, `SchedModel.IdleQueued`; `SchedModel.FailsAtBoot` at id 1.
* A failed `exit_current` leaves nobody running, and an exiting idle thread can be chosen again:
  `SchedModel.ExitSafeIff`; `SchedModel.FailsAtBoot` right after boot. Exactly then the next interrupt gives the stack in
  use back: `SwitchRuns.RefusedExit`.
* `exit_current` documents that it marks the caller exited. Where it is safe, it stays so exactly if it is not idle, which
  goes on running: `SchedModel.ExitOutcome`; `SchedModel.IdleOutlives`.
* `take_reapable` documents that it never takes the current thread, and the ready queue that it never overflows. Both hold
  exactly as long as no thread that failed to exit is reaped while current: `SchedRuns.StepSane`,
  `SchedRuns.AnyOrderRoom`; `SchedRuns.ReapedThenFull`.
* Section 8.1 of the threads document switches to idle when the queue is empty; `rotate` keeps the current thread. Idle
  enters exactly by an exit over an empty queue: `SchedRuns.IdleEnters`, `SchedRuns.IdleOnlyAfterExit`;
  `SchedRuns.IdleStaysOut`.
* Thread creation promises to return its resources on failure. It does exactly if it is refused at once or finds a stack:
  `SwitchRuns.StartInvIff`. Otherwise the new id stays queued and its turn comes: `SwitchRuns.StacklessRuns`. It is
  queued before its first frame exists in any case: `SwitchRuns.SplitCreation`; `SwitchRuns.NoFramesNoThread`.
* Foreign and repeated frees are documented as refused. An offset strictly inside a live block is accepted exactly if the
  owner's bytes read as a header there: `KernelHeap.AcceptedIff`. The blocks of a run then no longer tile the arena, and
  only then: `KernelHeap.FreedFate`, `HeapModel.RunTiledIff`, `HeapRuns.RunSoundIff`; `KernelHeap.SpelledHeaderAccepted`.
* The user stack is documented as clear of the image, and nothing checks it. An address of the image reads as the file says
  exactly outside the stack's window: `UserSpace.UserReadsImage`; `Isolation.GapReached`.
* The kernel is meant to be out of user mode's reach. User mode reads the whole hull of its image, gaps between segments
  included, but for what its stack covers; it reaches kernel image bytes, or frames, exactly if some are exposed so:
  `Isolation.HiddenIff`, `Isolation.FramesHiddenIff`; `Isolation.GapExposes`, `Isolation.GapReached`.
* Page 0 is documented as never mapped; without fine-grained tables it is mapped with its block: `PagingModel.PageZero`;
  `Paging.PageZeroMapped`.
* RAM below the limit is dropped only in a partial fine-grained block: `PagingModel.RamCovered`; `Paging.PartialBlockDrops`.
* The builder documents that it clears the whole arena; it clears the tables it needs: `Paging.FillArena`.
* A refused `map_user_region` may have opened the top-level entry: bytes change, translation does not: `UserMapModel.OpenedTopHarmless`.

## Model

| member | source | states |
|---|---|---|
| `FreeSpace.CanonicalUnique` | crates/kernel-memory/src/heap.rs:1-35 | an address-ordered list of free blocks that never touch is determined by the bytes it covers |
| `FreeSpace.RoundUpMultiple` | crates/kernel-memory/src/heap.rs:392-396 | rounding up gives the least multiple of the alignment, in the closed form the code uses |
| `FreeSpace.ValidIff` | crates/kernel-memory/src/heap.rs:136-144 | a request is valid if and only if it is not empty and asks for one of thirteen alignments |
| `FreeSpace.PlaceSpec` | crates/kernel-memory/src/heap.rs:163-177 | the payload position is aligned, 8-aligned, and its front gap is empty or holds a whole block |
| `FreeSpace.PlaceLeast` | crates/kernel-memory/src/heap.rs:163-177 | no lower position is aligned with such a gap |
| `FreeSpace.TakeSpec` | crates/kernel-memory/src/heap.rs:179-213 | cutting a request out of a free block keeps the list canonical and uncovers exactly the bytes of the new block |
| `FreeSpace.InsertAtCanonical` | crates/kernel-memory/src/heap.rs:276-304 | putting a block back with two-sided coalescing keeps the list canonical |
| `FreeSpace.InsertAtCovered` | crates/kernel-memory/src/heap.rs:276-304 | and covers exactly the old free bytes and the block's |
| `HeapModel.InitTiled` | crates/kernel-memory/src/heap.rs:118-131 | a fresh arena, down to the nearest multiple of 8, is one free block of that size, or unusable if it holds none; nothing is live |
| `HeapModel.AllocatedTiled` | crates/kernel-memory/src/heap.rs:179-213 | the block cut out was free, becomes live, and nothing else changes hands |
| `HeapModel.FitsIff` | crates/kernel-memory/src/heap.rs:163-177 | a block holds a request at the one position tried if and only if it holds it at any legal position |
| `HeapModel.AllocFirstFit` | crates/kernel-memory/src/heap.rs:136-218 | success gives an aligned payload in free bytes of the lowest block with a legal place for it; refusal means no block has one |
| `HeapModel.AllocSnug` | crates/kernel-memory/src/heap.rs:179-213 | the block taken starts at its header and ends at the first header position behind the payload, or, only if less than a whole block of free bytes is left there, where those end; new free spans hold at least a whole block |
| `HeapModel.GiveTiled` | crates/kernel-memory/src/heap.rs:224-307 | freeing a live block keeps the tiling and frees exactly its bytes |
| `HeapModel.RunTiledIff` | crates/kernel-memory/src/heap.rs:118-307 | free and live blocks tile the arena throughout a run of requests if and only if no free is accepted strictly inside a live block |
| `HeapModel.InsideFreeBreaks` | crates/kernel-memory/src/heap.rs:233-304 | giving back a block that begins strictly inside a live one breaks the tiling |
| `HeapModel.DeallocUndoesAlloc` | crates/kernel-memory/src/heap.rs:136-307 | freeing a fresh allocation restores the heap exactly, for every size and alignment |
| `HeapModel.FreesCommute` | crates/kernel-memory/src/heap.rs:224-307 | the order of two frees does not matter |
| `HeapModel.FreeAllCoalesces` | crates/kernel-memory/src/heap.rs:224-307 | giving every live block back, in any order and with any other legal frees between, leaves one free block of the whole arena |
| `HeapModel.LiveOrderLegal` | crates/kernel-memory/src/heap.rs:224-307 | blocks that were live together may be freed in any order, even repeatedly |
| `HeapModel.SizesAddUp` | crates/kernel-memory/src/heap.rs:362-388 | free and live sizes add up to the arena |
| `HeapHeaders.CountBound` | crates/kernel-memory/src/heap.rs:337-339 | a list of free blocks is never longer than the loop guard allows |
| `HeapHeaders.WriteHeader` | crates/kernel-memory/src/heap.rs:399-404 | writes one header in the bytes and leaves every header apart from it as it was |
| `KernelHeap.FreeList.Init` | crates/kernel-memory/src/heap.rs:118-131 | the bytes hold the fresh heap and the statistics are right |
| `KernelHeap.FreeList.FindFit` | crates/kernel-memory/src/heap.rs:146-177 | the list walk finds the lowest fitting block with its neighbours, or no block fits |
| `KernelHeap.FreeList.TakeFrom` | crates/kernel-memory/src/heap.rs:179-213 | the list in the bytes becomes the list with the request cut out; only free bytes change |
| `KernelHeap.FreeList.Alloc` | crates/kernel-memory/src/heap.rs:136-218 | refines the abstract allocation; one block of free bytes becomes live, of exactly the size the layout allows, and no free span too small for a block is left over; no byte of a live block changes; failure changes nothing |
| `KernelHeap.FreeList.Admit` | crates/kernel-memory/src/heap.rs:224-274 | the checks of `dealloc`, for any offset at all, with the insertion point they find |
| `KernelHeap.FreeList.PreviousFree` | crates/kernel-memory/src/heap.rs:342-359 | finds the free block before a given one |
| `KernelHeap.FreeList.Coalesce` | crates/kernel-memory/src/heap.rs:276-296 | the merged block and its neighbours in the list |
| `KernelHeap.FreeList.GiveBack` | crates/kernel-memory/src/heap.rs:276-304 | the list in the bytes becomes the list with the claimed block put back; only free bytes and that block's change |
| `KernelHeap.FreeList.Dealloc` | crates/kernel-memory/src/heap.rs:224-307 | for every offset: accepts as the checks say; the heap stays valid if and only if it refused or the offset was live; then it refines the abstract free and changes no byte of another live block |
| `KernelHeap.FreeList.Recompute` | crates/kernel-memory/src/heap.rs:362-388 | block count, free bytes and largest payload are the list's |
| `KernelHeap.LargestFreeIs` | crates/kernel-memory/src/heap.rs:362-388 | the largest payload bounds every free one and some block attains it |
| `KernelHeap.StatsAddUp` | crates/kernel-memory/src/heap.rs:362-388 | free bytes, free headers and live blocks add up to the arena |
| `KernelHeap.AcceptedIff` | crates/kernel-memory/src/heap.rs:224-274 | an offset is accepted if and only if it is a live payload, or lies strictly inside a live block over bytes that read as an allocated header clear of free blocks |
| `KernelHeap.FreedFate` | crates/kernel-memory/src/heap.rs:224-307 | an accepted free keeps the tiling if and only if the offset was live |
| `KernelHeap.SpelledHeaderAccepted` | crates/kernel-memory/src/heap.rs:233-252 | an arena with one live block where an offset never handed out is accepted |
| `KernelHeap.OneAllocation` | crates/kernel-memory/src/heap.rs:118-218 | one allocation after initialisation leads to that block |
| `KernelHeap.FreeSpaceRejected` | crates/kernel-memory/src/heap.rs:250-274 | an offset whose header position is free is refused, even over a stale allocated header |
| `KernelHeap.AdmittedLive` | crates/kernel-memory/src/heap.rs:224-274 | what is accepted outside the inside of live blocks is live and has its true size |
| `KernelHeap.InsideLiveTrusted` | crates/kernel-memory/src/heap.rs:233-252 | every offset inside a live block where the claimed block stays inside it is accepted |
| `KernelHeap.PayloadWritesHarmless` | crates/kernel-memory/src/heap.rs:1-35 | callers may write anything in their payloads: list and headers survive |
| `KernelHeap.LiveUntouched` | crates/kernel-memory/src/heap.rs:197-213 | writes to free bytes leave every live block's header and payload alone |
| `KernelHeap.OthersUntouched` | crates/kernel-memory/src/heap.rs:276-304 | putting one block back leaves every other live block alone |
| `HeapRuns.Allocate` | crates/kernel-memory/src/heap.rs:136-218 | the code's allocation as one step over bytes, head and model |
| `HeapRuns.Release` | crates/kernel-memory/src/heap.rs:224-307 | the code's free as one step, for every offset |
| `HeapRuns.RunRefines` | crates/kernel-memory/src/heap.rs:118-307 | through every legal run of requests and payload writes the bytes hold the heap that the abstract run gives |
| `HeapRuns.RunSoundIff` | crates/kernel-memory/src/heap.rs:118-307 | they hold a tiled heap throughout if and only if no free is accepted strictly inside a live block |
| `HeapRuns.PayloadKept` | crates/kernel-memory/src/heap.rs:1-35 | a byte of a live block stays as its owner wrote it, whatever else is allocated, freed or written |
| `MemoryMap.RamTop` | crates/kernel-memory/src/map.rs:339-352 | the highest end of any RAM region, or none exactly when there is no RAM |
| `PageEntries.DecodeEncodePte` | crates/kernel-memory/src/paging.rs:48-64 | flags and an aligned address below 2^52 survive encoding in one word |
| `UserMapModel.EntryWords` | crates/kernel-memory/src/paging.rs:48-64 | the words of every kind of entry, by their bits |
| `PageEntries.SetUserBit` | crates/kernel-memory/src/user_map.rs:180-182 | setting the user bit changes no other field |
| `PageEntries.WriteEntry` | crates/kernel-memory/src/paging.rs:301-304 | the arena's entries change at one index only |
| `PageEntries.ReadWord` | crates/kernel-memory/src/user_map.rs:261-266 | the word read decodes to the arena's entry |
| `PageEntries.ClearEntries` | crates/kernel-memory/src/user_map.rs:254-258 | the cleared entries are empty and the others unchanged |
| `Paging.LinkTables` | crates/kernel-memory/src/paging.rs:225-253 | the PML4 and the PDPT point at consecutive tables |
| `Paging.FillDirectories` | crates/kernel-memory/src/paging.rs:255-271 | every directory entry is the policy's, and the block count is that of mapped blocks |
| `Paging.FillTables` | crates/kernel-memory/src/paging.rs:273-288 | every fine-grained entry is the policy's, and the page count is that of mapped pages |
| `Paging.FillArena` | crates/kernel-memory/src/paging.rs:220-288 | all tables are built and nothing past them is touched |
| `Paging.Build` | crates/kernel-memory/src/paging.rs:179-298 | every error in its order, with the arena untouched; otherwise built tables, under which every address is mapped to itself for the kernel if its page, or beyond the fine-grained area its block, lies below the limit and holds RAM (a byte of it, or an empty RAM region strictly inside), and faults if not; and a report whose `mapped_bytes` counts exactly the pages that translate |
| `PagingModel.WalkBuilt` | crates/kernel-memory/src/paging.rs:179-310 | the walk of every address over built tables is the identity, supervisor and writable where the policy maps it, and a fault elsewhere |
| `PagingModel.RamCovered` | crates/kernel-memory/src/paging.rs:255-288 | a RAM byte from page 1 up to the limit is mapped if and only if no partial fine-grained block drops it |
| `PagingModel.MappedIff` | crates/kernel-memory/src/paging.rs:255-310 | an address is mapped if and only if its page, or its block, lies below its limit and holds a byte of some RAM region or an empty RAM region strictly inside; page 0 is left out where pages are mapped |
| `Paging.PlanMaps` | crates/kernel-memory/src/paging.rs:179-310 | so the policy is what memory map and configuration ask for, whatever the top of RAM |
| `Paging.BuiltTranslates` | crates/kernel-memory/src/paging.rs:179-310 | and the walk over built tables follows it at every address |
| `PagingModel.WholeBlocksCoverRam` | crates/kernel-memory/src/paging.rs:65-72 | with whole fine-grained blocks every such byte is mapped |
| `PagingModel.PageZero` | crates/kernel-memory/src/paging.rs:273-280 | page 0 is unmapped if and only if it is fine-grained or its block is left out |
| `Paging.PageZeroMapped` | crates/kernel-memory/src/paging.rs:255-280 | without fine-grained tables and with RAM at 0 it is mapped |
| `Paging.PartialBlockDrops` | crates/kernel-memory/src/paging.rs:255-288 | with one fine-grained page the next page, RAM below the limit, faults |
| `PagingModel.CoarsePages` | crates/kernel-memory/src/paging.rs:247-298 | pages that translate number the fine-grained ones plus 512 for every mapped block |
| `UserMap.Validate` | crates/kernel-memory/src/user_map.rs:148-166 | the first ill-formed mapping is the one reported |
| `UserMap.WellFormedIff` | crates/kernel-memory/src/user_map.rs:148-166 | a mapping is accepted if and only if it maps some whole pages of the user GiB, at least one, to whole frames |
| `UserMap.TablesFor` | crates/kernel-memory/src/user_map.rs:189-195 | just enough tables for the highest mapping |
| `UserMap.LinkUserTables` | crates/kernel-memory/src/user_map.rs:202-224 | the directory is hooked in and its empty tables linked, nothing else changed |
| `UserMap.FillMapping` | crates/kernel-memory/src/user_map.rs:226-245 | the leaves of one mapping, each page at its offset |
| `UserMap.Attach` | crates/kernel-memory/src/user_map.rs:202-250 | the whole region is attached; bytes mapped are the sum of the sizes |
| `UserMap.MapUserRegion` | crates/kernel-memory/src/user_map.rs:122-251 | every error in its order and what it leaves behind; otherwise the region is attached with just enough tables |
| `UserMapModel.KernelIsolated` | crates/kernel-memory/src/user_map.rs:176-187 | every address outside the user GiB translates as before and stays closed to user mode |
| `UserMapModel.UserTranslates` | crates/kernel-memory/src/user_map.rs:226-245 | every address of the user GiB translates as the mappings say |
| `UserMapModel.UserReach` | crates/kernel-memory/src/user_map.rs:122-251 | user mode reaches an address if and only if a mapping holds it, at that mapping's physical place and with the rights of the last one |
| `UserMapModel.OpenedTopHarmless` | crates/kernel-memory/src/user_map.rs:180-187 | opening the top-level entry alone changes no translation |
| `Bitmap.SetBit` | crates/kernel-memory/src/frame.rs:230-238 | one bit of the view changes |
| `Bitmap.SameBitsSameBytes` | crates/kernel-memory/src/frame.rs:225-238 | equal bits mean equal bytes |
| `FrameModel.FreeCountIsSize` | crates/kernel-memory/src/frame.rs:372-378 | the counter is the size of the free set |
| `FrameModel.AllocMoves` | crates/kernel-memory/src/frame.rs:331-344 | an allocation moves exactly its run from free to issued |
| `FrameModel.AllocLowest` | crates/kernel-memory/src/frame.rs:331-344 | the run handed out is the lowest free one of that length, and refusal means that there is none |
| `FrameModel.RoomAfter` | crates/kernel-memory/src/frame.rs:331-344 | taking it leaves as much of any longer free run as it does not need |
| `FrameModel.ReleaseUndoesAlloc` | crates/kernel/src/memory.rs:535-560 | releasing what was just taken restores both bitmaps |
| `FrameModel.RunsNeverOverlap` | crates/kernel-memory/src/frame.rs:321-368 | over every run of allocations and releases, of whole ranges or single frames of them, ranges out never overlap and are issued |
| `FrameModel.FreeOneBalanced` | crates/kernel-memory/src/frame.rs:350-368 | releasing one frame of a range splits the range and keeps the books |
| `FrameAllocator.FrameAllocator.FindFreeRun` | crates/kernel-memory/src/frame.rs:462-482 | the smallest start of a free run of that length, or none exists |
| `FrameAllocator.FrameAllocator.Take` | crates/kernel-memory/src/frame.rs:331-344 | refines the abstract contiguous allocation |
| `FrameAllocator.FrameAllocator.Alloc` | crates/kernel-memory/src/frame.rs:321-325 | the lowest free frame |
| `FrameAllocator.FrameAllocator.Free` | crates/kernel-memory/src/frame.rs:350-368 | succeeds exactly on issued frames; says reserved of reserved frames, free of free ones, not managed of the rest; failure changes nothing |
| `FrameAllocator.FrameAllocator.FrameIndex` | crates/kernel-memory/src/frame.rs:403-412 | exactly the addresses of managed frames have an index |
| `FrameAllocator.FrameAllocator.FirstFreeIn` | crates/kernel-memory/src/frame.rs:389-400 | the lowest free frame touching an interval |
| `FrameAllocator.FrameAllocator.MarkAvailable` | crates/kernel-memory/src/frame.rs:438-445 | one frame joins the allocatable set, free; the allocator stays valid if and only if the frame was not free and is not reserved |
| `FrameAllocator.FrameAllocator.FreeFrames` | crates/kernel/src/memory.rs:547-560 | releases exactly the frames before the first that is not issued, and fails exactly there |
| `FrameAllocator.FrameAllocator.WholeRange` | crates/kernel/src/memory.rs:547-560 | on a range that is out it never fails and releases exactly that range |
| `FrameAllocator.FrameAllocator.TakeAndGiveBack` | crates/kernel/src/main.rs:298-317 | taking and returning a range leaves every bitmap byte and the counter as they were |
| `FrameAllocator.Init` | crates/kernel-memory/src/frame.rs:247-318 | every error exactly when it is due; otherwise nothing is out, and a frame may be handed out if and only if it lies wholly in conventional memory, in the window, and touches no reserved range |
| `FrameAllocator.UsableIff` | crates/kernel-memory/src/frame.rs:247-318 | by bytes: a frame is usable if and only if all of it is conventional memory and no reserved range has a byte in it |
| `BootMemory.PageRange` | crates/kernel/src/memory.rs:599-609 | the widened range is page-aligned and covers the original, up to the last page of the address space |
| `BootMemory.OwnedKept` | crates/kernel/src/memory.rs:577-596 | every byte the kernel owns lies in a page that touches a reserved range |
| `BootMemory.OwnedExact` | crates/kernel/src/memory.rs:577-609 | a page touches a reserved range if and only if it holds a byte the kernel owns |
| `BootMemory.Install` | crates/kernel/src/memory.rs:202-235 | succeeds if and only if there is RAM to map and the arena holds the tables; they then stand as planned, with fine-grained tables in whole blocks, up to the limit reported, which is the top of RAM or the configured one |
| `BootMemory.InitAllocator` | crates/kernel/src/memory.rs:250-288 | succeeds if and only if the window has a usable frame, its bitmaps fit and the ranges are not too many; every frame the allocator may ever hand out is identity-mapped, supervisor and writable, and touches no owned range; those are exactly the usable ones |
| `BootMemory.NewRoom` | crates/kernel/src/memory.rs:250-288 | consecutive usable frames of the window are a free run of the new allocator |
| `SchedModel.RotateInv` | crates/kernel-sched/src/lib.rs:304-324 | rotation keeps the invariant: the queue is exactly the ready non-idle threads, once each, and only `current` runs |
| `SchedModel.CreateInv` | crates/kernel-sched/src/lib.rs:190-200 | creation keeps it |
| `SchedModel.CreateOutcome` | crates/kernel-sched/src/lib.rs:190-200 | it succeeds if and only if a slot is unused, takes the lowest, queues it last and changes nothing else; refusal changes nothing |
| `SchedModel.ExitInv` | crates/kernel-sched/src/lib.rs:275-285 | a safe exit succeeds and keeps it |
| `SchedModel.ExitOutcome` | crates/kernel-sched/src/lib.rs:275-338 | the exiting thread is exited if and only if it is not idle, and is not queued; whoever waited longest goes on, or idle; nobody else changes |
| `SchedModel.IdleOutlives` | crates/kernel-sched/src/lib.rs:275-338 | with nobody waiting, idle runs on after its own exit |
| `SchedModel.ExitSafeIff` | crates/kernel-sched/src/lib.rs:275-338 | exit succeeds and keeps the invariant if and only if another thread can take over |
| `SchedModel.ReapInv` | crates/kernel-sched/src/lib.rs:290-298 | reaping keeps it |
| `SchedModel.RegisterIdleInv` | crates/kernel-sched/src/lib.rs:156-170 | idle registration keeps it |
| `SchedModel.RegisterIdleOutcome` | crates/kernel-sched/src/lib.rs:156-170 | it succeeds if and only if the slot is unused and there is no idle thread, with the right error otherwise; idle is not queued |
| `SchedModel.RegisterBootAgain` | crates/kernel-sched/src/lib.rs:137-150 | a second registration is never refused and keeps the invariant if and only if it names the running thread and that is not idle |
| `SchedModel.IdleQueued` | crates/kernel-sched/src/lib.rs:137-150 | registered so, the running idle thread is queued by the next rotation |
| `SchedModel.FailsAtBoot` | crates/kernel-sched/src/lib.rs:137-338 | right after boot, exit fails and breaks the invariant, and registering thread 1 succeeds and breaks it |
| `SchedRuns.RunInv` | crates/kernel-sched/src/lib.rs:142-355 | the invariant holds in every state of every legal run |
| `SchedRuns.NoOverflow` | crates/kernel-sched/src/lib.rs:341-345 | the queue always has a free place, by counting |
| `SchedRuns.SaneRoom` | crates/kernel-sched/src/lib.rs:341-345 | so it has before boot and after a failed exit, wherever the code may enqueue |
| `SchedRuns.StepSane` | crates/kernel-sched/src/lib.rs:142-355 | every operation keeps what that needs if and only if it does not reap the current thread |
| `SchedRuns.AnyOrderRoom` | crates/kernel-sched/src/lib.rs:142-355 | so after any operations in any order, with or without a boot thread, short of that |
| `SchedRuns.ReapedThenFull` | crates/kernel-sched/src/lib.rs:286-345 | a run in which the current thread is reaped and the ring overflows |
| `SchedRuns.IdleEnters` | crates/kernel-sched/src/lib.rs:258-338 | a step brings idle onto the processor if and only if it is an exit over an empty queue |
| `SchedRuns.IdleOnlyAfterExit` | crates/kernel-sched/src/lib.rs:258-338 | over a run, idle stays off the processor until such an exit |
| `SchedRuns.IdleStaysOut` | crates/kernel-sched/src/lib.rs:304-324 | with idle registered and nobody waiting, a preempting tick keeps the boot thread |
| `SchedRuns.Lifecycle` | crates/kernel-sched/src/lib.rs:24-36 | each step moves each thread along one edge of the lifecycle |
| `SchedRuns.Edges` | crates/kernel-sched/src/lib.rs:24-36 | which edge when: a thread becomes exited if and only if the step is its own exit and it is not idle; an exited one becomes unused if and only if it is the lowest and reaped; an unused slot is left if and only if it is created |
| `SchedRuns.NotBack` | crates/kernel-sched/src/lib.rs:275-298 | over every run, a thread that exited is not current again before its slot is given to a new thread |
| `SchedRuns.Counted` | crates/kernel-sched/src/lib.rs:258-324 | ticks count timer interrupts and switches the steps that hand the processor on |
| `SchedRuns.ExitedStays` | crates/kernel-sched/src/lib.rs:275-298 | an exited thread is never chosen until it is reaped and created again |
| `SchedRuns.NoStarvation` | crates/kernel-sched/src/lib.rs:258-355 | the thread at position k runs at exactly the (k+1)-th rescheduling step, whatever interleaves |
| `SchedRuns.FullRound` | crates/kernel-sched/src/lib.rs:304-324 | n rotations over n participants restore `current` and the queue |
| `SchedRuns.RoundRobinFair` | crates/kernel-sched/src/lib.rs:304-355 | in m rotations each of n participants runs m/n times, rounded down or up |
| `Scheduler.Scheduler.Enqueue` | crates/kernel-sched/src/lib.rs:341-345 | the ring buffer appends at the tail |
| `Scheduler.Scheduler.Dequeue` | crates/kernel-sched/src/lib.rs:348-355 | the ring buffer drops its head |
| `Scheduler.Scheduler.Rotate` | crates/kernel-sched/src/lib.rs:304-324 | the arrays and the ring refine the abstract rotation |
| `Scheduler.Scheduler.OnTick` | crates/kernel-sched/src/lib.rs:258-264 | refines the abstract tick |
| `Scheduler.Scheduler.ExitCurrent` | crates/kernel-sched/src/lib.rs:275-338 | refines the abstract exit, including its failure; where another thread can take over, the caller is exited unless it is idle, and out of the queue, the head of the queue or idle runs, nobody else changes, and the invariant is kept |
| `Scheduler.Scheduler.TakeReapable` | crates/kernel-sched/src/lib.rs:290-298 | refines the abstract reaping |
| `Scheduler.Scheduler.Create` | crates/kernel-sched/src/lib.rs:190-200 | refines the abstract creation |
| `Scheduler.Scheduler.RegisterBoot` | crates/kernel-sched/src/lib.rs:142-150 | refines the abstract registration |
| `Scheduler.Scheduler.RegisterIdle` | crates/kernel-sched/src/lib.rs:156-170 | refines the abstract registration, with its errors |
| `Scheduler.Scheduler.RegisterIdleAny` | crates/kernel-sched/src/lib.rs:176-184 | takes the lowest unused slot |
| `SwitchRuns.ReapedInv` | crates/kernel/src/sched.rs:101-109 | the reaping loop keeps the invariant and leaves the running thread's slot and stack alone |
| `SwitchRuns.SwitchInv` | crates/kernel/src/sched.rs:115-132 | a switch lands on a non-zero frame of the chosen thread's own stack |
| `SwitchRuns.InterruptInv` | crates/kernel/src/sched.rs:153-197 | a whole interrupt keeps the invariant |
| `SwitchRuns.SwitchSaves` | crates/kernel/src/sched.rs:101-197 | if the processor changes hands the interrupted frame is in the slot of its thread and the processor goes on from the frame in the slot of the chosen one; if not, from the interrupted frame; no other live slot changes |
| `SwitchRuns.GoesOn` | crates/kernel/src/sched.rs:115-197 | over every run, a thread interrupted with a frame and not reaped meanwhile is next current with exactly that frame |
| `SwitchRuns.Resumes` | crates/kernel/src/sched.rs:115-197 | until then its saved frame stays as it is |
| `SwitchRuns.StartsAtTop` | crates/kernel/src/thread.rs:151-283 | a new thread is first current with the frame at the very top of its own stack |
| `SwitchRuns.ExitedReaped` | crates/kernel/src/sched.rs:101-109 | an interrupt clears the slot of every thread that had exited and gives its stack back |
| `SwitchRuns.StaysAlive` | crates/kernel/src/sched.rs:101-109 | and reaps nobody else |
| `SwitchRuns.StartInvIff` | crates/kernel/src/thread.rs:116-189 | creation keeps it if and only if it is refused at once or finds a stack |
| `SwitchRuns.StacklessRuns` | crates/kernel/src/thread.rs:116-229 | a thread left queued without a stack behind k others is current at exactly the (k+1)-th rescheduling, still without one |
| `SwitchRuns.NoFramesNoThread` | crates/kernel/src/thread.rs:116-189 | a machine without frames where it breaks |
| `SwitchRuns.RefusedExit` | crates/kernel/src/sched.rs:101-197 | the interrupt after an exit gives back the stack in use if and only if the exit was refused |
| `SwitchRuns.TrafficInv` | crates/kernel/src/memory.rs:535-560 | frames taken or given back by other code, whole ranges or single ones, keep it |
| `SwitchRuns.RunInv` | crates/kernel/src/sched.rs:101-197 | it holds in every state of every run of creations, interrupts, stack use and other frame traffic |
| `SwitchRuns.OwnStacks` | crates/kernel/src/thread.rs:116-357 | in every state: the processor is on `current`'s stack, ready threads' frames lie in their own stacks, live stacks are disjoint issued frames, `rsp0` is the running user thread's stack top |
| `SwitchRuns.SplitCreation` | crates/kernel/src/thread.rs:116-229 | an interrupt between enqueueing and preparation picks the stackless thread if and only if nobody else waits and it reschedules |
| `ContextSwitch.Dispatcher.constructor` | crates/kernel/src/sched.rs:41-43 | boot satisfies the invariant |
| `ContextSwitch.Dispatcher.Release` | crates/kernel/src/thread.rs:345-357 | the stack goes back to the frame allocator and the slot is cleared |
| `ContextSwitch.Dispatcher.ReapExited` | crates/kernel/src/sched.rs:101-109 | the loop reaps every exited thread |
| `ContextSwitch.Dispatcher.SwitchTo` | crates/kernel/src/sched.rs:115-132 | the interrupted frame is saved for the old thread, `rsp0` is set for user threads, and the answer is the frame saved for the new one |
| `ContextSwitch.Dispatcher.IrqHandler` | crates/kernel/src/sched.rs:153-197 | refines the abstract handler over the real scheduler and frame allocator, and keeps the invariant; if the processor changes hands the interrupted frame is saved for its thread and the chosen thread goes on from its own saved one |
| `ContextSwitch.Dispatcher.Prepare` | crates/kernel/src/thread.rs:151-283 | a fresh stack with its first frame at the top |
| `ContextSwitch.Dispatcher.Create` | crates/kernel/src/thread.rs:116-229 | its three outcomes, and the invariant if and only if a stack was left or none was needed |
| `ContextSwitch.Dispatcher.TakeFrames` | crates/kernel/src/memory.rs:535-541 | succeeds if and only if there is a free run that long; frames that were free, and the machine otherwise as it was |
| `ContextSwitch.Dispatcher.GiveFrames` | crates/kernel/src/memory.rs:547-560 | a range that is out and no thread's stack comes back whole, and the machine is otherwise as it was |
| `LockModel.NextInv` | crates/kernel/src/lock.rs:57-156 | every step of every interleaving keeps the lock discipline |
| `LockModel.HeldMeansClosed` | crates/kernel/src/lock.rs:104-156 | a held lock means interrupts are off; the held count is the running thread's guards; other threads hold none |
| `LockModel.LockNeverSpins` | crates/kernel/src/lock.rs:114-125 | a lock the caller does not hold is free |
| `LockModel.NoSwitchUnderLock` | crates/kernel/src/thread.rs:296-319 | no lock is held at a timer interrupt, a trap or a switch |
| `LockModel.TrapRefusedIff` | crates/kernel/src/thread.rs:296-319 | yield and exit are refused if and only if some lock is held |
| `LockModel.Bracket` | crates/kernel/src/lock.rs:61-82 | coming back to the depth of an entry finds the interrupt flag as before it, whatever ran in between |
| `LockModel.OutOfOrder` | crates/kernel/src/lock.rs:150-156 | dropping a guard out of order is harmless if and only if it found interrupts off or no lock remains |
| `LockModel.OutOfOrderFails` | crates/kernel/src/lock.rs:150-156 | a run in which it is not |
| `LockedSwitch.NextInv` | crates/kernel/src/sched.rs:153-197 | lock discipline and stacks are kept together by every act of one core; a thread that may be chosen has a frame to return through |
| `LockedSwitch.SwitchesUnlocked` | crates/kernel/src/thread.rs:296-319 | over every run the running thread changes only in an interrupt that finds no lock held |
| `SpinLock.Core.EnterCritical` | crates/kernel/src/lock.rs:61-72 | interrupts go off and the guard remembers them |
| `SpinLock.Core.DropCritical` | crates/kernel/src/lock.rs:74-82 | the flag is as the guard remembers |
| `SpinLock.Core.Acquire` | crates/kernel/src/lock.rs:114-125 | returns if and only if the caller does not hold the lock; then the flag was clear, it is set, and the count goes up |
| `SpinLock.Core.Release` | crates/kernel/src/lock.rs:150-156 | count down, flag clear, interrupts as the guard remembers |
| `SpinLock.Core.TryTrap` | crates/kernel/src/thread.rs:296-319 | the trap is taken exactly when no lock flag is set |
| `Image.SegmentIter.Next` | crates/kernel-image/src/lib.rs:239-269 | yields the next of the loadable segments still to come, or the end or an error; which these are is `ElfLayout.ReadsBack` |
| `ElfLayout.ReadsBack` | crates/kernel-image/src/lib.rs:239-289 | a file whose program header table is laid out from a list of headers, at the positions of the System V ABI, reads back as exactly those of type 1, in order and field by field; a cut-off table is noticed |
| `LittleEndian.ByteOf` | crates/kernel-image/src/lib.rs:218-230 | byte k of a stored field is the digit of weight 256 to the k |
| `Image.CheckSegments` | crates/kernel-image/src/lib.rs:297-324 | accepts exactly whole, non-empty, sound program headers; reports the first bad segment |
| `Image.CheckNoOverlap` | crates/kernel-image/src/lib.rs:327-348 | accepts exactly at most sixteen segments that share no byte |
| `Image.CheckEntry` | crates/kernel-image/src/lib.rs:351-366 | accepts if and only if the entry lies in an executable segment, by virtual address, and no segment up to it overflows; each error means what it says |
| `Image.LoadedSpan` | crates/kernel-image/src/lib.rs:369-380 | the page-aligned hull of all segments |
| `Loader.ClaimPages` | src/bootloader/fs_loader.rs:168-182 | claims exactly the segment's pages not claimed before |
| `Loader.CopySegment` | src/bootloader/fs_loader.rs:184-201 | file bytes, then zeroes, and no other byte |
| `Loader.SegmentIntact` | src/bootloader/fs_loader.rs:164-212 | no later segment spoils an earlier one |
| `Loader.LoadSegments` | src/bootloader/fs_loader.rs:164-212 | all segments in place, or where the loop stopped |
| `Loader.Inspect` | src/bootloader/fs_loader.rs:146-158 | accepts exactly the images every check allows, and describes them truly |
| `Loader.Load` | src/bootloader/fs_loader.rs:146-212 | each needed page requested once, all inside the span, nothing else written, every segment's bytes in memory; each error means what it says: a needed page that was not available, too many of them, or an image some check refuses; pages not claimed stay available |
| `ElfLayout.LoadedWhole` | src/bootloader/fs_loader.rs:164-212 | after loading such a file the bytes of every type-1 header stand at its physical address, zeroes after them, and the entry is the file's |
| `Loader.NeedsIff` | src/bootloader/fs_loader.rs:168-182 | the pages claimed for a segment are exactly those that hold one of its bytes |
| `Loader.LoadsIf` | src/bootloader/fs_loader.rs:146-212 | no error is left if the checks accept the image and its pages are available and not too many |
| `Loader.StillInPlace` | src/bootloader/fs_loader.rs:160-182 | a load that claims other pages leaves an image as it was |
| `Loader.LoadBoth` | src/main.rs:45-63 | after the kernel's image and the user's are both loaded, both stand in memory, on pages of their own; two acceptable images whose pages are available and not shared do load |
| `UserSpace.InstallUser` | crates/kernel/src/user.rs:66-87 | over built kernel tables: succeeds if and only if the mappings are well-formed, the kernel's tables stay below the user GiB and the arena has room; success attaches the region, failure changes no translation |
| `UserSpace.UserReadsImage` | src/bootloader/handoff.rs:127-130 | a user read of any linked address gives the file's byte or zero, unless the stack mapping covers it |
| `UserSpace.EntryReachable` | crates/kernel/src/user.rs:60-104 | the checked entry point is reachable in user mode and lies in an executable segment |
| `UserSpace.ReachesOnly` | crates/kernel/src/user.rs:60-87 | every physical byte user mode reaches lies in the image's hull, read-only, or in the stack's frames, writable |
| `UserSpace.ReachesIff` | crates/kernel/src/user.rs:60-87 | it reaches exactly the stack's frames and the bytes of the hull that the stack does not cover |
| `BootFlow.PutBack` | crates/kernel/src/memory.rs:202-222 | ending the borrow of the table arena changes no other byte of memory |
| `BootFlow.UserKept` | crates/kernel/src/memory.rs:202-222 | the arena being the kernel's, writing tables leaves the user image in place |
| `BootFlow.ClearOfBootStack` | crates/kernel/src/memory.rs:577-609 | a frame that touches no reserved range is clear of the boot stack |
| `BootFlow.StartThreads` | crates/kernel/src/memory.rs:250-288 | the frames of the heap and of the interrupt stacks, and thread 0: the machine invariant holds over the new allocator; a free run that long is enough |
| `BootFlow.StartIdle` | crates/kernel/src/main.rs:328-340 | the idle thread is registered and the invariant holds; right after boot, a free run of a stack is enough |
| `BootFlow.StartKernel` | crates/kernel/src/main.rs:140-340 | tables, frames, heap, scheduler and idle thread stand in one memory, of which only the arena changed; RAM, room for tables and bitmaps and a run of usable frames are enough |
| `BootFlow.StillSafe` | crates/kernel/src/user.rs:66-87 | at its own address every frame of the allocator is still the kernel's alone after the user region is attached |
| `BootFlow.StartUser` | crates/kernel/src/user.rs:60-104 | stack, region and thread: the region is attached, the stack touches nothing the kernel owns, the invariant holds; frames, a slot and room for the region are enough |
| `Isolation.ReachExact` | crates/kernel/src/user.rs:60-87 | the exact reach, for every physical byte |
| `Isolation.OwnedIsolated` | crates/kernel/src/memory.rs:577-596 | of what the kernel owns, user mode reaches exactly what is exposed in the user image's hull |
| `Isolation.HiddenIff` | crates/kernel/src/user.rs:66-87 | it reaches no byte of the kernel image if and only if none is exposed |
| `Isolation.NoGapsHide` | src/bootloader/fs_loader.rs:160-182 | if segments fill the user's hull, none is |
| `Isolation.FramesHiddenIff` | crates/kernel/src/user.rs:60-87 | of any set of frames, issued or yet to be, it reaches none but its stack's if and only if no other byte of them is exposed |
| `Isolation.MapHides` | crates/kernel-memory/src/frame.rs:247-318 | if segments fill the hull and the memory map keeps the user image out of conventional memory, it reaches no frame of the allocator but its stack's |
| `Isolation.GapExposes` | src/bootloader/fs_loader.rs:160-182 | two images on pages of their own where a kernel byte is exposed and a user segment lies under the stack |
| `Isolation.GapReached` | crates/kernel/src/user.rs:15-18 | over any tables user mode then reads that kernel byte, and its stack in place of that segment |
| `BootFlow.LoadAndMap` | crates/kernel/src/main.rs:140-352 | from two files and a memory map, in one physical memory: each linked address outside the stack reads in user mode as the file says, the kernel image outside the arena is as loaded, user mode's reach is exact, frames and the kernel image are hidden under the conditions above, an idle thread exists, and the machine invariant holds; with acceptable images whose pages are available and not shared, room for the tables and a run of usable frames, all of it succeeds |

## Left out

- Memory-map bytes: descriptors are taken as parsed regions whose ends fit in 64 bits; the parser is one bounds check per field.
- ELF header constants of `validate`: one branch each; the entry point is read from its field.
- Inline assembly, control registers, `fxsave`, descriptor tables, port I/O, logging, canary reporting and firmware file access.
- `SpinLock.Core.Acquire`: the waiting loop is its first exchange, which finds the flag clear unless the caller holds the lock; then no answer stands for waiting forever.
- `FrameAllocator.FrameAllocator.constructor`: the two bitmaps are two arrays, where the code splits one buffer; `FrameAllocator.Init` still checks the size of that buffer.
- `Loader.Firmware.AllocatePage`: firmware grants a fixed set of pages, each at most once, and every granted page is real memory.
- `UserSpace.UserReadsImage`: one page-aligned distance between link and load addresses; `BootFlow.LoadAndMap` provides the memory.
- `BootFlow.LoadAndMap`: the frame bitmaps, thread slots and heap bytes are objects of their own, not parts of the physical memory, and the borrowed arena is copied out and in; that the memory map keeps loaded pages out of conventional memory is a hypothesis of its clause about frames.
- `BootFlow.StartKernel`: the self-checks between its steps and the use of the two interrupt-stack pages.
- Tick and switch counters do not wrap; the signed difference of the first segment's addresses does not overflow.
- The contents of saved frames beyond their place; system calls other than as a cause of exit or of no switch.
- Self-checks, fault-injection features, the user programs and the boot-information header.
