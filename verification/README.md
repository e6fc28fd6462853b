# A verified model of the kernel's memory, scheduling and storage

The project models the parts of the kernel in which several data structures have to agree
with one another, and proves that they do, in every state that the operations can lead to.

**Memory.** Physical memory is a sequence of 4 KB frames of words, and CR3 a variable. The
processor's walk is that of the Intel SDM, Volume 3A, section 4.3 (32-bit paging). Page
tables are edited only through the recursive entry of the current page directory, as the
kernel does it. `PageTables.dfy` has entries, addresses and the walk, and what the current
tables say about all address spaces; `Memory.dfy` mapping and unmapping; `MemoryInvariant.dfy`
the invariant of all processes together; `TableNeeds.dfy` and `PageAllocation.dfy` runs of
pages, with the page tables they need and the rollback; `PageAccess.dfy` what the entries
allow user code; `Processes.dfy` and `Forks.dfy` new page directories and `Fork`; `Boot.dfy`
the state that the loader leaves; `Heap.dfy` the heap of blocks on top of page runs.
`BitFields.dfy` connects the entry fields, written as quotients and remainders elsewhere,
with the masks and shifts of the code.

**Threads.** `Scheduler.dfy` has the ready list and the thread states; `BoundedWaiting.dfy`
how long a ready thread waits, in switches and in clock interrupts; `Synchronization.dfy`
semaphores and mutexes as a system of atomic steps, in which an interrupt may come between
any two statements that run with interrupts on; `WaitOrder.dfy` the order in which waiting
threads are woken; `Semaphore.dfy` the semaphore's methods.
The clock interrupts at any time, and so do devices, whose handlers increase a semaphore or
unblock a thread (`src/kernel/io/disk/disk.cpp:49-59`, `include/kernel/util/block_queue.h:126`)
also while the idle thread runs or a thread is inside `Lock` or `Unlock`. All other steps are
the current thread's, so a run of the system is any interleaving of any number of threads and
handlers. A woken thread may be interrupted before it looks at the semaphore again, which the
code does not allow; the results hold all the same.

**Storage.** A disk is a sequence of 512-byte sectors. `Sectors.dfy`, `IndexNodes.dfy`,
`NodeTable.dfy` and `Layout.dfy` have the formats, `DiskImage.dfy` what formatting writes and
mounting reads; `FilePart.dfy` formatting, mounting, appending, seeking, reading, creating and
deleting, with the proofs on values in `FileLemmas.dfy`.

**Shared structures and paths.** `Bitmap.dfy` (on bytes) implements the functions of
`BitRuns.dfy`, with which pools, heap and files are specified; `Pools.dfy` adds the counters.
`TagList.dfy` is the intrusive linked list, and refines sequences. `Path.dfy` takes paths
apart and joins them.

Most operations are specified by a function of the old state, about which the theorems are
proved. What they leave is stated a second time without that function, on the words of memory,
the bytes of the disk, the fields of a thread or the characters of a path.

A failed `dbg::Assert` stops the kernel. Where callers are to respect an assertion it is a
requirement; where the code can reach a failing one it is a result of the call, with the
exact condition.

Where the code departs from what one would expect, the model follows the code:

- An allocation of pages for which not even one frame is free leaves its addresses marked
  (`src/kernel/memory/pool.cpp:192-201`). `PageAllocation.AllocPages` says so, and that exactly
  then marked pages of a process are left without a frame; `Fork` needs one for each of them.
- `Allocate` returns null while free frames hold fewer bytes than asked for, even where a
  free block would do (`src/kernel/memory/pool.cpp:547-549`).
- An append of no bytes to a file of whole sectors, all direct, fails an assertion; a read
  up to the end of such a file does too. The conditions are `FileParts.FilePart.WriteFile`'s
  and `FileParts.FilePart.EndsBeyondTable`.
- `SeekFile` computes in 32 bits, so an offset before the beginning moves to the end.
- `Join` appends a separator for an empty child, so the path made from an empty string is `/`,
  and joining `a/` with an empty path gives `a//`.
- The comment on the super block speaks of its padding to whole sectors; formatting reserves
  one sector for it, and the model does as the code does.

## Model

| member | source | states |
|---|---|---|
| BitFields.GetAfterSet | include/kernel/util/bit.h:16-52 | a field that was set is read back, and every field beside it reads as before, for words of any width |
| BitFields.SetBitsReplaces | include/kernel/util/bit.h:38-52 | the mask arithmetic replaces the bits of the field by the low bits given and keeps all others |
| BitFields.ResetBitsClears | include/kernel/util/bit.h:27-36 | the bits of the field become clear and all others stay |
| BitFields.GetBitsValue | include/kernel/util/bit.h:16-25 | the number in a field is the word's quotient by the power of its position, modulo that of its length |
| BitFields.SetBitsValue | include/kernel/util/bit.h:38-52 | the number that a word stands for after a field has been set |
| PageEntryBits.EntryFields | include/kernel/memory/page.h:102-146 | the present, writable and supervisor flags and the address of an entry are the bits that the code reads |
| PageEntryBits.AddressSet | include/kernel/memory/page.h:148-151 | setting an address through the bit functions is the model's `SetAddress` |
| PageEntryBits.FlagsSet | include/kernel/memory/page.h:106-142 | setting and resetting flags through the bit functions is the model's `SetPresent`, `SetWritable`, `SetSupervisor` |
| BitRuns.FindRunCharacterised | src/kernel/util/bitmap.cpp:109-141 | the search used as specification returns exactly the leftmost free run, and nothing exactly when there is none |
| BitRuns.CountFreeMark | src/kernel/memory/pool.cpp:333-420 | marking a free run, or freeing a marked one, changes the number of clear bits by its length |
| Bitmaps.Bitmap.Alloc | src/kernel/util/bitmap.cpp:109-141 | on the byte buffer, with whole bytes skipped: returns the leftmost free run and marks exactly it, or changes nothing |
| Bitmaps.Bitmap.SkipFullBytes | src/kernel/util/bitmap.cpp:111-114 | the skipped bytes hold only allocated slots |
| Bitmaps.Bitmap.FirstClearBit | src/kernel/util/bitmap.cpp:120-125 | the first clear slot of a byte that is not full; the assertion that there is one holds |
| Bitmaps.Bitmap.ScanForRun | src/kernel/util/bitmap.cpp:127-140 | the one-pass scan finds the leftmost run, though it counts on over failed candidates |
| Bitmaps.Bitmap.SetBit | src/kernel/util/bitmap.cpp:82-94 | one slot changes, all others stay, also those in the same byte; slot k is the bit of weight 2^(k mod 8) of byte k / 8 |
| Bitmaps.Bitmap.IsAlloc | src/kernel/util/bitmap.cpp:54-60 | tells the slot's flag |
| Bitmaps.Bitmap.Set | src/kernel/util/bitmap.cpp:62-70 | the loop marks exactly the run |
| Bitmaps.Bitmap.Reset | src/kernel/util/bitmap.cpp:72-80 | the loop frees exactly the run |
| Bitmaps.Bitmap.ForceAlloc | src/kernel/util/bitmap.cpp:105-107 | marks exactly the run, which may be empty |
| ByteBits.MaskIsShift | include/kernel/util/bit.h:54-70 | the masks, which are tabulated, are the shifts that the code computes |
| ByteBits.WriteLaws | src/kernel/util/bitmap.cpp:82-94 | setting or resetting one bit of a byte changes that bit only |
| ByteBits.FullByteLaw | src/kernel/util/bitmap.cpp:112 | a byte equals 0xFF exactly when all of its slots are allocated |
| Pools.PagePool.AllocPages | src/kernel/memory/pool.cpp:333-342 | the counter stays the number of clear bits; the assertion on it never fails; the leftmost run is taken |
| Pools.PagePool.AllocPageAtAddr | src/kernel/memory/pool.cpp:344-351 | a free page is taken, the one that contains the address given, and the counter follows |
| Pools.PagePool.FreePages | src/kernel/memory/pool.cpp:372-379 | returning allocated pages keeps the counter right |
| PageTables.MappingFields | src/kernel/memory/page.cpp:17-37 | the stored entry is present, writable, of user level, has the frame, and keeps the remaining flag bits |
| PageTables.UnmapFields | src/kernel/memory/page.cpp:47-54 | unmapping clears presence and keeps the address |
| PageTables.MappingStores | src/kernel/memory/page.cpp:34-36 | the word that a mapping stores, bit by bit: present, writable, open to user code, with the frame, and with bits 3 to 11 of the word before |
| PageTables.FreshMapping | src/kernel/process/proc.cpp:118-119 | in a cleared entry it is the frame's address plus 7 |
| PageTables.WithPageStores | src/kernel/memory/page.cpp:33-37 | the words of memory before and after a page is mapped: its entry, and no other word |
| PageTables.SelfAddresses | include/kernel/memory/page.h:267-293 | the directory is seen in the last page of the address space and all tables in the last 4 MB, four bytes for each entry |
| PageTables.SelfMap | include/kernel/memory/page.h:267-293 | the two computed addresses lead, by the processor's own walk, to the entry of the directory and of the table |
| AddressSpaces.SameHomeSameTable | src/boot/loader.asm:327-371 | two slots of any directories share a table exactly when both are the same kernel slot, or slots 0 and 768 of the boot directory |
| AddressSpaces.NewTableKeepsWalks | src/kernel/memory/page.cpp:20-32 | hooking in a cleared table changes no translation in any address space |
| AddressSpaces.NewPageWalks | src/kernel/memory/page.cpp:33-37 | a stored mapping shows at that page, wherever it is shared, and nowhere else |
| AddressSpaces.NoPageWalks | src/kernel/memory/page.cpp:47-54 | an unmapping shows at that page, wherever it is shared, and nowhere else |
| AddressSpaces.KernelPagesShared | src/kernel/process/proc.cpp:107-121 | a kernel mapping made in one address space holds in all |
| MemoryUnit.Memory.ClearTable | src/kernel/memory/page.cpp:24-31 | the loop through the recursive entry clears the new table, word by word, and nothing else |
| MemoryUnit.Memory.NewTable | src/kernel/memory/page.cpp:20-32 | a free kernel frame that held no table becomes the directory entry's, cleared; the entry is present, writable, open to user code and keeps its other flags, and no other word changes; fails exactly when there is no frame |
| MemoryUnit.Memory.MapToPhyAddr | src/kernel/memory/page.cpp:17-37 | word by word: the entry of the page is present, writable, open to user code, has the frame and keeps bits 3 to 11, so does the directory entry of a new table, which is cleared otherwise, and no other word changes; the walk of the page, in every space that shares it, yields the frame, and no other translation below the recursive entry changes; stops exactly when no frame is left for a table |
| MemoryUnit.Memory.Unmap | src/kernel/memory/page.cpp:47-54 | clears the present bit of the entry and no other bit of memory, or nothing without a table; removes exactly that translation |
| MemoryInvariant.MapUserKeepsInv | src/kernel/memory/page.cpp:17-37 | mapping a marked user page to a free frame keeps the invariant: mapped pages are marked and have allocated frames of their own, no frame of a page is a table |
| MemoryInvariant.UnmapUserKeepsInv | src/kernel/memory/pool.cpp:159-176 | unmapping and freeing a user page keeps it |
| MemoryInvariant.MapKernelKeepsInv | src/kernel/memory/page.cpp:17-37 | mapping a kernel page keeps it, in all address spaces at once |
| MemoryInvariant.UnmapKernelKeepsInv | src/kernel/memory/pool.cpp:159-176 | unmapping a kernel page that is no page directory keeps it |
| MemoryInvariant.NewTableKeepsInv | src/kernel/memory/page.cpp:20-32 | a new page table keeps it |
| MemoryInvariant.AddrPoolKeepsInv | src/kernel/memory/pool.cpp:333-379 | marking pages, and unmarking unmapped ones, keeps it |
| PageAllocation.AllocAndMap | src/kernel/memory/pool.cpp:185-191 | one page of a run: the entry stored for it; which frames are spent, on the page and on a table, and exactly when that fails |
| PageAllocation.FreeAndUnmap | src/kernel/memory/pool.cpp:162-172 | one turn of the freeing loop: the frame that the page had is free, its entry is no longer present, its translation is gone, the invariant is kept |
| PageAllocation.FreePages | src/kernel/memory/pool.cpp:159-176 | frees exactly the frames of the run and its pages, removes exactly its translations, keeps all data, the invariant, and every marked page that is left mapped |
| PageAllocation.AllocAddr | src/kernel/memory/pool.cpp:180-184 | the leftmost run of pages is marked |
| TableNeeds.MissingGrows | src/kernel/memory/page.cpp:20-32 | one more page of a run needs one more table exactly when its directory slot has none and no page before lies in it |
| TableNeeds.StopsShort | src/kernel/memory/page.cpp:24-25 | a page that has a frame but gets no table shows that the tables of the whole run outnumber the kernel's frames |
| PageAccess.OpenMapped | src/kernel/memory/page.cpp:17-37 | a page that has been mapped has a table, and its entry lets user code read and write it |
| PageAccess.OpenKept | src/kernel/memory/page.cpp:17-37 | pages that user code can use, and that stay mapped, stay so when another page is mapped, with a new table or without |
| PageAccess.OpenAfterWrite | src/kernel/memory/pool.cpp:205-206 | and when a frame that holds no table is written |
| PageAllocation.MapRun | src/kernel/memory/pool.cpp:186-201 | the mapping loop: each page so far has a free frame of its own and an entry that is writable and open to user code, later ones none, nothing else is mapped; it ends exactly by the number of free frames, and stops exactly when the missing tables of the pages that have frames outnumber the kernel's free ones, in the state described |
| PageAllocation.ZeroPages | src/kernel/memory/pool.cpp:205 | clears the new pages and no frame that was in use |
| PageAllocation.UndoRun | src/kernel/memory/pool.cpp:192-201 | the rollback restores the address pool, the frame pool and all translations; page tables may stay |
| PageAllocation.AllocPages | src/kernel/memory/pool.cpp:178-207 | on success the leftmost run, zeroed, in frames that were free, writable and open to user code, and nothing else mapped; on failure everything is restored, or exactly the addresses stay marked when the first frame was missing; the exact condition of each outcome, the kernel's stop included; keeps the invariant, and every process's marked pages mapped but in that one case |
| PageAllocation.MarkedOffRun | src/kernel/memory/pool.cpp:159-207 | the marked pages of every process stay mapped when the pages of a run come or go |
| PageAllocation.LeftMarked | src/kernel/memory/pool.cpp:192-201 | a run left marked without frames leaves marked pages unmapped in the current process, and in no other |
| PageAllocation.DataWriteKeepsInv | src/kernel/memory/pool.cpp:205-206 | writing to a frame that holds no table changes no translation |
| PageAllocation.RollbackWalks | src/kernel/memory/pool.cpp:192-201 | mapping a run of unmarked pages and unmapping it again leaves every translation of every space as it was |
| PageAllocation.RollbackFrames | src/kernel/memory/pool.cpp:192-201 | the frames taken for a run are exactly those that freeing it gives back |
| Boot.BootKeepsInv | src/boot/loader.asm:315-371 | the tables of the loader and the pools of `InitMem` satisfy the invariant, for every memory size whose kernel half can be addressed |
| Boot.BootWalks | src/boot/loader.asm:344-355 | at boot nothing is mapped but the kernel image and its alias at address 0 |
| Boot.Start | src/kernel/memory/pool.cpp:291-327 | the kernel starts in a valid state: it has the first half of the frames behind the ones in use, users have the rest, every pool is free in whole bytes of its bitmap, and there is no process |
| Processes.NewDirKeepsInv | src/kernel/process/proc.cpp:107-121 | a new directory keeps the invariant of all spaces, changes no translation of the others and has an empty user half |
| Processes.AllocPageAtAddr | src/kernel/memory/pool.cpp:209-219 | marks and backs the page given; without a frame the mark stays; stops exactly when its table is missing and no frame is left for one |
| Processes.CopyPage | src/kernel/process/proc.cpp:193-207 | by way of the buffer and two switches of CR3: the child's page gets the parent's bytes and can be used by user code, its other pages as before, every other user page of every process is kept |
| Processes.CopyMemTo | src/kernel/process/proc.cpp:187-211 | copies all marked pages, which user code of the child can read and write; succeeds exactly when the user frames suffice for the pages and the kernel frames for the missing tables |
| Processes.CopyFails | src/kernel/process/proc.cpp:187-211 | when the loop runs out of frames or tables, the whole copy did not fit |
| Processes.KernelPagesKeepUser | src/kernel/memory/pool.cpp:178-207 | allocating kernel pages changes no user translation and no user byte |
| Forks.FirstFitLeaves | src/kernel/util/bitmap.cpp:109-141 | taking the leftmost run leaves the rest of any longer run, so a row of requests can be met |
| Forks.AllocKernelPages | src/kernel/memory/pool.cpp:178-207 | zeroed kernel pages in frames that hold no table, with user space untouched |
| Forks.KernelPageEverywhere | src/kernel/process/proc.cpp:107-121 | a kernel page allocated in one space is there, in the same frame, in every space |
| Forks.InitPageDir | src/kernel/process/proc.cpp:107-121 | the directory read through the recursive entry of the current one makes a new process with the shared kernel half and an empty user half: all of its 1024 words are stated |
| Forks.StartChild | src/kernel/process/proc.cpp:217-230 | all that `Fork` allocates before the copy, with user space untouched; succeeds when the kernel has the addresses and frames |
| Forks.Fork | src/kernel/process/proc.cpp:217-234 | the child's address bitmap equals the parent's, each marked page has the same bytes in both, no user frame is shared, all other user memory is unchanged, CR3 is back, and exactly the frames of the copy are spent; the marked pages of all processes stay mapped, the child's included; succeeds whenever there are enough |
| Forks.SeparateFrames | src/kernel/process/proc.cpp:187-211 | user pages of different processes never have a frame in common |
| Forks.CopiedThrough | src/kernel/process/proc.cpp:217-234 | a page copied in between is copied from start to end, over the allocations before and the free after |
| Heaps.BlockGeometry | src/kernel/memory/pool.cpp:75-80 | the blocks of an arena lie within its page, behind the header |
| Heaps.BlockPlaces | src/kernel/memory/pool.cpp:75-80 | block i lies behind the 12 bytes of the header and i blocks, and an arena has as many blocks as fit |
| Heaps.GetMinDesc | src/kernel/memory/pool.cpp:257-265 | the descriptor found is the smallest that fits |
| Heaps.LiveAreasDisjoint | src/kernel/memory/pool.cpp:543-595 | areas handed out never overlap in the bytes asked for |
| Heaps.AllFreed | src/kernel/memory/pool.cpp:503-537 | when everything has been freed, no arena is left, all free lists are empty, and every page and frame is back |
| Heaps.ArenaAddedKeeps | src/kernel/memory/pool.cpp:568-585 | a new arena keeps lists, counts and pages in agreement |
| Heaps.BlockTakenKeeps | src/kernel/memory/pool.cpp:587-593 | taking the first free block keeps them |
| Heaps.BlockReturnedKeeps | src/kernel/memory/pool.cpp:516-522 | returning a live block keeps them |
| Heaps.ArenaRemovedKeeps | src/kernel/memory/pool.cpp:525-535 | removing an arena of free blocks keeps them |
| Heaps.LargeAddedKeeps | src/kernel/memory/pool.cpp:552-562 | a large area keeps them, and is large enough with its header |
| Heaps.LargeRemovedKeeps | src/kernel/memory/pool.cpp:511-514 | freeing a large area keeps them |
| Heaps.WithoutBlocksMembers | src/kernel/memory/pool.cpp:527-531 | detaching the blocks of an arena one by one removes exactly these |
| Heaps.WithoutBlocksOrder | src/kernel/memory/pool.cpp:527-531 | the blocks that stay in the list stay in their order |
| Heaps.TakenBackMeans | src/kernel/memory/pool.cpp:503-537 | what freeing leaves, field by field: the block is last in its list, or all blocks of its page are out of it, the others in their order, and the page is free |
| Heaps.CountFull | src/kernel/memory/pool.cpp:525 | the count of an arena reaches the number of its blocks exactly when all of them are in the list |
| Heaps.Allocator.Allocate | src/kernel/memory/pool.cpp:543-595 | keeps the heap invariant: counts are right, every block is free or live and not both, no arena is wholly free; returns a new area of the smallest block size that fits: the head of the list, or the first block of the leftmost free page, whose other blocks are listed in order, or the leftmost run of whole pages; null and stop exactly when stated |
| Heaps.Allocator.Free | src/kernel/memory/pool.cpp:503-537 | takes back exactly that area and keeps the invariant; a block goes to the end of its list, and the page goes back exactly when all blocks of its arena are free |
| Heaps.Allocator.AllocPages | src/kernel/memory/pool.cpp:178-207 | the leftmost run of pages with a frame for each; otherwise nothing, except that the pages stay marked when not one frame is left |
| Heaps.Allocator.TakeBlock | src/kernel/memory/pool.cpp:587-594 | the head of the list is taken, and its arena counted a free block for it |
| Heaps.Allocator.ListBlocks | src/kernel/memory/pool.cpp:568-585 | the loop lists the blocks of a new arena in order, each one block size behind the one before |
| Heaps.Allocator.UnlistBlocks | src/kernel/memory/pool.cpp:525-533 | each block looked for is found, and all of them are detached; the others keep their order |
| Scheduling.Unblocked | src/kernel/thread/thd.cpp:307-315 | a parked thread becomes the first ready one; the assertion on the list holds |
| Scheduling.Scheduled | src/kernel/thread/thd.cpp:358-382 | the head of the list, or the idle thread, runs; exactly one thread runs and the list holds exactly the ready threads, once each |
| Scheduling.ScheduledSwitches | src/kernel/thread/thd.cpp:358-382 | field by field: a running thread goes to the end with its ticks restored, a parked one just leaves; the head of the list, or the idle thread, runs; no other thread changes |
| Scheduling.IdleParked | src/kernel/thread/thd.cpp:367-373 | when the list is empty in `Schedule`, the idle thread is blocked and unlisted |
| Scheduling.Scheduler.Schedule | src/kernel/thread/thd.cpp:358-382 | step by step: new ticks and a place at the end for a running thread, the idle thread if nothing is ready, then the head of the list; the new state of every thread and of the list is stated field by field; the assertions on the list hold on the way |
| Scheduling.Scheduler.Block | src/kernel/thread/thd.cpp:317-323 | the current thread is parked with its ticks kept and in no list, the head of the list runs, no other thread changes |
| Scheduling.Scheduler.Yield | src/kernel/thread/thd.cpp:341-347 | the current thread is ready and last, with the priority, the ticks left and the ticks counted that it had; the head of the list, or itself if it is alone, runs; no other thread changes |
| Scheduling.Scheduler.Unblock | src/kernel/thread/thd.cpp:307-315 | the parked thread is ready and first in the list, where it was not before; nothing else changes |
| Scheduling.Scheduler.Start | src/kernel/thread/thd.cpp:223-235 | a new thread joins the end of the list, in which it was not; nothing else changes |
| Scheduling.Scheduler.Create | src/kernel/thread/thd.cpp:201-221 | a new thread is in no list and does not run; it has as many ticks left as its priority, and none counted |
| Scheduling.Scheduler.Tick | src/kernel/thread/thd.cpp:284-294 | counts the tick, takes one from those left, and tells whether there was one |
| Scheduling.Scheduler.ClockIntrHandler | src/kernel/io/timer.cpp:134-141 | with ticks left, the current thread loses one and runs on; without, it goes to the end with all of them and the head of the list runs; the tick is counted, and no other thread changes |
| BoundedWaiting.OneEvent | src/kernel/thread/thd.cpp:307-382 | how each event moves a waiting thread, which runs when it is first and a switch happens |
| BoundedWaiting.PositionAccounts | src/kernel/thread/thd.cpp:307-382 | over any run, the position of a waiting thread accounts for every switch and every unblocking |
| BoundedWaiting.RunsSoon | src/kernel/thread/thd.cpp:307-382 | a thread at position k runs by the (k + 1 + u)-th switch, with u unblockings meanwhile |
| BoundedWaiting.TicksStayOk | src/kernel/thread/thd.cpp:284-294 | no thread ever has more ticks left than its priority |
| BoundedWaiting.TicksArePaid | src/kernel/thread/thd.cpp:284-294 | over any run, every clock interrupt is paid for by the current thread, the threads ahead or the threads unblocked |
| BoundedWaiting.RunsInTime | src/kernel/io/timer.cpp:134-141 | the wait in clock interrupts is bounded by what these may be charged, at most their priorities plus one each |
| Scheduling.BlockedAs | src/kernel/thread/thd.cpp:317-323 | blocking keeps exactly one thread running and the list right |
| Scheduling.Yielded | src/kernel/thread/thd.cpp:341-347 | yielding keeps them |
| Scheduling.Ticked | src/kernel/io/timer.cpp:134-141 | the clock interrupt keeps them |
| Scheduling.Started | src/kernel/thread/thd.cpp:223-235 | starting a thread keeps them |
| Scheduling.BlockedSwitches | src/kernel/thread/thd.cpp:317-323 | a thread that blocks keeps its ticks and is in no list |
| Scheduling.YieldedSwitches | src/kernel/thread/thd.cpp:341-347 | a thread that yields keeps its ticks and is last in the list |
| Scheduling.TickedSwitches | src/kernel/io/timer.cpp:134-141 | the clock takes one tick from a thread that has any, and otherwise puts it last with all of its ticks |
| Synchronization.InitialOk | src/kernel/thread/thd.cpp:454-460 | the first state, with a running main thread and unused semaphores and mutexes, satisfies all invariants |
| Synchronization.DecreaseStep | include/kernel/thread/sync.h:49-64 | a pass of the loop, letting the thread through or queueing it, keeps all invariants |
| Synchronization.IncreaseStep | include/kernel/thread/sync.h:35-47 | an increase, waking a waiter or not, keeps all invariants |
| Synchronization.AssertsHold | src/kernel/thread/sync.cpp:5-32 | the assertions between the statements of `Lock` and `Unlock` hold wherever a thread is |
| Synchronization.HolderFound | src/kernel/thread/sync.cpp:5-19 | `Lock` finds the caller as holder exactly when it has locks, as many as the repeat count says |
| Synchronization.StatementStep | src/kernel/thread/sync.cpp:5-32 | a statement on the fields that leaves them in order for its owner keeps all invariants |
| Synchronization.StatementFields | src/kernel/thread/sync.cpp:5-32 | each statement between the semaphore operations on holder, repeat count and place, and that it touches nothing else |
| Synchronization.GiveBackStep | src/kernel/thread/sync.cpp:24-27 | the last step of `Unlock` leaves the mutex without an owner and as new |
| Synchronization.StepKeepsOk | src/kernel/thread/sync.cpp:5-32 | every step of any thread, of the clock, and of an interrupt handler at any time, keeps all invariants of scheduler, semaphores and mutexes |
| Synchronization.RunsStayOk | src/kernel/thread/thd.cpp:307-382 | in every state of every run exactly one thread runs, the list is right, each waiter is in one wait list and blocked, values are in range, and every mutex has at most one owner |
| Synchronization.NoLostWakeUp | include/kernel/thread/sync.h:35-64 | while threads wait, at least as many woken ones as the value says are on their way to it, each of them ready or running; the value stays within its maximum |
| Synchronization.MutualExclusion | src/kernel/thread/sync.cpp:5-32 | at most one thread is between a returned `Lock` and its `Unlock`, it is the holder, and the repeat count is its locks |
| Synchronization.LastUnlockReleases | src/kernel/thread/sync.cpp:21-32 | the holder releases at exactly as many unlocks as locks |
| Semaphores.Semaphore.Increase | include/kernel/thread/sync.h:35-47 | at the maximum nothing changes; below, the value is one more and the first waiter, if there is one, leaves the list for the front of the ready list; this is the system's step on the semaphore of the same state |
| Semaphores.Semaphore.DecreasePass | include/kernel/thread/sync.h:49-64 | one pass of the loop: through with the value one less and the list as it was, or last in the list and blocked, while the head of the ready list runs; this is the system's step |
| WaitOrder.WaitersStep | include/kernel/thread/sync.h:35-64 | every step of the system leaves a wait list, adds the current thread at its end, or moves its first thread to the front of the ready list |
| WaitOrder.WaitersQueue | include/kernel/thread/sync.h:35-64 | every wait list of every run is a queue |
| WaitOrder.PlaceInWaitList | include/kernel/thread/sync.h:35-64 | in every run, a waiting thread with k others ahead moves up with each wake-up and with nothing else, and waits until k others have been woken |
| WaitOrder.WokenInOrder | include/kernel/thread/sync.h:35-64 | in every run, waiters are woken in the order in which they queued |
| TagLists.TagList.InsertBefore | src/kernel/util/tag_list.cpp:15-21 | rewriting four links inserts the tag at its place between the sentinels |
| TagLists.TagList.PushFront | src/kernel/util/tag_list.cpp:23-26 | refines putting in front |
| TagLists.TagList.PushBack | src/kernel/util/tag_list.cpp:28-31 | refines putting at the end |
| TagLists.Tag.Detach | src/kernel/util/tag_list.cpp:33-38 | refines removal from any place |
| TagLists.TagList.Pop | src/kernel/util/tag_list.cpp:40-46 | refines taking the first |
| TagLists.TagList.Find | src/kernel/util/tag_list.cpp:48-59 | terminates and decides membership |
| TagLists.TagList.FindIf | src/kernel/util/tag_list.cpp:61-73 | finds the first tag that the visitor accepts |
| TagLists.TagList.GetSize | src/kernel/util/tag_list.cpp:75-84 | counts the tags |
| TagLists.MoveFirst | include/kernel/thread/sync.h:39-43 | moving a tag from one list to the front of another keeps both in order |
| Sectors.DecodeEncode | src/kernel/io/disk/part.cpp:1045-1048 | words stored in a sector are read back |
| Sectors.EncodedWords | src/kernel/io/disk/part.cpp:1045-1048 | where the bytes of stored words lie: word k is the sum of its four bytes from 4k on, the low one first |
| Sectors.DecodedWords | src/kernel/io/disk/part.cpp:80-83 | which bytes loaded words come from, in the same order |
| NodeTable.NodeRoundTrip | src/kernel/io/disk/part.cpp:1400-1416 | a stored node is loaded as it was |
| NodeTable.NodeBytes | include/kernel/io/disk/file/inode.h:83-113 | the 76 bytes of a saved node: zero links, the number at byte 8, the size at 12, zero counts, the direct addresses from 24 on, the table at 72 |
| NodeTable.LoadedNode | src/kernel/io/disk/part.cpp:549-556 | a node is loaded with the numbers that the bytes of its slot stand for, wherever its slot lies |
| NodeTable.PatchedByte | src/kernel/io/disk/part.cpp:1400-1416 | where the read-modify-write of one or two sectors leaves each byte of the node area |
| NodeTable.PatchReplacesSlot | src/kernel/io/disk/part.cpp:46-67 | a slot is replaced, also across sectors, and no other slot changes |
| NodeTable.PatchKeepsBytes | src/kernel/io/disk/part.cpp:1400-1416 | no byte of the disk outside of the slot changes |
| IndexNodes.NodeFrame | src/kernel/io/disk/part.cpp:70-86 | a file keeps its blocks and content while the sectors of its blocks are kept |
| IndexNodes.ContentLies | src/kernel/io/disk/part.cpp:738-801 | a file has a byte at an offset exactly when that byte lies in the sector that the node, or the word of its table on the disk, names for it |
| IndexNodes.GrowNode | src/kernel/io/disk/part.cpp:474-488 | handing free blocks to one node keeps the accounts of the bitmap |
| IndexNodes.DropNode | src/kernel/io/disk/part.cpp:565-593 | returning all blocks of a node keeps them |
| FileLemmas.AppendContent | src/kernel/io/disk/part.cpp:1118-1140 | a grown node whose new bytes were written has the old content followed by the data |
| FileLemmas.AppendKeepsAccounts | src/kernel/io/disk/part.cpp:950-1147 | an append keeps the accounts, and the content of every other file |
| FileLemmas.GrowBlocks | src/kernel/io/disk/part.cpp:950-1115 | the blocks of a grown node are distinct and are the old ones, the new ones and a table when it outgrows its direct blocks |
| Layout.RegionsInOrder | src/kernel/io/disk/part.cpp:99-147 | the formatted regions are disjoint and in order within the partition given, every managed block is in the partition, and within the size limit at most one sector is wasted |
| Layout.WasteExactly | src/kernel/io/disk/part.cpp:99-147 | exactly when the sector is wasted |
| Layout.InitialBlockBitmap | src/kernel/io/disk/file/super_block.cpp:39-55 | the bitmap written marks the root block and the padding |
| FileParts.RootAccounted | src/kernel/io/disk/file/super_block.cpp:39-79 | the formatted bitmap accounts for the root directory |
| DiskImage.ReadWritten | src/kernel/io/disk/file/super_block.cpp:22-79 | sectors that have been written are read back |
| DiskImage.UnpackPack | src/kernel/io/disk/part.cpp:260-280 | a stored bitmap is loaded as it was |
| DiskImage.PackedBits | src/kernel/io/disk/file/super_block.cpp:39-67 | flag k of a stored bitmap is bit k mod 8 of byte k / 8 |
| DiskImage.SuperRoundTrip | src/kernel/io/disk/part.cpp:438-449 | a stored super block is recognised by its signature and loaded as it was |
| DiskImage.SuperBytes | include/kernel/io/disk/file/super_block.h:38-84 | the words of a stored super block at their places: sign, partition, number of nodes, the regions, and zeros |
| DiskImage.LoadedImage | src/kernel/io/disk/part.cpp:438-453 | the super block, its signature and the bitmaps are loaded from these words and bits of the disk |
| DiskImage.FormattedBytes | src/kernel/io/disk/file/super_block.cpp:18-102 | the bytes of a formatted partition: super block, both bitmaps, the root directory's node, and the entries "." and ".." |
| DiskImage.WriteTo | src/kernel/io/disk/file/super_block.cpp:18-102 | the five regions are written, and the bytes on the disk are those of a formatted partition; reading the disk back gives the super block and both bitmaps; no other sector changes |
| FileParts.RootLoaded | src/kernel/io/disk/file/super_block.cpp:69-79 | the node read from slot 0 is the root directory's, and no other node is live |
| FileParts.FilePart.Mount | src/kernel/io/disk/part.cpp:438-453 | the partition is what its super block and bitmaps on the disk say, and has exactly the nodes that the bitmap marks |
| FileParts.FilePart.Format | src/kernel/io/disk/part.cpp:107-147 | formatting and mounting gives a valid partition with the root directory only, which holds its two entries; the bytes on the disk are those of this partition |
| FileParts.FilePart.AllocBlock | src/kernel/io/disk/part.cpp:481-488 | takes a free block inside the data area, never an owned one; fails exactly when none is free |
| FileParts.FilePart.FreeBlock | src/kernel/io/disk/part.cpp:474-479 | frees that block only |
| FileParts.FilePart.Rollback | src/kernel/io/disk/part.cpp:1050-1063 | the undo loop restores the bitmap and the direct addresses |
| FileParts.FilePart.ReserveOne | src/kernel/io/disk/part.cpp:1030-1042 | one turn of the allocating loop; the assertions on the addresses hold |
| FileParts.FilePart.Reserve | src/kernel/io/disk/part.cpp:1028-1063 | allocates all blocks asked for, or none, exactly by the number of free ones |
| FileParts.FilePart.CollectLast | src/kernel/io/disk/part.cpp:952-965 | the block that has room is known, when no new one is needed |
| FileParts.FilePart.CollectDirect | src/kernel/io/disk/part.cpp:967-1006 | the node has grown by direct blocks, or nothing has changed |
| FileParts.FilePart.CollectMixed | src/kernel/io/disk/part.cpp:1008-1073 | the node has grown by a table and blocks on both sides of it, or nothing has changed |
| FileParts.FilePart.FillTable | src/kernel/io/disk/part.cpp:1027-1063 | the addresses behind the direct ones are stored in the new table, one word each, or everything is given back |
| FileParts.FilePart.CollectIndirect | src/kernel/io/disk/part.cpp:1075-1113 | the node has grown by blocks of its table, whose words on the disk are their addresses, or nothing has changed |
| FileParts.FilePart.CollectBlocks | src/kernel/io/disk/part.cpp:950-1115 | in all cases: grown by exactly the blocks needed, or unchanged, by the number of free blocks |
| FileParts.FilePart.WriteData | src/kernel/io/disk/part.cpp:1117-1141 | the loop leaves the data behind the old bytes, and the rest of the disk as it was |
| FileParts.FilePart.WriteChunk | src/kernel/io/disk/part.cpp:1122-1137 | one sector: the bytes before the chunk stay, its bytes arrive |
| FileParts.FilePart.WriteFile | src/kernel/io/disk/part.cpp:928-1147 | append or nothing, in the direct, mixed and indirect cases: content, other files, blocks, accounts, the bytes of the stored node, and each byte of the data in the sector that the node or its table on the disk names; when it fits, when not, and exactly when an assertion fails |
| FileParts.FilePart.Append | src/kernel/io/disk/part.cpp:950-1147 | succeeds exactly when enough blocks are free, the table included |
| FileParts.FilePart.SeekFile | src/kernel/io/disk/part.cpp:680-704 | the offset stays within the file, and is the one asked for exactly when that lies within it |
| FileParts.FilePart.ReadFile | src/kernel/io/disk/part.cpp:721-806 | returns exactly the bytes from the offset, as many as asked for or as there are, each from the sector that the node or its table on the disk names, and advances by as many; fails exactly when stated |
| FileParts.FilePart.ReadChunk | src/kernel/io/disk/part.cpp:789-801 | one sector: a stretch of the file from the offset on |
| FileParts.FilePart.CollectRead | src/kernel/io/disk/part.cpp:738-786 | the addresses collected are those of the blocks to be read; when an assertion fails |
| FileParts.FilePart.ReadData | src/kernel/io/disk/part.cpp:788-802 | the reading loop collects the bytes of the file from the offset on |
| FileParts.FilePart.PatchSlot | src/kernel/io/disk/part.cpp:1400-1416 | rewriting one or two sectors replaces the bytes of one slot and no other byte |
| FileParts.FilePart.SyncNode | src/kernel/io/disk/part.cpp:1400-1416 | saving a node changes the bytes of its slot only, to those that stand for it, and it can be loaded again |
| FileParts.FilePart.DeleteNode | src/kernel/io/disk/part.cpp:565-606 | frees exactly the blocks of the node, clears the bytes of its slot and no other byte, keeps every other file |
| FileParts.FilePart.FreeBlocksOf | src/kernel/io/disk/part.cpp:565-593 | the loop frees exactly the blocks that the node owns |
| FileParts.FilePart.AllocNode | src/kernel/io/disk/part.cpp:459-466 | the first free slot |
| FileParts.FilePart.CreateNode | src/kernel/io/disk/part.cpp:1196-1226 | a new empty node in the first free slot, whose bytes stand for it, while no other byte changes; fails exactly when all are live |
| Paths.NamesSplit | src/kernel/io/file/path.cpp:36-58 | a separator splits the names of a path, which with single names determines them |
| Paths.SkipSeparators | src/kernel/io/file/path.cpp:44-47 | skipping separators loses no name |
| Paths.CopyName | src/kernel/io/file/path.cpp:49-56 | the name goes to the buffer, within it and zero-terminated |
| Paths.Parse | src/kernel/io/file/path.cpp:36-58 | the first name is in the buffer, zero-terminated within it; the remaining path is the one right behind it, and has the other names |
| Paths.Visit | src/kernel/io/file/path.cpp:74-92 | terminates and shows all names in order with the remaining paths, up to the first that is refused |
| Paths.VisitsHaveNames | src/kernel/io/file/path.cpp:74-92 | the visits are those of the path's names, each with the path right behind its name |
| Paths.GetDepth | src/kernel/io/file/path.cpp:60-72 | the depth is the number of names |
| Paths.NamesOfJoined | src/kernel/io/file/path.cpp:134-165 | the joined path has the names of the parent followed by those of the child, so depths add up |
| Paths.JoinedIsJoin | src/kernel/io/file/path.cpp:134-165 | the joined path keeps the text of the parent; it begins with a separator exactly when the parent, or else the child, does or both are empty; it ends with one exactly when the child is a directory; a child with a name brings no doubled separator |
| Paths.JoinOnce | src/kernel/io/file/path.cpp:134-165 | these laws and the names leave one path only |
| Paths.FileNameIsLast | src/kernel/io/file/path.cpp:21-29 | the file name of a path is the last of its names, and empty for a directory |
| Paths.Path.Join | src/kernel/io/file/path.cpp:134-165 | the steps on the buffer give the joined path, within its length and zero-terminated; the same laws are stated of its text |
| Paths.Path.Append | src/kernel/io/file/path.cpp:141-155 | one name is appended, after a separator exactly when the text is not empty and does not end with one |

## Left out

- The contents of words that are not page tables are moved by whole frames and sectors: `memcpy` and `memset` are single steps on them, except for clearing a page table, which is done word by word.
- The TLB: `DisableTlbEntry` has no effect on the walk.
- The accessed and dirty bits, which a processor sets in entries as it walks: entries change by the kernel's stores only.
- Assembly stacks, `SwitchThread`, TSS and GDT: a switch changes the current thread, and CR3.
- The loops of the loader that write the first tables: `Boot.IsBootMemory` describes what they leave.
- The buffers in which formatting prepares bitmaps and nodes: these are values here.
- Devices, interrupt controllers, the shell, system call stubs and program loading.
- Processes.CopyMemTo: a copy that finds no frame ends there; in the code the write to the unmapped page faults.
- Forks.Fork: the objects of process and thread, descriptors and the child's heap are pages of zeros; process numbers are left out. That it succeeds is stated for enough consecutive kernel addresses, because smaller runs may or may not be enough, depending on where they lie.
- The locks around the pools: allocations are single steps here.
- Pools and heap use the sequence of bits that `Bitmap` implements, and the lists of scheduler, semaphores and heap the sequences that `TagList` implements.
- Heaps.Allocator.Allocate: sizes are below 4 GB less a page, so that the sum with the header does not wrap; the pages come from one pool as the kernel's do, for which tables exist.
- The list of all threads, stack guards and the end of threads, which the kernel does not have.
- Thread start-up: `Start` sets the status and lists the thread in one step, though it has no guard of its own; the kernel calls it with interrupts off.
- `Mutex` has no class: its statements are steps of the system, because other threads run in between. Its repeat count does not wrap.
- `Sleep` and `BlockQueue`, which are built from `Yield`, and from `Block` and `Unblock`; the model has these.
- The copies of the bitmaps on disk once a partition is mounted: the accounts are about those in memory, and a new table's bit is not written at once by the code.
- FileParts.FilePart.Mount: index nodes are loaded one by one when they are opened; here all live ones are there at once.
- FileParts.FilePart.WriteFile: memory for its buffers is there, which the code asserts; buffers that early returns do not free are not counted.
- FileParts.FilePart.CreateNode: the directory entry of a new file, and the undoing when it cannot be written.
- Directories, path search, opening by path, and the sharing of descriptors.
- Paths.Path.Join: names of at most 16 characters and results of at most 512, as the buffers demand; a path is zero-filled at first.
- Path strings are zero-terminated, as all callers' are; a view into a longer text is not modelled.
