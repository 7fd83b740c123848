# UIX, modelled and proved in Dafny

UIX is an x86_64 kernel. This project models the parts of it that keep the most state (paging with
copy-on-write, the physical page allocator, the kernel heap, the scheduler with exit and wait4, the
ELF loader, the UIXFS reader with its packer) and the write-back cache with its undo log in the
vendored boot loader installer, and proves what they keep over every input and every run.

- **Memory.** Physical memory is a sequence of pages of 512 words (`PageTables`). Every page that
  serves as a table carries a ghost label, its position in an address space; that makes the tree a
  local property of each table. `Pmm` is the allocator, `Vmm` the manager over it. `Fork`, `Spaces`,
  `Maps`, `Cow` and `Clone` say on values what one operation does to every walk of every space: where it
  ends (`Walk`), and what a program may do there by all the entries it passes (`Access`, `Above`);
  `Teardown`, `Lifecycle` and `Exec` give a space back; `Memory` and `Elf` fill one with the bytes of
  an image; `Sharing` is about what a fork leaves shared.
- **Heap.** `Blocks` is the heap as blocks that tile an interval, `Coalesce` the sort-and-merge of
  kfree, `Heap` the code, `Fragments` a run that kfree cannot serve.
- **Tasks.** `Sched`, `Syscalls` and `Processes` are the lists, the wakeups and the system calls as
  values; `Runs` is the transition system with the theorems over runs, `Calls` says what each event does
  in the fields of tasks, `Fairness` the waiting times, `Steps` and `Kernel` the code and its refinement
  of that system, `LostWakeup` two concrete runs.
- **Installer.** `BlockCache` is the one-block cache over a device, `UndoLog` the log and its file,
  `Installer` whole installations.
- **Files.** `Image` is the packer, `Uixfs` the reader, `RoundTrip` the two together.
- **Common.** `Common` and `Bytes` hold what several modules use.

Where a predicate is marked "folded", it wraps its meaning in a quantifier that only the lemma named
beside it opens. That changes what the verifier unfolds, not what is stated.

## Model

| member | source | states |
|---|---|---|
| `Pmm.Pmm.Init` | core/memory/pmm.c:29-90 | fails exactly when no usable region has room for the bitmap and one page more; otherwise the free pages are exactly the usable ones without the bitmap's own, and free_count is their number |
| `Pmm.BitmapPages` | core/memory/pmm.c:47-49 | enough pages for one bit per page, and one less is not enough |
| `Pmm.Pmm.Alloc` | core/memory/pmm.c:92-104 | wherever the cursor stands, 0 exactly when nothing is free; otherwise the free page first met going round from the cursor, and no other page changes hands |
| `Pmm.Pmm.FindRun` | core/memory/pmm.c:154-174 | finds a run of n free pages exactly when n > 0 and one exists, and then the lowest |
| `Pmm.Pmm.AllocPages` | core/memory/pmm.c:154-174 | takes exactly the lowest run of n free pages, or changes nothing |
| `Pmm.Pmm.Free` | core/memory/pmm.c:176-183 | succeeds exactly for a managed page that is not free; the panic of a double free is the other case |
| `Pmm.Pmm.GrowRefs` | core/memory/pmm.c:112-121 | creates the count array exactly when a run of pages for it exists, takes exactly the lowest such run for it, and changes no count; otherwise it takes nothing |
| `Pmm.RefPages` | core/memory/pmm.c:117 | enough pages for two bytes per page, and one less is not enough |
| `Pmm.Pmm.Ref` | core/memory/pmm.c:123-131 | one more reference for that page alone, saturating at 65535; the first one takes the pages of the count array, and no other takes any |
| `Pmm.Pmm.Unref` | core/memory/pmm.c:133-144 | one reference less, and the page freed at the last one; it panics exactly when that page is free already |
| `PageTables.SamePageIffPageNumber` | core/memory/vmm.c:16-19 | the four indices of two addresses agree exactly when bits 12 to 47 do |
| `PageTables.WalkAgree` | core/memory/vmm.c:103-129 | a walk depends on nothing but the entries on its labelled path |
| `PageTables.PositionsUnique` | core/memory/vmm.c:35-76 | two tables of the user half never serve the same position of a space |
| `Vmm.Vmm.PtFor` | core/memory/vmm.c:35-76 | the page table on va's path; tables that had to be made are empty, on that path, change no translation in any space and take nothing from what the walks through them grant |
| `Vmm.Vmm.Map` | core/memory/vmm.c:83-91 | panics exactly when va is mapped by a 4 KiB page, meets a null table exactly under a large page, and otherwise maps va or finds no page for a table |
| `Maps.MapWalks` | core/memory/vmm.c:35-91 | the mapped page translates to the new entry, no other page of any space translates differently, and a user page shows in its own space only |
| `Maps.MapAccess` | core/memory/vmm.c:35-91 | at the mapped page a program may do exactly what the new entry and every entry above it grant, all that the new entry grants if those above grant everything; what it may do at any other page of any space stays |
| `Maps.KernelMapShowsIff` | core/memory/vmm.c:83-91 | a kernel page mapped in one space shows in another exactly when that one's walk reaches the page table written, and otherwise nothing changes there |
| `Maps.KernelMapShowsByRootEntry` | personality/fs/uixfs.c:25-26 | with equal root entries before, the page shows in the other space if that entry was present, and does not if it had to be made |
| `Vmm.Vmm.Unmap` | core/memory/vmm.c:93-101 | clears exactly the entry of va, if va has a page table |
| `Maps.UnmapWalks` | core/memory/vmm.c:93-101 | the page is gone and no other page of any space translates differently |
| `Maps.UnmapUndoesMap` | core/memory/vmm.c:83-101 | map then unmap restores every translation in every space |
| `Vmm.Vmm.Translate` | core/memory/vmm.c:103-129 | agrees with the walk of the hardware, through 4 KiB, 2 MiB and 1 GiB pages |
| `Vmm.PhysAddr` | core/memory/vmm.c:103-129 | a 4 KiB page translates to the address of its frame; an address in a large page keeps its offset, in the block of that size that holds the frame |
| `Vmm.Vmm.Probe` | core/kmain.c:42-53 | what the kernel checks at boot, on the code itself: a page mapped where nothing was translates to itself, and once unmapped and freed every space translates every address as before |
| `Vmm.Vmm.CopyRoot` | core/memory/vmm.c:167-181 | takes the first free page from the cursor; the new root has an empty user half and the kernel half of the page pml4 points to, or nothing at all if that is the page taken |
| `Vmm.Vmm.CreateSpace` | core/memory/vmm.c:167-181 | a fresh root with the kernel half of the current one and an empty user half, or 0 exactly when nothing is free |
| `Spaces.SpaceMadeWalks` | core/memory/vmm.c:167-181 | the new space maps nothing for the user, with tables that will grant everything, and the kernel half as before; no other space changes |
| `Clone.FinishCopy` | core/memory/vmm.c:183-208 | a table whose 512 entries have been cloned translates every address below it as the original |
| `Vmm.Vmm.CloneTable` | core/memory/vmm.c:183-208 | a clone made of fresh tables only, under which every address translates as under the original, through large pages too, and the entries above the leaf grant the same user access and writing |
| `Vmm.Vmm.Init` | core/memory/vmm.c:276-294 | the kernel runs on a clone under which every address translates as before, no table is left hanging, and without user leaves in the boot tables every page count is exact: the start of the runs below |
| `Vmm.Vmm.ForkUserSpace` | core/memory/vmm.c:250-274 | makes a child of which the rows on forked spaces below hold, or stops because no page is free or no run for the count array is left |
| `Vmm.Vmm.ForkTable` | core/memory/vmm.c:219-248 | copies one table recursively into fresh tables: below both copies every address translates as before, user leaves without the write bit and with the mark, the entries above grant what they did, and everything else stays |
| `Spaces.ForkedSpaceWalks` | core/memory/vmm.c:219-274 | parent and child translate every user address alike and as the parent did, every user leaf with the write bit clear, the mark set and all else as it was; the entries above grant what the parent's did |
| `Spaces.ForkedSpaceElsewhere` | core/memory/vmm.c:250-274 | the kernel half is that of the parent, and every other space is unchanged |
| `Spaces.ForkedSpaceAccess` | core/memory/vmm.c:219-248 | neither of the two may write a page that users could reach, and both may reach and execute what the parent could |
| `Spaces.ForkedSpaceSpends` | core/memory/pmm.c:112-131 | a fork takes from the free pages exactly the child's tables and, when it stores the first counts, the lowest run left that holds the count array; it stores counts exactly when a managed page gains an entry |
| `Spaces.ForkedSpaceFresh` | core/memory/vmm.c:250-274 | the child's user tables are fresh pages apart from every table there was, nobody's data changes, and stored counts move with the number of entries |
| `Spaces.ForkedSpaceInv` | core/memory/vmm.c:219-274 | fork keeps every table linked and every user page allocated |
| `Vmm.Vmm.PageFault` | core/memory/vmm.c:296-328 | handled exactly for a write to a present page (error bits 0 and 1) at an address below 2^47 whose leaf is a marked user page; everything else is left alone |
| `Cow.FaultChangesNoView` | core/memory/vmm.c:296-328 | a handled fault changes no word that any space reads at any user address |
| `Cow.FaultMakesWritable` | core/memory/vmm.c:305-326 | at the faulting address the program may afterwards do everything that the tables above grant, writing included, but execute only if it could before; the mark is gone, and elsewhere what a program may do stays |
| `Cow.FaultPrivateIfCounted` | core/memory/vmm.c:305-323 | were the count at least the number of entries, the faulting entry would end as the only one naming its page |
| `Cow.FaultPrivateIff` | core/memory/vmm.c:308-323 | the page is private after the fault exactly when its stored count exceeds 1 or it had one entry |
| `Cow.FaultPrivateUnlessTwo` | core/memory/vmm.c:308-323 | with the counts the code keeps, exactly when the page does not have two entries |
| `Cow.StoreLeaks` | core/memory/vmm.c:308-326 | with two entries, a word stored after the fault is read in the other space |
| `Cow.WriteAfterForkIsShared` | core/memory/pmm.c:92-152 | map, fork, and a write fault in the parent leave parent and child on the same page, writable for the parent |
| `Cow.UnrefGivesAwaySharedIffTwo` | core/memory/pmm.c:133-144 | dropping one entry frees a page another entry still names exactly when the page had two |
| `Cow.StepKeeps` | core/memory/vmm.c:83-328 | every operation (space, user map, kernel map, fork, fault, writes by programs) keeps the tables in order, and below saturation the exact counts |
| `Cow.CountIsSharersMinusOne` | core/memory/pmm.c:92-152 | over every run without teardown and below saturation the stored count of a page is its number of user entries minus one |
| `Cow.TablesGrantTheSame` | core/memory/vmm.c:35-328 | over every run without teardown the tables of every space grant the same at every address |
| `Exec.FreeUserTables` | core/cpu/exec.c:31-45 | frees every table and takes one reference from every page below a table once, shared or not, and reaches no panic |
| `Exec.TearDown` | core/cpu/exec.c:127-137 | tearing down a whole space gives back exactly its root, its tables and the pages whose last reference goes, takes exactly one from the count of every page it shares, and changes no other count |
| `Lifecycle.LifeIsBalanced` | core/cpu/exec.c:126-185 | after any life of a space (made, pages mapped, memory written) its root, tables and pages are exactly the pages taken since before it was made |
| `Lifecycle.LifeGrantsAll` | core/cpu/exec.c:126-185 | throughout such a life the tables grant everything at every user address, so that a page may be used as its own entry says |
| `Lifecycle.TeardownRestoresFreeIff` | core/memory/pmm.c:133-144 | teardown gives exactly those back if and only if the count array exists or the space has no page mapped |
| `Exec.EndOfLife` | core/cpu/exec.c:31-45 | run on the allocator, teardown restores the original free pages and free_count exactly under that condition |
| `Exec.LoadFresh` | core/cpu/exec.c:126-152 | after a load into a fresh space that is the case for every aligned segment: the tables above grant it all |
| `Exec.LoadThenTearDown` | core/cpu/exec.c:126-152 | a fresh space, any image loaded into it or given up for want of a page or refused, and the teardown leave the allocator with exactly the free pages and free_count it had; only the panics of vmm_map and vmm_create_space are left aside |
| `Exec.ReplaceSpace` | core/cpu/exec.c:127-141 | the space that execve makes from the root it has just freed has the old kernel half exactly when some page that is free or freed comes before that root from the cursor on |
| `Sharing.GivesAwayIffTwo` | core/cpu/exec.c:31-45 | teardown gives away a page that another space still maps exactly when the page has two entries in all |
| `Sharing.ForkedTearable` | core/memory/vmm.c:250-274 | after a fork both spaces can be torn down, each with every page once, if the parent could |
| `Sharing.MapForkWrite` | core/memory/vmm.c:83-328 | on the code itself: map a page, fork, and take a write fault in the parent, and every word the parent stores there is read by the child |
| `Sharing.MapForkExec` | core/cpu/exec.c:127-137 | on the code itself: map a page, fork, and tear the child down, and the page is free while the parent still maps it |
| `Memory.PageRoundTrip` | core/cpu/elf.c:47-58 | the bytes copied into a page, which is 512 words with the fields that the page table code looks at, read back |
| `Memory.FilledMem` | core/cpu/elf.c:43-49 | clearing, mapping and filling a free page adds that page with those bytes to one space and changes nothing else there or in any other space |
| `Memory.AddressesAlias` | core/memory/vmm.c:16-19 | an address and the one 2^48 above it share every table entry |
| `Elf.CheckHeader` | core/cpu/elf.c:14-30 | accepts exactly the images the checks describe, with the size of the header table computed in 64 bits |
| `Elf.AcceptedIsPlainIff` | core/cpu/elf.c:28-30 | an accepted table of 56-byte headers lies in the image exactly when that computation does not wrap |
| `Elf.HeaderReadsBack` | include/uix/elf.h:12-19 | a file header laid out as the ELF-64 format says is read field by field, and the file accepted if it has program headers of 56 bytes or more that lie in it |
| `Elf.AcceptedHeader` | core/cpu/elf.c:14-30 | and an accepted file begins with such a header |
| `Elf.SegReadsBack` | include/uix/elf.h:21-24 | a program header laid out as that format says is read field by field |
| `Elf.InSegIff` | core/cpu/elf.c:36-40 | the pages loaded for a segment are exactly those that meet its memory |
| `Elf.LoadPage` | core/cpu/elf.c:42-60 | one page of a segment: in place through the page tables with the segment's bytes, or refused for lack of a page exactly when none is free, or a panic exactly on a page mapped already |
| `Elf.Load` | core/cpu/elf.c:10-62 | a load succeeds only if no segment wants a page that is mapped or that an earlier one holds, and a panic means that one does; after a load every page of every segment is mapped for the user with the segment's bytes, every other page of this and of every other space is what it was, and counts are as exact as before; no memory means that no page is free |
| `Elf.SegmentBytes` | core/cpu/elf.c:36-60 | every address of an aligned segment's pages holds, through the walk of the hardware, the file's byte or zero, and by every entry of that walk the user may read, write and execute it |
| `Elf.AsMeantIff` | core/cpu/elf.c:51-52 | a segment is laid out as program header semantics say exactly when it is aligned or no file byte but zero falls before the first page boundary |
| `Elf.UnalignedByteIsLost` | core/cpu/elf.c:51-52 | one byte at address 1 is an image for which it is not |
| `Blocks.EveryByteInOneBlock` | core/memory/heap.c:16-28 | every byte of the heap lies in exactly one block, free or live |
| `Blocks.HeapAddsUp` | core/memory/heap.c:30-54 | free and live blocks together are exactly as long as the heap |
| `Blocks.PayloadsDisjoint` | core/memory/heap.c:56-92 | live blocks never overlap |
| `Blocks.AcceptedHasRoomIff` | core/memory/heap.c:58-61 | an accepted request gets room for its bytes and the header exactly when their sum does not wrap in 64 bits |
| `Blocks.WrappedRequestAccepted` | core/memory/heap.c:58-61 | the largest size is accepted, for a block of 15 bytes |
| `Heap.Heap.Grow` | core/memory/heap.c:30-39 | maps a chunk exactly when 16 pages are left and the chunk ends no higher than where tools/linker.ld puts the kernel image |
| `Heap.Heap.Init` | core/memory/heap.c:41-54 | one free block over the first chunk: the start of the heap invariant |
| `Heap.Heap.Find` | core/memory/heap.c:62-66 | the walk ends at the first block that fits, with the block before it, or at the end of the list |
| `Heap.Heap.Kmalloc` | core/memory/heap.c:56-92 | null exactly for 0 and for more than 32752 bytes; a panic exactly when nothing fits and the heap cannot grow; otherwise a block of its own, with room for the request and less than 48 bytes more, out of free or fresh bytes, every live block left alone, and the heap in order |
| `Heap.GrownServes` | core/memory/heap.c:84-91 | after one grow every request is served at once, so the recursion is one deep |
| `Heap.InsertionSort` | core/memory/heap.c:111-120 | puts any array in ascending order in place, with every element as often as before |
| `Heap.Heap.Merge` | core/memory/heap.c:122-137 | rebuilds the list in address order with no two blocks touching, over the same bytes |
| `Heap.Heap.Kfree` | core/memory/heap.c:94-138 | panics exactly on a block not in use, finds no slot exactly when 256 blocks are free, and otherwise leaves a sorted list of blocks that do not touch, covering exactly the old free bytes and the freed block |
| `Fragments.FreeEveryOther` | core/memory/heap.c:105-109 | 514 allocations of 16 bytes and the freeing of every other one end in a call of kfree that finds no slot |
| `Sched.ScheduledLists` | core/cpu/sched.c:123-166 | schedule takes the head of the queue and puts the old task at its end if it still runs |
| `Sched.ScheduledPlaces` | core/cpu/sched.c:123-166 | and leaves every task where its state says, the new one running |
| `Calls.WakeupMovesWaiters` | core/cpu/sched.c:85-103 | the wakeup moves exactly the tasks that wait for any child and have the parent's pid, or wait for the pid that exits, to the end of the run queue, in order, and leaves the rest blocked in theirs |
| `Calls.ExitWakesCallers` | core/cpu/syscall.c:24-32 | over a whole exit a blocked task ends ready on the run queue exactly when it is one of those; every other one keeps its state and its place, and the task that was first in the queue runs |
| `Calls.ExitLeavesZombie` | core/cpu/syscall.c:24-32 | the task that exits is a zombie with its pid and parent and the low 32 bits of the code, signed; tasks that were not blocked and do not run next keep everything |
| `Calls.WaitReturnsIff` | core/cpu/syscall.c:103-125 | the first pass hands over pid and status of the newest zombie child asked for, which is dead then, if there is one; exactly if there is none the caller sleeps |
| `Calls.LookReturnsIff` | core/cpu/syscall.c:109-119 | a later pass hands over a zombie child asked for, or finds none exactly when there is none |
| `Calls.ForkMakesChild` | core/cpu/fork.c:13-69 | the child has a pid that no task has and the caller as its parent, is ready and last in the queue; every other task keeps everything |
| `Calls.TickSwitchesIff` | core/cpu/sched.c:180-187 | a tick switches to the first task of the queue exactly after a yield or on the second tick of a slice, and puts the task that ran last |
| `Calls.YieldGivesWay` | core/cpu/sched.c:193-197 | after a yield the next tick switches |
| `Processes.SleepLosesNoneIff` | core/cpu/syscall.c:109-124 | blocking in one go, as the first pass does, loses no wakeup exactly when no zombie that was asked for is there |
| `Processes.MarkKeeps` | core/cpu/sched.c:73-77 | the state write of a late task_block_any keeps the system in order, and loses no wakeup exactly when no zombie that was asked for is there at that moment |
| `Processes.ExitKeeps` | core/cpu/syscall.c:24-32 | an exit keeps the system in order, and loses no wakeup exactly when no stranded task asks for the one that exits |
| `Processes.BlockInThree` | core/cpu/sched.c:73-83 | the three parts of a late task_block_any, undisturbed, are what the first pass does at once |
| `Runs.StepKeeps` | core/cpu/sched.c:24-197 | every event keeps the system in order, and from a state in which no wakeup is lost it loses one exactly when it is an unclear mark or the exit of a task that a stranded one asks for |
| `Runs.TasksAreInPlaceIff` | core/cpu/sched.c:24-166 | up to any point of any run, the running task has been current, every ready one on the queue once, every blocked one on the blocked list once, the others on neither, rq_size the length, and an empty queue a sign of the bootstrap task, exactly when no tick switched tasks between the two writes of a late task_block_any |
| `Runs.OnlyStrandedOutOfPlace` | core/cpu/sched.c:24-166 | in every reachable state whatsoever only a task that such a tick struck is out of place: blocked, and on no list |
| `Runs.NoLostWakeupIff` | core/cpu/syscall.c:103-125 | up to any point of any run no task has slept on a zombie child it asked for exactly when no late pass marked itself while such a zombie was there and none exited that a stranded task asks for |
| `Runs.SleepersAreSafeIff` | core/cpu/sched.c:73-103 | up to any point of any run every sleeper has been where an exit finds it, with no child it asked for a zombie, exactly when every late mark was clear and no tick struck between the two writes |
| `Runs.LookThenMark` | core/cpu/syscall.c:109-124 | with nothing between the look and the mark of a pass, no such zombie is there |
| `Runs.NoTaskSleepsOnAZombie` | core/cpu/syscall.c:103-125 | so with passes atomic no task ever sleeps on a zombie child it asked for |
| `Runs.ReturnedAfterExit` | core/cpu/syscall.c:24-32 | wait4 returns a pid only after it exited, with the status of that exit |
| `Runs.ReturnedAtMostOnce` | core/cpu/syscall.c:103-125 | over any run each pid is returned at most once |
| `LostWakeup.WakeupIsLost` | core/cpu/sched.c:168-172 | a run in which a tick between look and mark loses a wakeup although none strikes between the writes |
| `LostWakeup.StrikeIsLost` | core/cpu/sched.c:73-83 | a run in which a tick between the two writes loses a wakeup although every mark was clear |
| `Kernel.Kernel.constructor` | core/cpu/task.c:77-85 | the bootstrap state is in order |
| `Kernel.Kernel.Schedule` | core/cpu/sched.c:123-166 | the linked-list code does what the value-level schedule does |
| `Kernel.Kernel.WakeupChildren` | core/cpu/sched.c:85-103 | the unlinking walk through one shared link field does what the value-level wakeup does: exactly the waiters move to the queue |
| `Kernel.Kernel.FindZombieTask` | core/cpu/task.c:23-30 | the newest registered zombie child that was asked for, or null exactly if there is none |
| `Kernel.Kernel.Tick` | core/cpu/sched.c:180-191 | is the Tick event |
| `Kernel.Kernel.Yield` | core/cpu/sched.c:193-197 | is the Yield event |
| `Kernel.Kernel.Exit` | core/cpu/syscall.c:24-32 | is the Exit event, and wakes exactly the tasks that wait for the one that exits |
| `Kernel.Kernel.Fork` | core/cpu/fork.c:13-69 | is the Fork event, for the task fields, and changes nothing when kzalloc gives no memory |
| `Kernel.Kernel.Wait4` | core/cpu/syscall.c:103-125 | is the first pass of wait4, and reports the pid and status it returns |
| `Kernel.Kernel.LookAgain` | core/cpu/syscall.c:109-119 | is the Look event for the zombie it finds, the search of a later pass |
| `Kernel.Kernel.MarkAgain` | core/cpu/sched.c:75-77 | is the Mark event |
| `Kernel.Kernel.PushAgain` | core/cpu/sched.c:78-79 | is the Push event |
| `Kernel.Kernel.CallAgain` | core/cpu/sched.c:80-83 | is the Call event, which returns into the next pass |
| `Fairness.RunsAfterItsTurn` | core/cpu/sched.c:123-166 | a task at queue position p becomes current at exactly the (p+1)-th call of schedule that dequeues, whatever is enqueued meanwhile |
| `Fairness.RunsWithinTwoTicksEach` | core/cpu/sched.c:180-197 | and within 2(p+1) timer ticks |
| `BlockCache.Device.Flush` | boot/limine/limine-install.c:266-285 | makes the device equal to what reads show |
| `BlockCache.Device.CacheBlock` | boot/limine/limine-install.c:287-312 | changes the cached block and nothing that reads show |
| `BlockCache.Device.Read` | boot/limine/limine-install.c:445-465 | returns exactly the bytes that a flat device would, for every block size |
| `BlockCache.Device.Write` | boot/limine/limine-install.c:467-522 | fails exactly when the log is full; otherwise changes exactly the range written, as seen by reads, and logs what was there |
| `BlockCache.Device.ReverseLog` | boot/limine/limine-install.c:328-334 | reverses the log in place |
| `BlockCache.Device.Uninstall` | boot/limine/limine-install.c:524-574 | writes the log in order onto the device as it is without the dirty block |
| `UndoLog.ReversedReplayRestores` | boot/limine/limine-install.c:328-334 | replaying the reversed log restores the original bytes, whatever the device holds where the log wrote |
| `UndoLog.Store` | boot/limine/limine-install.c:342-380 | stores the encoding of the log exactly when no entry is empty |
| `UndoLog.Load` | boot/limine/limine-install.c:382-443 | loads a log exactly when it can be stored and the file begins with its encoding |
| `Installer.Install` | boot/limine/limine-install.c:467-522 | succeeds exactly when the writes number at most 256; readers then see the original bytes with every write applied in order, and the log names exactly those writes and with the device determines the original bytes |
| `Installer.InstallThenUndo` | boot/limine/limine-install.c:1205-1210 | an installation given up at any point is undone to the byte |
| `Installer.InstallThenUninstall` | boot/limine/limine-install.c:1205-1213 | a failed installation is undone to the byte; a completed one leaves the device itself with every write applied, and can be uninstalled by a later process, to the byte, exactly when no write was empty |
| `Installer.InstallStages` | boot/limine/limine-install.c:1170-1193 | the writes of bios_install leave the boot sector with the place of stage 2 in it and with the old timestamp and partition table, stage 2 at its place, and every other byte of the device as it was |
| `Image.Pack` | tools/mkuixfs.py:10-29 | every directory entry and every file is where the format says, whatever was packed after it |
| `Uixfs.StrCmp` | core/lib.c:76-82 | 0 exactly for equal C strings |
| `Uixfs.Fs.Mount` | personality/fs/uixfs.c:53-83 | succeeds exactly on a mountable disk, and then holds its directory |
| `Uixfs.PagesFor` | personality/fs/uixfs.c:39-51 | enough pages for the bytes of a file, and one less is not enough |
| `Uixfs.Fs.Read` | personality/fs/uixfs.c:90-120 | the answer for any name, and on success the bytes of the first file of that name in a buffer for which exactly the needed pages were taken |
| `RoundTrip.PackedAnswer` | personality/fs/uixfs.c:90-120 | on a packed image the answer for a cut name is the file's size, or no memory exactly when the file is empty or no run of pages is free |
| `RoundTrip.FullNameFoundIff` | tools/mkuixfs.py:22-24 | the name as given to the packer is found exactly when it has at most 23 bytes |
| `RoundTrip.PackMountRead` | tools/mkuixfs.py:10-29 | pack, mount and read returns exactly the packed bytes |

## Findings

Properties that the code does not have, each with the exact condition under which it does.

- **A write is private after a copy-on-write fault.** pmm_alloc leaves a count at 0 and the first
  fork raises it to 1 while two spaces share the page; the fault copies only above 1
  (core/memory/vmm.c:308). `FaultPrivateIff` gives the condition on the stored count,
  `FaultPrivateUnlessTwo` with the counts the code keeps: private exactly when the page does not have
  two entries. `StoreLeaks` and `MapForkWrite` show the case of one fork.
- **exec frees only pages nobody else uses.** `UnrefGivesAwaySharedIffTwo` for one reference and
  `GivesAwayIffTwo` for a whole space: it gives away a page that is still in use exactly when the page
  has two entries. `MapForkExec` gets there.
- **exec gives back every page of the old space.** Before the first fork there is no count array, and
  pmm_unref returns at once (core/memory/pmm.c:136). `TeardownRestoresFreeIff`: everything comes back
  exactly when the array exists or nothing is mapped.
- **The space that exec makes has the kernel half.** core/cpu/exec.c:136-140 frees the active root and
  then copies its kernel half into the page that pmm_alloc gives, cleared first. `ReplaceSpace`: the
  new space has it exactly when that page is not the old root.
- **kmalloc gives room for what it accepts.** `AcceptedHasRoomIff`: exactly when n + 16 does not wrap;
  `WrappedRequestAccepted` is an n for which it does.
- **kfree can free any live block.** Its array has 256 slots and the free list may be longer:
  `Heap.Heap.Kfree` has no slot exactly when 256 blocks are free, and `FreeEveryOther` gets there.
- **Every task is where its state says, and none sleeps in wait4 on a zombie child it asked for.** After
  a blocked task resumes, interrupts are enabled (core/cpu/sched.c:170), so a tick may come anywhere in
  a later pass. Between the look and the state write it can make the parent miss an exit
  (`WakeupIsLost`); between the two writes of task_block_any it leaves the parent on no list
  (`StrikeIsLost`). `TasksAreInPlaceIff`, `NoLostWakeupIff` and `SleepersAreSafeIff` give the exact
  conditions over runs.
- **A segment is loaded as its program header says.** `AsMeantIff`; `UnalignedByteIsLost` is an image.
  elf_load does not look at e_phentsize when it steps through the headers, nor at where a segment
  lies: see below.
- **A packed file is found by its name.** `FullNameFoundIff`: exactly when the name has at most 23
  bytes; the packer cuts longer ones.
- **A completed installation can be uninstalled.** `InstallThenUninstall`: exactly when no write was
  empty, since storing an empty entry fails. bios_install writes no empty range today, so the failing
  case is outside what it does.
- **A kernel page is mapped in every space.** `KernelMapShowsIff`, `KernelMapShowsByRootEntry`: not
  when the map had to make a new entry in the root of the current space.
- **Documentation.** include/uix/uixfs.h names the magic "UIXFS1"; packer and reader use the four
  bytes "UIXF", and so does the model.

## Left out

- Assembly, control registers, TLB maintenance, kernel stacks and trap frames: a context switch is
  setting `current`, and hardware translation is the function `Walk`.
- Interrupts: gate 128 is an interrupt gate, so the body of a system call up to its `schedule()` is one
  event. Later passes of wait4 are four events, with any event between; a tick inside their search is
  covered, since Look may find any zombie that matches. schedule() itself is taken to be uninterrupted,
  although a later pass (core/cpu/sched.c:170) and sched_start (core/kmain.c:103) call it with
  interrupts enabled.
- task_create and task_exit: nothing calls task_create, so no task is ever freed while it is linked in
  all_tasks. The deferred kfree of dead tasks in schedule() is not modelled, and new tasks get
  addresses that no task had before.
- Kernel.Kernel.Fork: states the task fields and lists only; the memory of the child is `ForkUserSpace`.
- Vmm.Vmm.ForkUserSpace: stops where core/memory/vmm.c:266-268 goes on with physical page 0 because no
  page is left, and is stated for spaces without a 1 GiB leaf in the user half, which fork_table would
  take for a table.
- Vmm.Vmm.ForkTable: the same.
- Exec.TearDown: is stated for spaces of 4 KiB pages that have no page twice, which `LifeIsBalanced` and
  `ForkedTearable` establish.
- Exec.FreeUserTables: the same.
- Pmm.Pmm.GrowRefs: reports failure where the source goes on with an array at physical address 0.
- Pmm.Pmm.Init: takes the memory map as aligned, disjoint regions without page 0, as the memory map
  feature of the Limine boot protocol gives it; a word of 64 bits of the bitmap is 64 booleans.
- Heap.Heap.Grow: counts the pages of the chunk only, not those that vmm_map may need for tables.
- Heap.Heap.Kmalloc: is stated for requests whose sum with the header does not wrap; what the source
  does with the others is `AcceptedHasRoomIff`. Programs that write past their payload are left out.
- Heap.Heap.Kfree: is stated for pointers behind something that is or was a block header; what the source
  reads as a magic elsewhere is left out.
- Vmm.Vmm.Init: takes the boot loader's tables as in use, and bit 7 as clear in entries of a root, as the
  architecture requires.
- Elf.Load: is stated for images whose headers are 56 bytes apart and lie in the file, and whose
  segments lie in the file and in the user half, with the page of their start not before the file's
  first byte; of these the source checks the place of the headers only, up to `AcceptedIsPlainIff`.
  The image is a value, so loading over the image's own pages is left out.
- Exec.LoadThenTearDown: covers ELF images in a space made while another one is active; the flat format
  and the user stack are left out, and what becomes of the root that is active is `ReplaceSpace`.
- Uixfs.Fs.Read: is stated for directories whose names are terminated, which mounting does not check.
- Image.Pack: is stated for at most 32 files that fit the image; the packer checks neither.
- Installer.InstallStages: is stated for an image of at least 512 bytes and for stage 2 behind the boot
  sector, where bios_install puts it; how it chooses the place is left out.
- BlockCache.Device.Write: reads, writes and seeks always succeed; a write that fails halfway is not logged.
- Disks of 2^32 sectors or more, and devices whose last block is cut short.
- Drivers, console, keyboard, serial port, tty, the file descriptor table, path copying and the rest
  of the installer: device access and small helpers that would only add easy members.
