# Verified models of an operating-systems course repository

Five programs of the repository are modelled here in Dafny, and their central promises proved.

* **JOS memory and fork.** `Pmap.dfy` holds the kernel's physical pages, free list and two-level
  page tables (32-bit paging, section 4.3 of the Intel SDM, volume 3A) as a class; page tables live
  in physical pages, so isolation is a theorem: it holds as long as no `sys_page_map` is given
  page-number bits in its permissions that the page's own number lacks, and that call ends it.
  `Fork.dfy` runs `fork`, `fork_v0` and the page-fault handler, loop by loop, on that class.
  `CowRuns.dfy` lets any number of environments interleave between any two of their system calls and
  words copied, and proves that copy-on-write cannot be told from copying every page.
  `CowProgress.dfy` proves that forks and faults come to an end, and `CowKernel.dfy` carries out every
  step on the tables of `Pmap.dfy`.
* **Scheduler and environment life cycle.** `Mlfq.dfy` says what the environment table means and
  proves choice, fairness and ids; `Lifecycle.dfy` is the machine of kernel entries on several CPUs
  with IPC, and `Calls.dfy` says what each decision and call does to whom; `EnvTable.dfy` holds the intrusive linked lists and proves that each routine does what
  the machine's step says.
* **The malloc library.** `Regions.dfy` and `Blocks.dfy` describe blocks tiled by regions and their
  headers in memory, `Neighbours.dfy` says when two free ones lie side by side; `Malloc.dfy` is the
  allocator, where header writes destroy data and data writes destroy headers.
* **The file system fisopfs.** `Fs.dfy` has the inode layer: bitmap, direct blocks and an indirect
  table that is itself a data block. `Dentries.dfy` reads directories out of the bytes of files and
  proves them finite maps; `Paths.dfy` is path lookup, a fold over names; `Namespace.dfy` proves what
  creating and removing do to every path, and the tree all runs keep; `Dirs.dfy` runs the code of the
  directory layer on the disk of `Fs.dfy` and ties it to these.
* **Two algorithms.** `Sieve.dfy` is the process-per-prime sieve over bounded pipes; `Stab.dfy` the
  binary search over a type-filtered symbol table.

State changed in place is a class with a `Valid()` predicate and methods that state their whole new
state; statements about all runs are lemmas about the functions those methods are tied to.

## Where the code and its documentation disagree

The model follows the code.

* `pgfault` is documented to panic on a fault that is not copy-on-write. Its test joins two flags
  with `&` where one is 2 and the other 0 or 1, so it never holds (`lib/fork.c:28`): any page that
  is present and not writable is copied.
* `duppage` says it does not treat cache-controlled pages as copy-on-write (`lib/fork.c:79`); it does.
* `sys_page_map` documents a full check of the permissions; only added write access is refused
  (`kern/syscall.c:69`). The rest of the 32-bit argument is joined into the entry
  (`kern/pmap.c:501`), so bits above the flags make it name another page.
* `stab_binsearch` documents `left > right` when nothing contains the address; below all entries it
  leaves `left <= right`, and with an entry at the next address it may return that one.
* The malloc documentation describes a doubly linked list. `split_region` and
  `split_and_coalesce_next_regions` do not set the back link of the region after the new one. The
  allocator here has that assignment added in both; two lemmas say exactly when the code as written
  keeps the list. The header is 32 bytes on a 64-bit machine, not the 40 the documentation gives.
* The malloc documentation says that no free regions are ever side by side. `free` and `malloc` keep
  that; `realloc` into the region before breaks it when the next region is free, too, but too small,
  and something is cut off (`malloc.c:703`).
* `fiuba_read` notices the end of a block one byte late: behind its first block one byte more is
  right, if the file's next block is the next on the disk. A write that starts before the last block
  goes astray when it leaves its first block, and truncate grows a file to the right size only by up
  to 1 KiB. `Fs.ReadIsRightExactly`, `Fs.WriteIsInOnePieceExactly` and `Fs.GrowthIsRightExactly` say
  exactly when.
* `iterate_over_dir` is documented to return -ENOENT when nothing is found; it returns 0. Its -ENOTDIR
  is taken for success by `add_inode_to_directory`, so creating below a regular file leaks an inode.

## Assumptions

* *CowRuns*: memory is shared only through fork and the handler; user code does not map, unmap or
  touch PFTEMP and UTEMP; the child under construction is not destroyed by others; reading the entry
  in `uvpt` and the first map call of `duppage` are one step. *Fork*: PFTEMP, and UTEMP for
  `fork_v0`, are unmapped when the routine starts.
* *Lifecycle*: what happens between taking and releasing the big kernel lock is one step. The three
  guards of `Guard` are not enforced by the code; each is shown necessary. `ipc_recv` is not entered
  again by the same environment before it returns. Timer readings are free inputs.
* *Malloc*: callers pass pointers they own; requests are small enough that sums of `size_t` do not
  wrap; mmap, when it succeeds, gives addresses nobody has.
* *Dirs*: paths are absolute, and last names are shorter than 256 bytes (`strcpy` has no bound).
  *Namespace*: the guards of `Guard` are not enforced by the code; lemmas show what goes wrong
  without them. Of these, a mounted file system never hands on a path with dots in it.
* *Sieve*: n is less than INT_MAX, where the counting loop overflows; system calls do not fail, and a
  line of output is written at once, as to a terminal. Into a file or a pipe the C library keeps
  lines back, and every fork repeats those not yet written.

## Model

| member | source | states |
|---|---|---|
| `CowRuns.EveryRunIsEager` | tp2-sched/sched/lib/fork.c:14-48 | Main result: from any state with the invariant, the events of every interleaved run of fork, fork_v0, the fault handler and user code are accepted by a machine in which every environment owns private pages and fork copies them, so each read returns the word an eager copy would hold |
| `CowRuns.EveryRunFromBootIsEager` | tp2-sched/sched/lib/fork.c:206-251 | The same from boot, for any number of environments, together with exclusive ownership of writable pages at the end of the run |
| `CowRuns.StepIsEager` | tp2-sched/sched/lib/fork.c:61-96 | One system call or instruction of the real machine is one event of the eager machine and both go on agreeing wherever anybody can still look |
| `CowRuns.NextKeepsInv` | tp2-sched/sched/lib/fork.c:14-48 | Every step of every environment, in any order, keeps: a page mapped writable has one mapping, except PFTEMP inside the handler, UTEMP inside fork_v0 and the page between duppage's two calls |
| `CowRuns.CopyIsStable` | tp2-sched/sched/lib/fork.c:37-47 | While the handler copies word by word, nobody else can write its source or its destination |
| `CowRuns.TempIsAlone` | tp2-sched/sched/lib/fork.c:38-46 | The page just allocated at PFTEMP is seen by nobody else until it is mapped in place |
| `CowRuns.NoOtherWriter` | tp2-sched/sched/lib/fork.c:80-87 | No entry other than the parent's own can write a page that duppage is handing to the child |
| `CowRuns.FreshIsAlone` | tp2-sched/sched/lib/fork.c:135-139 | The page fork_v0 allocates in the child is named only there and at the parent's UTEMP |
| `CowRuns.ForkLeavesNothingOut` | tp2-sched/sched/lib/fork.c:225-248 | When fork makes the child runnable, the eager child owns a page exactly where the parent does, plus the exception stack, both machines hold the same words there, and the child can then read exactly these pages |
| `CowRuns.ForkV0LeavesNothingOut` | tp2-sched/sched/lib/fork.c:174-184 | The same for fork_v0, whose loop treats the exception stack like any other page |
| `CowProgress.ForkRunsChild` | tp2-sched/sched/lib/fork.c:244-248 | Once fork has made the child runnable it reads wherever its parent has a page, and its exception stack, and nowhere else, and writes that stack without a fault; both are outside fork |
| `CowProgress.ForkV0RunsChild` | tp2-sched/sched/lib/fork.c:180-187 | The same for fork_v0 |
| `CowProgress.DuppageProtectsBoth` | tp2-sched/sched/lib/fork.c:80-87 | After duppage's two calls parent and child name the same page, read-only and copy-on-write |
| `CowProgress.MarksExactly` | tp2-sched/sched/lib/fork.c:61-96 | The copy-on-write mark is made by duppage, on the page it is at, or asked for by sys_page_alloc, and by nothing else; an entry made otherwise has none |
| `CowProgress.ForkIsDeterministic` | tp2-sched/sched/lib/fork.c:206-251 | Inside fork and fork_v0 the next call is settled by what the parent's entry says |
| `CowProgress.ForkFinishes` | tp2-sched/sched/lib/fork.c:206-251 | From any point inside fork or fork_v0, its own steps lead, within a number fixed there, to its end with the child able to run, or to a state without a free page |
| `CowProgress.HandlerFinishes` | tp2-sched/sched/lib/fork.c:37-47 | From any point inside the handler exactly so many steps of its own lead to its end, with the page writable and unmarked and everything anybody sees as it was |
| `CowProgress.StoreGetsThrough` | tp2-sched/sched/lib/fork.c:14-48 | While a page is free, a store to any mapped page becomes possible: at once, or after 1027 steps of the handler, which change nothing anybody sees |
| `Pmap.UpdateMovesOneReference` | tp2-sched/sched/kern/pmap.c:490-505 | Replacing one entry changes the number of mappings of a page by exactly one, at the page it named and the page it names |
| `Pmap.SetPteIsOneUpdate` | tp2-sched/sched/kern/pmap.c:413-429 | Writing one word of a page table changes the flat address space at exactly one place and keeps tables and directories a forest of unmapped pages |
| `Pmap.DataWritesNeverReachPageTables` | tp2-sched/sched/kern/pmap.c:413-429 | No store to a data page, whatever the words, can change any mapping of any environment |
| `Pmap.ReferenceCountsAreExact` | tp2-sched/sched/kern/pmap.c:384-388 | A page's count is the number of entries and directory slots below UTOP, plus directory roots, that name it, in every state but those `Pmap.Kernel.EnvPageMap` is shown to spoil |
| `Pmap.FreeingDropsOnlyItsOwnReferences` | tp2-sched/sched/kern/env.c:425-450 | After env_free a page's mappings are the old ones minus those of the freed environment |
| `Pmap.NotDataNotMapped` | tp2-sched/sched/kern/pmap.c:413-429 | In the same states, a directory, a table or a reserved page is never mapped in user space |
| `Pmap.SettleIsExact` | tp2-sched/sched/kern/pmap.c:490-505 | Storing the new entry leaves tables and counts right if and only if it names the page whose count was raised |
| `Pmap.OrIsBitwise` | tp2-sched/sched/kern/pmap.c:501 | The page number entered has a bit exactly when the page's own number or the permissions have it |
| `Pmap.NoHighBitsExactly` | tp2-sched/sched/kern/pmap.c:501 | Permissions leave every page's number as it is if and only if they have no page-number bits |
| `Pmap.HighBitMapsNextPage` | tp2-sched/sched/kern/syscall.c:62-73 | With the lowest of them, a page in an even frame is entered as the frame after it, and if that is a page table after the call, a page table is mapped |
| `Pmap.InstallSettlesReference` | tp2-sched/sched/kern/pmap.c:490-505 | The reference taken before the old entry is removed becomes the reference of the new entry: re-inserting a page at its own place needs no special case |
| `Pmap.UnmapIsExact` | tp2-sched/sched/kern/pmap.c:550-568 | Clearing an entry gives back exactly the reference it held |
| `Pmap.AddTableKeepsCounts` | tp2-sched/sched/kern/pmap.c:413-429 | Hanging a zeroed page in a directory maps nothing and keeps all counts exact |
| `Pmap.DropTableIsExact` | tp2-sched/sched/kern/env.c:442-444 | Taking an emptied table out of its directory unmaps nothing and keeps all counts exact |
| `Pmap.AddRootIsExact` | tp2-sched/sched/kern/env.c:163-196 | A new directory maps nothing below UTOP and is the root of one environment |
| `Pmap.DropRootIsExact` | tp2-sched/sched/kern/env.c:447-450 | Giving up an empty directory changes no mapping of anybody else |
| `Pmap.PopKeepsChain` | tp2-sched/sched/kern/pmap.c:347-360 | Taking the head off the free list leaves a chain without cycles or duplicates |
| `Pmap.PushKeepsChain` | tp2-sched/sched/kern/pmap.c:367-377 | So does putting a page back |
| `Pmap.Kernel.constructor` | tp2-sched/sched/kern/pmap.c:292-332 | page_init: every page outside the reserved addresses is on the free list once, with count zero, the highest addresses first |
| `Pmap.Kernel.PageAlloc` | tp2-sched/sched/kern/pmap.c:347-360 | Pops the head of the free list, or returns nothing exactly when it is empty; nothing else changes |
| `Pmap.Kernel.PgdirWalk` | tp2-sched/sched/kern/pmap.c:413-429 | Finds the table for an address, creating an empty one only on request; fails exactly when creation is wanted and no page is free; maps nothing |
| `Pmap.Kernel.PageLookup` | tp2-sched/sched/kern/pmap.c:519-532 | Returns the entry exactly when it is nonzero, and every nonzero entry is present |
| `Pmap.Kernel.PageRemove` | tp2-sched/sched/kern/pmap.c:550-568 | Deletes one entry of the flat map, frees the page exactly when its last reference went, touches no data |
| `Pmap.Kernel.PageInsert` | tp2-sched/sched/kern/pmap.c:490-505 | Success updates one entry of the flat map, also for the same page at the same place, to page number and permissions joined bit by bit; everything stays in order if and only if that is still the page's number; an out-of-memory failure changes nothing at all |
| `Pmap.Kernel.EnvPageAlloc` | tp2-sched/sched/kern/syscall.c:47-58 | Result code exactly, permissions above the flags refused; success maps a zeroed page nobody else has; when the table cannot be allocated the fresh page is lost, exactly that page |
| `Pmap.Kernel.EnvPageMap` | tp2-sched/sched/kern/syscall.c:62-73 | Result code exactly, write access is never added, success updates one entry, failure changes nothing; a success keeps the kernel's invariant if and only if the permissions have no page-number bit the page's number lacks |
| `Pmap.Kernel.Store` | tp2-sched/sched/kern/pmap.c:413-429 | A user store goes to one word of one data page and changes no mapping |
| `Pmap.Kernel.EnvSetupVm` | tp2-sched/sched/kern/env.c:163-196 | A new environment starts with an empty user space; failure changes nothing |
| `Pmap.Kernel.EnvFree` | tp2-sched/sched/kern/env.c:410-450 | Afterwards the environment maps nothing, every other mapping and every data page is as before, and no page is lost |
| `Fork.Pgfault` | tp2-sched/sched/lib/fork.c:14-48 | The faulting page becomes a private writable page with the same words; no other entry and no other content changes; it panics only when no free page is left |
| `Fork.Duppage` | tp2-sched/sched/lib/fork.c:61-96 | Child and parent entries after the two system calls, cache bits included: neither has write access, both are marked copy-on-write if the parent's had write access or was, and the child sees the parent's words; it fails only when no free page is left |
| `Fork.CowFork` | tp2-sched/sched/lib/fork.c:206-242 | After the loop over all pages: the child sees every user page of the parent in the same page, neither has write access to it, both are marked copy-on-write where the parent had it, the exception stack is a private zero page, nobody else changes; it fails only when no free page is left |
| `Fork.DupInto` | tp2-sched/sched/lib/fork.c:134-141 | The copying branch leaves the child a private page with the parent's words and the parent exactly as it was; it panics only when no free page is left |
| `Fork.DupOrShare` | tp2-sched/sched/lib/fork.c:111-143 | A page is copied exactly when it is writable and not cache-controlled, and then the child's own; otherwise shared; the child can write exactly where the parent can; it panics only when no free page is left |
| `Fork.ForkV0` | tp2-sched/sched/lib/fork.c:158-187 | The child's space has the parent's words page for page, writable where the parent's is; a writable page that is not cache-controlled is the child's own, any other the parent's; the parent is untouched; it fails only when no free page is left |
| `Fork.ForkProtects` | tp2-sched/sched/lib/fork.c:61-96 | Every flag of the two entries duppage leaves, from the flags of the parent's before |
| `Fork.V0Protects` | tp2-sched/sched/lib/fork.c:111-143 | Every flag of the entry dup_or_share makes |
| `CowKernel.Perform` | tp2-sched/sched/kern/syscall.c:47-73 | Main result: each step of the copy-on-write machine, made on the two-level tables by the kernel's own routines, leaves them showing the next state of that machine, with the cache bits of pages handed to a child copied; it is refused only when fewer than two pages are free, and then they still show the same |
| `CowKernel.StartFirst` | tp2-sched/sched/kern/env.c:163-196 | The kernel's constructor and the directory of a first environment show a boot state of that machine, from which all its runs are eager; it fails exactly when no page is free |
| `CowKernel.StepNeed` | tp2-sched/sched/lib/fork.c:14-48 | In every state with the invariant the call a step makes meets what the kernel asks of it |
| `CowKernel.LoadAt` | tp2-sched/sched/lib/fork.c:37-47 | A word read through the tables is the word the machine has there |
| `CowKernel.MapShows` | tp2-sched/sched/kern/syscall.c:62-73 | One entry of the tables updated is one entry of the machine's address spaces updated |
| `Mlfq.ChoiceIsFirstInLowestQueue` | tp2-sched/sched/kern/sched.c:163-222 | The environment chosen is the first that can run, in circular order after curenv, in the lowest-numbered queue that holds one |
| `Mlfq.ChoiceCanRun` | tp2-sched/sched/kern/sched.c:163-222 | A choice is made exactly when somebody can run on this CPU, and it can |
| `Mlfq.RoundRobinServesNextTurn` | tp2-sched/sched/kern/sched.c:163-198 | The two loops of one queue serve the eligible member whose turn comes first |
| `Mlfq.ServedWithinOneRound` | tp2-sched/sched/kern/sched.c:203-222 | While a CPU's choices stay in one queue of fixed members, a member that is runnable at each decision is chosen within as many decisions as the queue has members, whatever other CPUs do in between |
| `Mlfq.AllocKeepsPlaced` | tp2-sched/sched/kern/env.c:207-269 | env_alloc keeps every slot on the free list or, once, in the queue its number names |
| `Mlfq.ReleaseKeepsPlaced` | tp2-sched/sched/kern/env.c:452-457 | So does env_free |
| `Mlfq.ReprioritizeKeepsPlaced` | tp2-sched/sched/kern/sched.c:311-325 | So does env_change_priority |
| `Mlfq.BoostedKeepsPlaced` | tp2-sched/sched/kern/sched.c:347-360 | So does boost, which leaves one queue holding all queues in order |
| `Mlfq.IdInClosedForm` | tp2-sched/sched/kern/env.c:220-224 | In 32-bit arithmetic a slot's k-th id has generation 1 + (k - 1) mod 524287 |
| `Mlfq.IdsDoNotReturnSoon` | tp2-sched/sched/kern/env.c:220-224 | Ids are positive and carry their slot number, and two ids of a slot are equal exactly when a multiple of 524287 allocations lies between them |
| `Lifecycle.EveryRunKeepsOneCpuEach` | tp2-sched/sched/kern/trap.c:245-304 | Main result: in every run of any number of CPUs under the big lock no environment is current on two of them, and while the lock is free an environment is RUNNING or DYING exactly when it is some CPU's curenv |
| `Lifecycle.EveryRunDeliversExactlyOnce` | tp2-sched/sched/kern/syscall.c:365-434 | Main result: the messages ipc_recv returned are the messages sent, in order, each once; at most the last is still waiting, intact |
| `Lifecycle.DispatchKeepsInvariantExactly` | tp2-sched/sched/kern/syscall.c:485-525 | Each system call keeps the kernel's invariant if and only if its guard holds, a test a caller could make before the call |
| `Lifecycle.SetStatusExactly` | tp2-sched/sched/kern/syscall.c:171-190 | sys_env_set_status is safe exactly when its target is the caller or not running, and is not a receiver being made runnable |
| `Lifecycle.DestroyExactly` | tp2-sched/sched/kern/env.c:466-484 | env_destroy is safe exactly when its target is not already DYING |
| `Lifecycle.RecvExactly` | tp2-sched/sched/kern/syscall.c:422-434 | sys_ipc_recv is safe exactly when the address is good: it sets the flag before looking |
| `Lifecycle.YieldReleasesLock` | tp2-sched/sched/kern/sched.c:77-154 | Every scheduling decision restores the outside invariant; a CPU halts only when its environment cannot go on, the kernel stops only when none can |
| `Lifecycle.SwitchReleasesLock` | tp2-sched/sched/kern/env.c:496-506 | env_switch to an environment that can run leaves it current here and nowhere else, and nobody who could go on is stopped |
| `Lifecycle.HaltReleasesLock` | tp2-sched/sched/kern/sched.c:108-141 | sched_halt never abandons a running environment |
| `Lifecycle.ReapedKeepsKernel` | tp2-sched/sched/kern/trap.c:273-278 | Freeing a zombie on the way in disturbs no other CPU |
| `Lifecycle.SendNeverOverwrites` | tp2-sched/sched/kern/syscall.c:365-408 | A send succeeds only while its receiver waits with nothing unread, and makes it runnable; any other result leaves the whole table unchanged, so the library's retries are harmless |
| `Lifecycle.NextKeepsWorld` | tp2-sched/sched/lib/ipc.c:22-37 | Kernel entries and the receiver's separate user-mode reads, in any order, keep histories and message boxes in agreement |
| `Lifecycle.LookupIsExact` | tp2-sched/sched/kern/env.c:74-107 | Without a permission check a nonzero id names an environment exactly when it is live with that id |
| `Lifecycle.LiveIdsAreDistinct` | tp2-sched/sched/kern/env.c:220-224 | Live ids are positive, different, and carry their slot number |
| `Lifecycle.UnguardedStatusRunsTwice` | tp2-sched/sched/kern/syscall.c:179-187 | Without the guard: making a child runnable that runs elsewhere lets a second CPU run it |
| `Lifecycle.UnguardedReceiveRunsTwice` | tp2-sched/sched/kern/syscall.c:424-426 | Without the guard: a failed receive followed by a send lets a second CPU run the receiver |
| `Lifecycle.UnguardedDestroyFreesRunning` | tp2-sched/sched/kern/env.c:471-476 | Without the guard: destroying a zombie frees the slot a CPU still runs |
| `Calls.YieldKeepsRunnish` | tp2-sched/sched/kern/env.c:496-506 | A decision makes nobody runnable and stops nobody: who is preempted is RUNNABLE, who is chosen RUNNING, a zombie stays one, and other CPUs and environments are as they were |
| `Calls.YieldStopsExactly` | tp2-sched/sched/kern/sched.c:108-141 | The kernel enters its monitor exactly when every environment waits for something; otherwise the CPU runs the choice or nothing |
| `Calls.TickKeepsRunnish` | tp2-sched/sched/kern/trap.c:245-304 | After a timer interrupt or a yield everybody who could go on still can |
| `Calls.ReprioritizeKeepsOrder` | tp2-sched/sched/kern/sched.c:311-325 | The environment goes to the end of its new queue and no other passes another |
| `Calls.BoostKeepsOrder` | tp2-sched/sched/kern/sched.c:347-360 | In the one queue left, higher queues come first and each in its order |
| `Calls.DecisionMovesQueues` | tp2-sched/sched/kern/sched.c:203-222 | The queue of every environment after a decision: the first after a boost, one further down for who used up its time, otherwise the same |
| `Calls.LookupWithPermissionIsExact` | tp2-sched/sched/kern/env.c:74-107 | With the permission check an id names the caller or a live child of its own, and nobody else |
| `Calls.ExoforkReturnsChild` | tp2-sched/sched/kern/syscall.c:138-161 | Error codes exactly; the id returned names, for its parent, a new environment that cannot run, last in its parent's queue; nobody else is concerned |
| `Calls.StartedChildCanRun` | tp2-sched/sched/kern/syscall.c:171-190 | sys_exofork and then sys_env_set_status with the id it returned make a child that every CPU may run |
| `Calls.CreatedCanRun` | tp2-sched/sched/kern/env.c:207-269 | env_create makes an environment that every CPU may run, last in the first queue, with an id of its slot |
| `Calls.SetStatusReachesExactly` | tp2-sched/sched/kern/syscall.c:171-190 | The status of the caller or of a child is set and nothing else; for any other environment E_BAD_ENV and no change |
| `Calls.DestroyFreesOrMarks` | tp2-sched/sched/kern/env.c:466-484 | Marked DYING exactly if it runs on another CPU, otherwise its slot is free and the next to be used |
| `Calls.ZombieIsReaped` | tp2-sched/sched/kern/trap.c:273-278 | A marked environment is gone after the next kernel entry of its CPU |
| `Calls.FaultEndsEnvironment` | tp2-sched/sched/kern/trap.c:233-241 | A fault the kernel cannot help with ends the environment |
| `Calls.PriorityOnlyFalls` | tp2-sched/sched/kern/syscall.c:444-466 | Result codes exactly; the caller or a child goes down to the queue asked for, never up |
| `Calls.ReceiverWaits` | tp2-sched/sched/kern/syscall.c:422-434 | A receiver is not runnable afterwards, on no CPU, and its flag is set |
| `Calls.SendWakesReceiver` | tp2-sched/sched/kern/syscall.c:365-408 | A send to an environment that waits succeeds, fills its box with sender and value, and lets every CPU run it |
| `Calls.SendRefusals` | tp2-sched/sched/kern/syscall.c:365-408 | Which error a send returns, in the order of the tests, and that it then changes nothing |
| `Calls.BadArguments` | tp2-sched/sched/kern/syscall.c:171-190 | Which error a bad status, address or id gets |
| `Calls.CallReturns` | tp2-sched/sched/kern/trap.c:245-304 | A call that gives no reason to schedule returns to where it came from |
| `Calls.HistoryIsTrue` | tp2-sched/sched/kern/syscall.c:365-408 | The histories the delivery theorem speaks of record exactly the successful sends |
| `Calls.SendEntryWakes` | tp2-sched/sched/kern/trap.c:245-304 | The same of the whole kernel entry |
| `Calls.ReceiveEntryWaits` | tp2-sched/sched/kern/trap.c:245-304 | After the whole kernel entry a receiver cannot go on |
| `Calls.ExoforkEntryMakesChild` | tp2-sched/sched/kern/trap.c:245-304 | After the whole kernel entry the child is there and cannot go on |
| `Calls.StatusEntryTakesEffect` | tp2-sched/sched/kern/trap.c:245-304 | After the whole kernel entry the child can go on exactly if it was made runnable |
| `Calls.DestroyEntryEnds` | tp2-sched/sched/kern/trap.c:245-304 | After the whole kernel entry the environment destroyed is gone or marked |
| `EnvTable.Table.constructor` | tp2-sched/sched/kern/env.c:116-125 | env_init: all slots free, in array order |
| `EnvTable.Table.QueuePush` | tp2-sched/sched/kern/sched.c:251-265 | The linked queue with head, tail and counter gains the environment at its end |
| `EnvTable.Table.QueueRemove` | tp2-sched/sched/kern/sched.c:271-303 | It loses exactly this environment, wherever it stands, and stays a chain with the right tail and count |
| `EnvTable.Table.ChangePriority` | tp2-sched/sched/kern/sched.c:311-325 | Two list operations make one move to the tail of the new queue |
| `EnvTable.Table.Boost` | tp2-sched/sched/kern/sched.c:347-360 | Terminates, with queue 0 the in-order concatenation of all queues and the others empty |
| `EnvTable.Table.EnvAlloc` | tp2-sched/sched/kern/env.c:207-269 | Result code exactly; failure changes nothing; success takes the first free slot and queues it last in queue 0 |
| `EnvTable.Table.EnvFree` | tp2-sched/sched/kern/env.c:452-457 | The slot moves from its queue to the head of the free list |
| `EnvTable.Table.RoundRobin` | tp2-sched/sched/kern/sched.c:163-198 | The two pointer loops find the first eligible member of the circle |
| `EnvTable.Table.SchedYield` | tp2-sched/sched/kern/sched.c:203-222 | Demotion, boost, choice and switch or halt, as one decision on the table's meaning; who could go on still can |
| `EnvTable.Table.EnvDestroy` | tp2-sched/sched/kern/env.c:466-484 | Marks, frees, or frees and gives up the CPU, by status and owner |
| `EnvTable.Table.Fork` | tp2-sched/sched/kern/syscall.c:138-161 | sys_exofork: a child that cannot run, in its parent's queue |
| `EnvTable.Table.IpcTrySend` | tp2-sched/sched/kern/syscall.c:365-408 | Error codes in the code's order, and the whole new state on success; who no longer waits is RUNNABLE |
| `EnvTable.Table.IpcRecv` | tp2-sched/sched/kern/syscall.c:422-434 | The caller blocks, or, with a bad address, goes on with the flag set |
| `EnvTable.Table.HandleTrap` | tp2-sched/sched/kern/trap.c:245-304 | One kernel entry on the linked lists is one step of the machine the run theorems are about; after a timer interrupt everybody who could go on still can |
| `Stab.StabBinsearch` | tp2-sched/sched/kern/kdebug.c:59-106 | The nested loops terminate and compute the bracket the theorems below describe |
| `Stab.BracketIsExact` | tp2-sched/sched/kern/kdebug.c:23-58 | Main result: for a table increasing in one type, with a gap after the address, left is the last entry at or below it and right is just before the next one; below all entries, and without any, exactly what is returned |
| `Stab.TurnDecreases` | tp2-sched/sched/kern/kdebug.c:68-94 | The measure: the interval shrinks, or the exact match at its left end is used up |
| `Stab.EmptyMeansNotContainedExactly` | tp2-sched/sched/kern/kdebug.c:39-43 | The documented test left > right is right exactly when some entry is at or below the address or there is none at all |
| `Stab.LastAddressIsMissed` | tp2-sched/sched/kern/kdebug.c:87-93 | An entry at 0xffffffff is never found, because addr++ wraps |
| `Stab.NeighbourOvershoots` | tp2-sched/sched/kern/kdebug.c:87-93 | With entries at both addr and addr + 1 the result can be the later one |
| `Stab.NeighbourIsAvoided` | tp2-sched/sched/kern/kdebug.c:87-93 | and with one more entry behind them it is not, so no test of the two entries alone decides it |
| `Sieve.EveryRunPrintsThePrimes` | lab-fork/fork/primes.c:92-195 | Main result: for every n from 2 up to but not including INT_MAX, every pipe capacity and interleaving, a run never exceeds a number of system calls fixed at the start, can be continued until it is reached, and then all processes have exited and exactly the primes up to n were printed in increasing order |
| `Sieve.NoDeadlock` | lab-fork/fork/primes.c:92-195 | In every reachable state that is not the end somebody can move, although pipes are bounded and parents wait for children |
| `Sieve.StepSpendsOne` | lab-fork/fork/primes.c:92-195 | Every system call of every process brings the end exactly one call nearer |
| `Sieve.StepKeepsStreams` | lab-fork/fork/primes.c:165-195 | A step changes what its process will still read by what it read, and no other process's future input |
| `Sieve.NextKeepsChain` | lab-fork/fork/primes.c:106-195 | Ends of pipes are open exactly as the closes in the code say, so end of file is seen exactly when the writer is done |
| `Sieve.WriteHasReader` | lab-fork/fork/primes.c:175-183 | Nobody ever writes to a pipe that has lost its reader |
| `Sieve.NextSurvivorIsNextPrime` | lab-fork/fork/primes.c:108-117 | The first number to reach a new process is the next prime |
| `Sieve.DoneMeansPrimes` | lab-fork/fork/primes.c:109-115 | When the last process sees end of file, all primes up to n are on the output |
| `Sieve.ExitIsLast` | lab-fork/fork/primes.c:142-148 | The command returns only after every process has exited |
| `Regions.CutKeepsHeaded` | tp1-malloc/malloc/malloc.c:455-472 | split_region with the missing back link keeps next and prev mutual inverses and sizes exact |
| `Regions.LiteralCutKeepsExactly` | tp1-malloc/malloc/malloc.c:455-472 | As written split_region keeps the list if and only if it cuts the last region |
| `Regions.JoinKeepsHeaded` | tp1-malloc/malloc/malloc.c:493-506 | coalesce_region_with_its_next keeps the list |
| `Regions.ShiftKeepsHeaded` | tp1-malloc/malloc/malloc.c:624-641 | split_and_coalesce_next_regions with the missing back link keeps the list |
| `Regions.LiteralShiftKeepsExactly` | tp1-malloc/malloc/malloc.c:624-641 | As written it does so if and only if the next region is the last |
| `Blocks.LiveAllocationsAreDisjoint` | tp1-malloc/malloc/malloc.c:455-472 | In every valid heap the payloads of two live allocations do not overlap and lie inside a block |
| `Blocks.PayloadIsNotHeader` | tp1-malloc/malloc/malloc.c:68-74 | No byte of a live allocation is a byte of any header |
| `Blocks.CutStep` | tp1-malloc/malloc/malloc.c:455-472 | The whole heap after a split: order, sums and live allocations |
| `Blocks.JoinStep` | tp1-malloc/malloc/malloc.c:493-506 | The same after a coalesce |
| `Blocks.ShiftStep` | tp1-malloc/malloc/malloc.c:624-641 | The same after moving the border with a free neighbour |
| `Blocks.AppendStep` | tp1-malloc/malloc/malloc.c:368-453 | A new block changes no allocation |
| `Blocks.RemoveStep` | tp1-malloc/malloc/malloc.c:520-542 | A block of one free region leaves the doubly linked list of blocks without changing any allocation |
| `Neighbours.PrevGrowthIsTidyExactly` | tp1-malloc/malloc/malloc.c:703-715 | The documentation says that free regions are never neighbours; growing into the region before keeps that if and only if the next region is in use or nothing is cut off |
| `Neighbours.NeighboursAreLeft` | tp1-malloc/malloc/malloc.c:703-715 | Four regions and a size where two free neighbours are left |
| `Neighbours.FreedIsTidy` | tp1-malloc/malloc/malloc.c:508-518 | Joining with the next and then with the previous region is enough: free leaves no free neighbours and no empty block where there were none |
| `Neighbours.TakenIsTidy` | tp1-malloc/malloc/malloc.c:474-488 | Handing out a free region, or its front, leaves no free neighbours where there were none |
| `Neighbours.BothGrowthIsTidy` | tp1-malloc/malloc/malloc.c:717-730 | Nor does growing into both neighbours |
| `Malloc.RoundedIsLeast` | tp1-malloc/malloc/malloc.c:788-791 | The size used is the least multiple of 4 that holds the request and a minimal region |
| `Malloc.BlockSizeIsLeast` | tp1-malloc/malloc/malloc.c:400-402 | A new block is of the smallest class that holds the region, and the request is too large exactly when there is none |
| `Malloc.Heap.FindFirstFit` | tp1-malloc/malloc/malloc.c:290-316 | The first region, in list order, that fits, or none |
| `Malloc.Heap.FindBestFit` | tp1-malloc/malloc/malloc.c:318-348 | The smallest region that fits, the first of its size, or none |
| `Malloc.Heap.NewRegion` | tp1-malloc/malloc/malloc.c:383-453 | Fails exactly when the size has no block class, the limit would be reached or mmap fails, and then changes nothing |
| `Malloc.Heap.ReturnBlock` | tp1-malloc/malloc/malloc.c:520-542 | An empty block leaves list, totals and statistics, and nobody's data |
| `Malloc.Heap.TrySplit` | tp1-malloc/malloc/malloc.c:474-488 | Splits exactly when the rest can hold a header and a minimal region; the live size is what remains |
| `Malloc.Heap.Coalesce` | tp1-malloc/malloc/malloc.c:493-506 | Joins two regions in place, writing nothing but headers |
| `Malloc.Heap.Malloc` | tp1-malloc/malloc/malloc.c:774-805 | NULL exactly for zero, too large, or no fit and no block; otherwise one new allocation, at the first or smallest region that fits or in a new block, at least as large as asked and smaller than that by less than a header and a minimal region more; all others with their bytes untouched; free neighbours and empty blocks do not arise |
| `Malloc.Heap.Calloc` | tp1-malloc/malloc/malloc.c:807-824 | As malloc, with the same bound on the size, every byte of the region zero and the product checked first |
| `Malloc.Heap.Free` | tp1-malloc/malloc/malloc.c:860-882 | Exactly this allocation ends; the bytes of all others stay through coalescing and unmapping; the region is joined with its free neighbours, and the block returned when nothing else is in it; free neighbours and empty blocks do not arise |
| `Malloc.Heap.Realloc` | tp1-malloc/malloc/malloc.c:826-858 | NULL exactly for zero, too large, or when neither the region with its free neighbours nor malloc has room, so that a region already large enough is never refused; on success one allocation is replaced by one of at least the new size, and less than a header and a minimal region more, holding the first min(old, new) bytes, all others untouched; where it is: in place if there is room, then at the region before, then where malloc puts it; on NULL for a nonzero size nothing at all changed; free neighbours arise in a heap without them exactly in the case `Neighbours.PrevGrowthIsTidyExactly` names |
| `Malloc.Heap.GrowIntoPrev` | tp1-malloc/malloc/malloc.c:703-715 | The overlapping forward copy into the previous region loses no byte |
| `Malloc.Heap.GrowIntoBoth` | tp1-malloc/malloc/malloc.c:717-730 | So it does across two joins, the old size being read from a header already swallowed |
| `Malloc.Heap.MoveToNew` | tp1-malloc/malloc/malloc.c:732-743 | Moves exactly when malloc has room; a failed malloc leaves the old allocation intact |
| `Malloc.Heap.Grow` | tp1-malloc/malloc/malloc.c:745-758 | The three ways to grow in place are tried in order, and which one is taken says where the result is; NULL exactly when none has room and malloc has not |
| `Malloc.Heap.Shrink` | tp1-malloc/malloc/malloc.c:643-654 | Shrinking keeps the bytes that remain and gives back what can be a region of its own |
| `Malloc.Heap.Store` | tp1-malloc/malloc/malloc.c:774-805 | An owner writing inside its allocation disturbs neither headers nor others |
| `Fs.PutByteKeepsOwned` | tp3-filesystem/fisopfs/fs.c:953-963 | A byte of file data changes one byte of one file and no map of blocks, table blocks being data blocks |
| `Fs.IndirectGrows` | tp3-filesystem/fisopfs/fs.c:579-602 | A new entry of an indirect table adds one block to one file and spoils no file's data |
| `Fs.DirectGrows` | tp3-filesystem/fisopfs/fs.c:570-577 | The same for a direct slot |
| `Fs.DropLastKeeps` | tp3-filesystem/fisopfs/fs.c:296-305 | Giving back the last block keeps every other block in its one role |
| `Fs.CalcLastIsEndBlock` | tp3-filesystem/fisopfs/fs.c:913-922 | calc_last_block_idx is the block of the end offset |
| `Fs.EarlyWriteIsLost` | tp3-filesystem/fisopfs/fs.c:941-963 | What is then read where a write in the middle of a file should have put its text: the text up to the end of its first block, the old bytes as far as the file had blocks, and behind them the rest of the text, late by the blocks in between; so it is with an append after one that ran out of space |
| `Fs.ReadIsRightExactly` | tp3-filesystem/fisopfs/fs.c:889-903 | Each byte is read from the place on the disk where the file has it if and only if it lies in the starting block, or is the first one behind it and the file's next block is the next one on the disk |
| `Fs.GrowthIsRightExactly` | tp3-filesystem/fisopfs/fs.c:322-347 | Growing by truncate ends at the size asked for if and only if at most 1 KiB is missing |
| `Fs.Disk.SearchFreeBlock` | tp3-filesystem/fisopfs/fs.c:763-776 | The first free block, marked; or none exactly when none is free |
| `Fs.Disk.AllocateNewBlock` | tp3-filesystem/fisopfs/fs.c:604-619 | Gains a block with its old ones in place, or changes nothing; fails exactly at the maximum or when blocks, the table included, do not suffice |
| `Fs.Disk.Write` | tp3-filesystem/fisopfs/fs.c:924-972 | Every write, at any offset: result code exactly, where each byte goes, across the direct and indirect boundary and into new blocks, that all other old bytes and all other files stay, size and blocks afterwards; past the size guard it fails exactly when blocks do not suffice, and then has written a beginning of the text |
| `Fs.WriteIsInOnePieceExactly` | tp3-filesystem/fisopfs/fs.c:941-963 | The text lands at the offset in one piece if and only if the write starts in the last block or stays in the block it starts in |
| `Fs.PlacedInPlace` | tp3-filesystem/fisopfs/fs.c:941-963 | A write that starts in the last block, as every append to a file without spare blocks does, leaves the bytes before it and the text behind them |
| `Fs.Disk.Truncate` | tp3-filesystem/fisopfs/fs.c:355-361 | Shrinking leaves the prefix and frees exactly the blocks behind it; the table block of a large file is never freed |
| `Fs.Disk.FillWithNullBytes` | tp3-filesystem/fisopfs/fs.c:322-347 | Growing any file succeeds if and only if the repeated writes together find entries and blocks enough, and then takes exactly those and ends at the size they add up to; without more than one spare block, the old bytes stay and the first 1 KiB added is zeros |
| `Fs.LengthenMore` | tp3-filesystem/fisopfs/fs.c:322-347 | Two appends need the entries and blocks of one append of both texts, and leave as many |
| `Fs.Disk.TruncateInode` | tp3-filesystem/fisopfs/fs.c:349-362 | For any file, success exactly; the size asked for is reached exactly when it is not more than 1 KiB above the old one; the bytes are then the old ones and zeros, if shrinking or without more than one spare block |
| `Fs.Disk.Read` | tp3-filesystem/fisopfs/fs.c:877-906 | How many bytes are read and where each comes from: 32769 from every block, the last of them from the block that follows on the disk, or from whatever follows the array |
| `Fs.Disk.NewInode` | tp3-filesystem/fisopfs/fs.c:280-294 | The first unused inode, as an empty file |
| `Fs.Disk.DeallocateInode` | tp3-filesystem/fisopfs/fs.c:307-312 | Its blocks return to the bitmap; every other file is block for block the same |
| `Dentries.EntryRoundTrip` | tp3-filesystem/fisopfs/fs.c:154-155 | An entry written as bytes reads back as the same number and name |
| `Dentries.InsertRoundTrip` | tp3-filesystem/fisopfs/fs.c:719-729 | So it does when stored over an old entry, although strcpy leaves old bytes behind the name |
| `Dentries.EntriesAfterAppend` | tp3-filesystem/fisopfs/fs.c:160-163 | Writing an entry at the end adds one and changes none |
| `Dentries.StraddlingEntryIsNotFound` | tp3-filesystem/fisopfs/fs.c:476-487 | An entry written across the end of a block is not found, by its name, where iteration looks for it, 32 bytes later |
| `Dentries.InsertTakesFirstFree` | tp3-filesystem/fisopfs/fs.c:147-163 | A new entry takes the place of the first freed one, and only without one it is added behind the others |
| `Dentries.LookupIsMap` | tp3-filesystem/fisopfs/fs.c:529-533 | Searching a directory is looking a name up in a finite map |
| `Dentries.InsertIsMap` | tp3-filesystem/fisopfs/fs.c:719-729 | Inserting a new name adds it to the map, whether or not a freed entry is used again, and keeps names unique |
| `Dentries.EraseIsMap` | tp3-filesystem/fisopfs/fs.c:708-717 | Removing takes one name out of the map and hides no other |
| `Paths.SearchIsFold` | tp3-filesystem/fisopfs/fs.c:792-824 | The recursive search terminates and is a fold over the names of the path, wanting a directory where the path ends in a slash |
| `Paths.SearchSplits` | tp3-filesystem/fisopfs/fs.c:846-870 | What a path means is one step from what the path search_parent_directory cuts out means, by the name extract_last_name_offset finds; a path of 256 bytes or more means nothing, though it may have a parent |
| `Paths.DoubleSlashIsLost` | tp3-filesystem/fisopfs/fs.c:846-870 | Unless an empty name stands before the last: then lookup always fails, though the parent is found |
| `Paths.PlainPathIsUnique` | tp3-filesystem/fisopfs/fs.c:792-824 | In the tree, different paths without dots lead to different inodes |
| `Paths.EveryFileHasOnePath` | tp3-filesystem/fisopfs/fs.c:792-824 | and every inode in use has such a path |
| `Paths.WalkRewired` | tp3-filesystem/fisopfs/fs.c:792-824 | When one entry changes, exactly the walks that take it change, and they go on from its new target |
| `Namespace.EveryRunKeepsTree` | tp3-filesystem/fisopfs/fs.c:186-227 | Main result: over every sequence of creating and removing calls that keep to the guard, inodes in use and paths without dots remain in one-to-one correspondence, and no path leads to an inode not in use |
| `Namespace.EveryRunFromBootKeepsTree` | tp3-filesystem/fisopfs/fs.c:116-122 | The same from an empty file system on |
| `Namespace.MknodNamesItsPath` | tp3-filesystem/fisopfs/fs.c:186-227 | After a successful call the path leads to the new inode if and only if the parent is a directory with a slot in its first block and the path is shorter than 256 bytes; the tree is kept if and only if the parent is a directory with a slot and without the name and a new directory found a block |
| `Namespace.LongPathIsLost` | tp3-filesystem/fisopfs/fs.c:829-832 | From 256 bytes on the path does not resolve after a successful call, and calling again enters the name twice; with a name and a parent's path of less than 256 bytes each it has at most 510 |
| `Namespace.MknodKeepsPaths` | tp3-filesystem/fisopfs/fs.c:186-227 | With a new name, as every path shorter than 256 bytes has, no path that led somewhere changes; a refused call changes nothing; success exactly: no such path, a parent, a free inode, and a slot in the parent or a free block |
| `Namespace.MknodIsMapUpdate` | tp3-filesystem/fisopfs/fs.c:147-173 | Where the parent has a slot, its map gains the name, a new directory maps its dots to itself and its parent, no other map changes |
| `Namespace.LinkedWalk` | tp3-filesystem/fisopfs/fs.c:147-173 | A list of names newly leads somewhere only through the new entry, and goes on from the new inode |
| `Namespace.UnlinkForgetsItsPath` | tp3-filesystem/fisopfs/fs.c:364-397 | Afterwards the path fails, and any other path fails or means what it did according to whether it goes through the removed entry; succeeds exactly for files |
| `Namespace.RmdirForgetsItsPath` | tp3-filesystem/fisopfs/fs.c:364-397 | The same for directories; succeeds exactly when the directory has no entry but its dots |
| `Namespace.RemoveIsMapUpdate` | tp3-filesystem/fisopfs/fs.c:463-467 | The parent's map loses the name, no other map changes |
| `Namespace.DirIsEmptyExactly` | tp3-filesystem/fisopfs/fs.c:694-706 | In a tree the test for emptiness, size shortcut included, is right |
| `Namespace.WalkFailsExactly` | tp3-filesystem/fisopfs/fs.c:792-824 | A path fails with ENOTDIR exactly if a beginning of it leads to a file, with ENOENT exactly if one leads to a directory without the next name, and with nothing else |
| `Namespace.UnlinkCodesExactly` | tp3-filesystem/fisopfs/fisopfs.c:133-152 | Which error unlink returns, from what the path leads to |
| `Namespace.RmdirCodesExactly` | tp3-filesystem/fisopfs/fisopfs.c:154-175 | Which error rmdir returns |
| `Namespace.MknodCodesExactly` | tp3-filesystem/fisopfs/fs.c:186-227 | Which error mknod and mkdir return |
| `Namespace.LeakedInode` | tp3-filesystem/fisopfs/fs.c:157-172 | Without the guard: creating below a regular file succeeds and no path reaches the new inode |
| `Namespace.TrailingSlashNamesNothing` | tp3-filesystem/fisopfs/fs.c:859-862 | Without the guard: a path ending in a slash gets an entry without a name, if its parent has a slot, and still does not resolve |
| `Namespace.RmdirDotDangles` | tp3-filesystem/fisopfs/fs.c:364-397 | Without the guard, of the routine alone: removing "d/." frees d while its own entry goes on naming it |
| `Namespace.RootCanBeRemoved` | tp3-filesystem/fisopfs/fs.c:388-397 | Without the guard, of the routine alone: removing "/." or "/.." of an empty file system frees the root |
| `Namespace.StraddlingNameIsLost` | tp3-filesystem/fisopfs/fs.c:159-167 | When the first block of a directory is full and another block is free, creating succeeds, the path does not resolve, and all other paths do as before |
| `Dirs.Volume.constructor` | tp3-filesystem/fisopfs/fs.c:116-122 | init_fs: an empty tree, the root's dots written as bytes |
| `Dirs.Volume.IterateOverDir` | tp3-filesystem/fisopfs/fs.c:469-527 | For a directory of any size, the two loops find the first entry the callback accepts, every block starting with a new entry, and its answer, 0, or -ENOTDIR |
| `Dirs.Volume.StoreInEntry` | tp3-filesystem/fisopfs/fs.c:708-729 | A store through an entry pointer changes that entry and no other, in whatever block |
| `Dirs.SeenIsWritten` | tp3-filesystem/fisopfs/fs.c:476-487 | Up to 124, the entries iteration sees are those written one behind the other |
| `Dirs.SeenAcross` | tp3-filesystem/fisopfs/fs.c:476-487 | The 125th is written across two blocks; the others are seen as before, and it is not |
| `Dirs.Volume.SearchInodeRec` | tp3-filesystem/fisopfs/fs.c:792-824 | Lookup in the bytes of the disk is the search the fold theorem is about |
| `Dirs.Volume.SearchInode` | tp3-filesystem/fisopfs/fs.c:826-844 | So it is with the length check, the stripped slash and the error codes |
| `Dirs.Volume.SearchParentDirectory` | tp3-filesystem/fisopfs/fs.c:846-870 | The backward scan cuts the path where the splitting theorem says |
| `Dirs.Volume.AddInodeToDirectory` | tp3-filesystem/fisopfs/fs.c:147-173 | The whole new namespace: a freed entry used again or one more, and the dots of a new directory if a block was left; with one full block, refused exactly without a free block, and otherwise no other inode is touched and the new entry is not seen |
| `Dirs.Volume.NewInode` | tp3-filesystem/fisopfs/fs.c:186-227 | Creating on the disk is creating in the namespace, error paths included, or, with one full block, the case `Namespace.StraddlingNameIsLost` is about |
| `Dirs.Volume.RemoveInode` | tp3-filesystem/fisopfs/fs.c:388-397 | So is removing, which gives the blocks back with the last link |
| `Dirs.Volume.Mknod` | tp3-filesystem/fisopfs/fisopfs.c:108-131 | mknod and mkdir: an existing path is refused, otherwise as new_inode; result code and namespace exactly as long as directories have at most 124 entries |
| `Dirs.Volume.Rmdir` | tp3-filesystem/fisopfs/fisopfs.c:154-175 | Only empty directories are removed |
| `Dirs.Volume.WriteFile` | tp3-filesystem/fisopfs/fisopfs.c:216-232 | Writing a file, across blocks and out of space, has the result and the effect of fiuba_write and leaves every directory entry as it was |
| `Dirs.Volume.CanCreate` | tp3-filesystem/fisopfs/fs.c:186-227 | Whether a creating call keeps to the guard is found out by lookups that change nothing |
| `Dirs.Volume.Perform` | tp3-filesystem/fisopfs/fisopfs.c:108-175 | One request, made if it keeps to the guard: result code and namespace exactly, and the tree is kept |
| `Dirs.Volume.Session` | tp3-filesystem/fisopfs/fs.c:116-122 | Main result: whatever is asked of a new volume, each request has its result and effect unless it breaks the guard, and at any time every inode in use has exactly one path without dots and no path leads to any other |
| `Dirs.ServedKeepsTree` | tp3-filesystem/fisopfs/fs.c:186-227 | The same of the namespace alone, as a fold over the requests |

## Left out

- Fs.Disk.FillWithNullBytes: of what lies behind the 1 KiB buffer nothing is known; with more than one spare block the bytes are those `Fs.Disk.Write` places, not stated again.
- Dirs.Volume.NewInode: in a directory that already has more than 124 entries, nothing is said of which entries iteration sees after one more is written; an inode number is not cut to 32 bits there.
- Dirs.Volume.Mknod: names of 256 bytes and more, permissions, times and the rest of the FUSE glue are not modelled; nor is serialization.
- Malloc.Heap.Free: the check of pointers by magic number, which ends the program, is left out, as are the statistics that only add up requests.
- Lifecycle.DispatchKeepsInvariantExactly: moving a page with a message is an outcome given to the call; `sys_page_*` and `sys_env_set_pgfault_upcall` do not touch this table.
- Lifecycle.SendNeverOverwrites: that the retry loop of `ipc_send` ends is not claimed; it need not.
- Mlfq.ServedWithinOneRound: when a demotion or a boost falls due is a free input, since the time in a queue is overwritten at every trap.
- EnvTable.Table.HandleTrap: a call of env_run, which does not return, is the choice it was made with; the spin lock, saved registers and the build without MLFQ_SCHED are left out.
- Pmap.Kernel.EnvPageAlloc: argument checks of the system calls around it (environment id, alignment, range) are left out.
- Pmap.ReferenceCountsAreExact: counts are unbounded; the field has 16 bits, so fewer than 65536 mappings of a page are assumed.
- TLB flushes, kernel mappings above UTOP, large pages, ELF loading, user memory checks, devices, boot and assembly.
- Sieve.EveryRunPrintsThePrimes: argument parsing and error exits of system calls are left out.
- The shell, xargs, find and ping-pong programs, printing, the monitor and the test programs: plumbing around library calls.
