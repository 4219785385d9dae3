# Verification of the microkernel and its servers

Dafny models, with proofs, of the parts of the system in which the state is most intricate. Each
source file that works by updating state is modelled in that form: a class whose methods run the
same loops and assignments over arrays and fields, proved equal to functions on values; the
properties are then proved of those functions, and over whole runs.

**Memory.** RAM is an array of 64-bit words, 512 to a frame. `FrameAllocator` is the bitmap
allocator, proved to be a set of free frames. `PageTable` and `Paging` are the four-level tables in
that RAM (section 4.5 of the Intel SDM, volume 3A): a heap invariant says that the tables form a
tree in which every table has one path, is apart from the free frames and, when new, is zeroed
before it is linked. Under it mapping and unmapping refine a flat table from page numbers to
mappings (`PagingRuns`). `UserMemory`, `ZeroMaps` and `Loader` compose allocator and tables:
SYS_MAP, zeroed regions with an exact count of the frames they take, and the loading of the twelve
boot programs; `MapRuns` treats runs of SYS_MAP calls, and `Userland` the run that sets up memory,
loads and then serves such calls. `HighFrames` says what becomes of a page table that the code cannot
reach.

**Kernel.** `Capabilities`, `Threads`, `Ipc` and `Trap` give the kernel as a transition system.
A kernel step runs with interrupts off, so steps are atomic; each blocking function is cut at its
call to schedule(), and a thread carries where it resumes. The steps are system call, tick, device
interrupt, page fault and resumption. `KernelInvariants` holds what every step keeps, `Delivery`
and `DeliverySteps` a record of every message and interrupt, `KernelRuns` the theorems over runs.
`StepLaws` says what a step does to each thread, `ReceiveLaws` what a receive returns and that every
interrupt counts. `StepEffects`, `Temporal` and `Authority` treat open calls, waiting times and the origin of rights,
`Incarnations` what outlives a thread in its slot. `Scenarios` holds runs from start-up that reach
the states in which the kernel departs from what one expects of it.
`KernelMachine` is the same kernel over an array of thread records, updated in place.

**Servers.** `LineEditor` is the console's line editor as a function of the keys, `KeyLaws` what the
keys mean, told of a line with a gap at the cursor, and what line a reader gets, `Terminal` what
the characters it sends show at the other end, `Console` the driver with its rings and buffers.
`Vga` is the scrolling text buffer. `Ustar` holds the archive format, a writer and the header walk
that inverts it; `FsServer` the server with its handles, and `FsRuns` its service loop.

## Where the code departs from its description

The code is modelled as it is; where that differs from its comments or from the obvious claim, the
difference is stated as a theorem.

- A page table is zeroed and written through the address equal to its frame number times 4096, but
  start-up maps only the first GiB so. On a machine with more RAM a map may be handed a frame above
  that for a table. A store to its address misses it (`HighFrames.StoreMisses`): it faults in the
  kernel (`HighFrames.ZeroAndLink`; an input: `Paging.HighFrameFaults`), or, if some thread has mapped
  that address, it wipes another frame and links the table with what it held
  (`HighFrames.UnzeroedTableShows`). Such a call is said to go astray: `Paging.Mmu.VmmMap` does so
  exactly if a frame it is handed for a table lies at or above 1 GiB, and a machine whose free frames
  all lie below does not (`Paging.LowMachine`, `Userland.StartUp`). The model ends at such a call.
- schedule() does not reselect a thread that is still running, so a sole running thread gives way to
  the idle context for one tick (`Temporal.SoleThreadIdles`; a run: `Scenarios.IdleRun`), though the
  comment at kernel/sched.c:6 says that idle runs only when nothing else is runnable.
- A delete inside the line leaves the screen wrong: `Terminal.DeleteAtTracks` and
  `Terminal.DeleteLeftTracks` say how, and exactly when it happens to be right.
- A port range whose base and length add up to 65536 or more gives no port
  (`Capabilities.CoversExactly`). A word read checks one port and reads two (`Authority.WordReads`).
- The page-fault path ignores the result of both its calls: a pending interrupt ends its receive
  without a verdict (`KernelRuns.SwallowedExactly`; a run: `Scenarios.SwallowedRun`), and the verdict
  is then whatever the uninitialised reply holds, which is a parameter of the step. A verdict is
  refused when it finds the faulting thread not yet blocked in its receive, or woken from it
  (`Temporal.VerdictExactly` has the exact condition, `Scenarios.RefusedRun` a run). A fault that had
  to wait with its message asks whoever is the pager by then (`ReceiveLaws.AsksExactly`).
- A send that passes its check and then fails, because no thread lives in the slot, leaves its call
  open (`StepEffects.FailureChangesNothing`).
- Below 512 GiB a page asked for with the user bit is not accessible to user code, because the
  start-up entry above it lacks the bit (`PagingRuns.GrantedFromBoot`).
- The page loader ignores failures: out of frames it maps frame 0 (`ZeroMaps.MapZeroPage`). A SYS_MAP
  that fails loses the frame it took (`UserMemory.SysMap`).
- Rights and staged messages name a slot, not a thread: they outlive the thread in it
  (`Incarnations.WhoReceives`, `Incarnations.RightsOutlive`; a run: `Scenarios.OutlivesRun`).
  `Authority` therefore speaks of the thread that is in the slot.
- A read request of length 0 makes the console write outside the buffer, at the first key that ends
  the line or recalls one, and no other does (`LineEditor.OverrunsExactly`, `Console.StuckExactly`;
  an input: `Console.EmptyReadOverruns`). A file read of length 0 takes the size of handle 0 for its
  limit, and writes outside the buffer unless one of the two files is empty (`FsRuns.ServeRead`). A listing into an empty buffer writes its terminator outside
  it, and no other does (`FsServer.Server.FsList`). The model ends at such a write.
- A header with no zero byte makes the file server read past it, if a path agrees with it to its end
  (`FsServer.Server.FsOpen`), or if it is listed with room for a sector (`FsServer.Server.FsList`). On
  an archive neither happens (`FsServer.ArchivesStay`, `FsServer.ArchivesListed`). The model ends at
  such a read.

## Model

| member | source | states |
|---|---|---|
| `FrameAllocator.Pmm.MarkUsed` | kernel/vm.c:23-29 | exactly the frame leaves the free set, and the count of free frames stays its size; a frame past the end or in use changes nothing |
| `FrameAllocator.Pmm.MarkFree` | kernel/vm.c:31-37 | the reverse of marking used, with the same guards |
| `FrameAllocator.Pmm.Init` | kernel/vm.c:39-71 | after start-up a frame is free exactly if its 4 KiB lie wholly inside some one reported region and not below the page-aligned end of the bitmap, for any region list, overlapping and unaligned ones included; the search starts at the first frame behind the bitmap |
| `FrameAllocator.Pmm.FreeReported` | kernel/vm.c:53-58 | the region loop frees the union of the frames wholly inside each region |
| `FrameAllocator.Pmm.AllocFrame` | kernel/vm.c:73-85 | hands out the free frame that is nearest in cyclic order from the hint, removes only that frame and moves the hint behind it; while frame 0 is in use, 0 is returned exactly when no frame is free |
| `FrameAllocator.Pmm.FreeFrame` | kernel/vm.c:87-90 | exactly the frame returns to the free set; nothing happens for one past the end |
| `FrameAllocator.ProbeDistance` | kernel/vm.c:75-76 | the search order is a bijection: every frame is met once, at the step its cyclic distance names |
| `FrameAllocator.FirstProbe` | kernel/vm.c:75-79 | the first clear bit the search meets is the free frame at least distance |
| `FrameAllocator.NoneFree` | kernel/vm.c:81 | a search that meets only set bits means that no frame is free |
| `FrameAllocator.FreeAfterSet` | kernel/vm.c:19-29 | setting a bit removes one element of the free set and keeps the padding bits set |
| `FrameAllocator.LowTakenRest` | kernel/vm.c:73-85 | after n frames of a pool have been handed out, all below 1 GiB, there are n fewer, and any x more are all below 1 GiB exactly if the first n + x of the pool are |
| `PageTable.PathInTree` | arch/x86_64/mm/paging.c:66-76 | every table that the walk of a page reaches is a node of the tree at the level and page prefix of the walk |
| `PageTable.NoAliasing` | arch/x86_64/mm/paging.c:47-64 | two walks that meet in a table share the page prefix down to it: no table is reachable by two paths |
| `PageTable.WalkAgrees` | arch/x86_64/mm/paging.c:66-78 | a change that leaves the tables of the tree alone changes no translation |
| `PageTable.LinkKeepsTree` | arch/x86_64/mm/paging.c:52-59 | linking a zeroed frame that was in no table, at an absent entry, gives a tree again |
| `PageTable.LinkWalk` | arch/x86_64/mm/paging.c:52-59 | linking an empty table changes the translation and rights of no page |
| `PageTable.LinkSupplies` | arch/x86_64/mm/paging.c:52-59 | linking a table of a path supplies exactly the pages that share the path down to it, and no other page has one table more or less |
| `PageTable.LeafChangesOne` | arch/x86_64/mm/paging.c:78 | storing a level-1 entry changes the translation of one page, to what the entry says, and of no other |
| `PageTable.LeafKeepsTree` | arch/x86_64/mm/paging.c:78-95 | storing a level-1 entry keeps the tree |
| `PageTable.DataKeepsView` | arch/x86_64/mm/paging.c:17 | writing into a frame that is no table changes no translation |
| `PageTable.LeafFields` | arch/x86_64/mm/paging.c:38-44 | the leaf entry for an address and flags decodes to the masked frame, the requested write and user bits, present, and not large |
| `Paging.IndicesOfAddress` | arch/x86_64/mm/paging.c:69-72 | the four index fields of an address are the digits of its 36-bit page number |
| `Paging.Mmu.Boot` | arch/x86_64/boot/loader.S:37-58 | the start-up tables form a valid tree whose translation is the identity on the first GiB, in 2 MiB pages, and nothing else; the tables lie in that GiB, where the code can reach them |
| `Paging.Mmu.NextTable` | arch/x86_64/mm/paging.c:47-64 | gives the next table on the path of a page; creating one uses one free frame, changes no translation and no frame but tables, fails only at a large page or with no frame left, and goes astray exactly if the frame handed out is above the first GiB; without `create` nothing changes; a table is only reached through the identity map |
| `Paging.Mmu.CreateTable` | arch/x86_64/mm/paging.c:52-59 | a new table comes from a free frame, zeroed through the identity map before it is linked, and joins the tree at its place; a frame above the first GiB is not zeroed: the call goes astray |
| `Paging.Mmu.VmmMap` | arch/x86_64/mm/paging.c:66-81 | succeeds exactly if no large page is on the path, there are as many free frames as missing tables and the frames handed out for them are below 1 GiB, and goes astray exactly if such a frame is needed and is not; on success the page translates to the masked frame with the requested rights, combined along the path, and no other page changes; a call that returns -1 changes no translation, though tables it made stay; the tree, the zeroing, the identity map, the reach of all tables through it and the separation of tables from free frames are kept |
| `Paging.Mmu.VmmUnmap` | arch/x86_64/mm/paging.c:83-97 | removes exactly one 4 KiB translation, or nothing where a table is missing or a large page is met; frees no frame |
| `Paging.LowMachine` | arch/x86_64/mm/paging.c:17-59 | no map goes astray while all free frames lie in the first GiB |
| `Paging.NextFrameHigh` | arch/x86_64/mm/paging.c:52-59 | if the next frame lies above the first GiB, every map with a table to create goes astray |
| `Paging.HighFrameFaults` | arch/x86_64/mm/paging.c:52-59 | an input that fails: on a machine with one frame above the first GiB, and only that one free, no page above 512 GiB can be mapped after boot, and the store that zeroes the new table meets no mapping |
| `HighFrames.StoreMisses` | arch/x86_64/mm/paging.c:17-59 | outside large pages, a store to the address of a frame reaches it exactly if the page there is mapped to the frame itself; for a free frame that is never so while no page shows free frames |
| `HighFrames.ZeroAndLink` | arch/x86_64/mm/paging.c:52-59 | the zeroing and linking of next_table with each store sent through the tables: it faults, with nothing changed, exactly if the frame's address is not mapped, and otherwise zeroes the frame that the address leads to |
| `HighFrames.UnzeroedTableShows` | arch/x86_64/mm/paging.c:52-59 | if the address of a free frame that becomes a table leads to frame g, then g is not that frame and no table, and is a mapped page's; after the zeroing and the link g is zero, the new table holds what it held before, every page whose path leads through it shows that, and no other page changes its translation |
| `PagingRuns.Run` | arch/x86_64/mm/paging.c:66-97 | any sequence of maps and unmaps leaves, for every page, what a flat table from pages to mappings holds after the same operations, up to a map that goes astray; none does if all free frames lie in the first GiB |
| `PagingRuns.LargePageStays` | arch/x86_64/mm/paging.c:61-62 | in the flat table a large page survives any run |
| `PagingRuns.IdentityMapStays` | arch/x86_64/mm/paging.c:61-62 | no run of maps and unmaps from the boot state changes the identity map of the first GiB |
| `PagingRuns.UserPagesAreHigh` | arch/x86_64/mm/paging.c:38-44 | below 512 GiB no mapping is ever user-accessible, whatever flags are asked for, because the boot entries above it lack the user bit |
| `PagingRuns.GrantedFromBoot` | arch/x86_64/mm/paging.c:38-44 | the requested rights are granted in full exactly from 512 GiB up or when no user access is asked |
| `UserMemory.SysMap` | arch/x86_64/trap/trap.c:120-128 | SYS_MAP succeeds exactly when there are frames for the page and its missing tables, those for tables below 1 GiB; it then takes one frame for the page and one for each missing table, the page is open to user code for reading and writing as far as its path allows, and a failed call loses the frame it took; afterwards the mapped frames are pairwise distinct and apart from every table, every free and every reserved frame, and no other page changes translation or content |
| `UserMemory.RoomCounted` | arch/x86_64/trap/trap.c:120-128 | the success condition counted: no large page, a frame for the page and one for each missing table, those of the tables below 1 GiB |
| `UserMemory.MapKeepsExclusive` | arch/x86_64/trap/trap.c:120-128 | a fresh frame that is mapped, or lost in a failed map, keeps the exclusive ownership of frames |
| `UserMemory.MapKeepsSafe` | arch/x86_64/trap/trap.c:120-128 | mapping a frame that is neither a table nor free keeps page tables out of reach of user pages |
| `MapRuns.MapAll` | arch/x86_64/trap/trap.c:120-128 | over any run of SYS_MAP calls, at any addresses and with or without frames left, up to one that goes astray, every mapped page has a frame of its own apart from tables and reserved frames, no page but those named changes, and every page whose call succeeded stays open to user code as far as its path allows; all calls succeed exactly if no page named is a large one and there are frames for the calls and for the tables their pages lack, and then just those are taken, unless a call goes astray; none does if all free frames, or those needed, lie in the first GiB |
| `ZeroMaps.MapZeroPage` | kernel/proc.c:42-51 | one round, whose calls may fail unnoticed: it gets through exactly if it does not go astray and the tables are there or both calls succeed, and then the page is zero; out of frames it maps frame 0; if both calls succeed it has taken a frame for the page and one for each missing table, the page has a frame of its own and nothing else changes; if not, no frame is left |
| `ZeroMaps.MapZeroed` | kernel/proc.c:42-51 | every allocation succeeds exactly when there are as many free frames as pages and missing tables, unless a table falls above the first GiB; then every page of the region is mapped, zero, open to user code as far as its path allows, and exclusively owned, and nothing else changes; otherwise tables still stay out of reach and no frame is left |
| `ZeroMaps.LackingSupplied` | kernel/proc.c:42-51 | the tables that a set of pages lacks are counted once however many pages share them: mapping one page lowers the count by exactly the tables it had to create |
| `ZeroMaps.CountedMore` | kernel/proc.c:42-86 | two pieces of loading one after the other need together what the count of pages and lacking tables says, and fail or go astray only if that was not there |
| `Loader.LoadOne` | kernel/proc.c:53-62 | if every allocation succeeds, the image region holds the binary followed by zeros, the stack is zero, its pages have the write and user rights their paths allow, and no page elsewhere has changed; whether all succeed is decided by the exact count of pages and lacking tables |
| `Loader.LoadedKept` | kernel/proc.c:53-62 | a loaded program stays loaded, with its rights, when something is loaded on other pages |
| `Loader.ProgsApart` | kernel/proc.c:64-79 | the pages of any two programs are disjoint at the link addresses of the build |
| `Loader.ProgPlaces` | kernel/proc.c:64-86 | every program fits its address range at its link address |
| `Loader.RootfsLoadAll` | kernel/proc.c:64-93 | if every allocation succeeds all twelve programs are loaded, the earlier ones undisturbed by the later ones; all succeed exactly when the free frames are as many as the pages and the tables lacking, unless a table falls above the first GiB |
| `Loader.LoadedReads` | kernel/proc.c:53-93 | reading a loaded program through the page tables gives its binary, then zeros to the end of the image, and zeros in the stack |
| `Userland.NineTables` | kernel/proc.c:64-86 | after boot the twelve programs lack exactly nine tables |
| `Userland.BootReady` | arch/x86_64/boot/loader.S:37-58 | the boot state meets what loading asks of memory: exclusive frames, and no large page on a page of a program |
| `Userland.BootAndRun` | kernel/proc.c:42-93 | from the boot state every allocation of the loader succeeds exactly with 249 free frames, unless a table falls above the first GiB, which it does not if those frames are below; then, after any SYS_MAP calls, frames are exclusive, and every program whose pages no call named is as it was loaded, its pages open to user code for reading and writing, as is every page from 512 GiB up that a SYS_MAP call has mapped |
| `Userland.StartUp` | kernel/proc.c:42-93 | the same from the memory map on: the allocator set up over the reported regions, the boot tables in the kernel image, the frames below the end of the bitmap reserved; on a machine with no RAM above 1 GiB neither the loading nor any SYS_MAP call goes astray |
| `Capabilities.GrantEndpointOk` | kernel/cap.c:44-59 | granting an endpoint keeps used slots a prefix with distinct endpoints, adds just that endpoint unless the table is full, and changes no port range |
| `Capabilities.GrantIoOk` | kernel/cap.c:16-29 | granting a port range adds just that range unless the table is full, and no endpoint |
| `Capabilities.CoversExactly` | kernel/cap.c:36-39 | a range covers exactly its own ports if its end stays below 65536, and none otherwise: the end is computed in 16 bits |
| `Capabilities.PortsOfRanges` | kernel/cap.c:31-42 | the ports a table gives access to are those of its ranges that end below 65536 |
| `Threads.FindsNearest` | kernel/sched.c:62-68 | the search finds the runnable slot nearest in cyclic order, and none only if none is runnable |
| `Threads.ScheduleComesNearer` | kernel/sched.c:56-83 | after a schedule() that leaves a runnable thread waiting, that thread is strictly nearer its turn |
| `Temporal.IdleExactly` | kernel/sched.c:62-71 | the idle context is chosen exactly when no thread is runnable on entry, and a still running thread does not count |
| `Temporal.SoleThreadIdles` | kernel/sched.c:62-71 | so a sole running thread yields to the idle context for one tick and is then run again unchanged |
| `Temporal.StepNearer` | kernel/sched.c:56-83 | no step of any thread moves a waiting runnable thread back: it stays runnable, and each call of schedule() brings it nearer or dispatches it |
| `Temporal.BoundedWaiting` | kernel/sched.c:56-83 | in every run a runnable thread is dispatched within sixteen calls of schedule(), whatever others block, wake, exit or are created |
| `KernelInvariants.ScheduleKeeps` | kernel/sched.c:56-83 | schedule() keeps the thread invariants, restores that exactly the current thread is running, and changes nothing but who runs |
| `KernelInvariants.SendKeeps` | kernel/ipc.c:36-59 | a send keeps every kernel invariant: ids, table shape, states that fit message states, no lost rendezvous, no sleep on a pending interrupt |
| `KernelInvariants.ReceiveKeeps` | kernel/ipc.c:61-99 | so does a receive, on each of its three paths |
| `KernelInvariants.ContinueKeeps` | kernel/ipc.c:57-98 | and the rest of a send or receive after the switch back |
| `KernelInvariants.SyscallKeeps` | arch/x86_64/trap/trap.c:83-192 | and every system call |
| `KernelInvariants.StepKeeps` | arch/x86_64/trap/trap.c:194-259 | and so every step of the kernel: system call, tick, interrupt, page fault, resumption |
| `StepLaws.ResumeStep` | arch/x86_64/trap/trap.c:194-231 | where every thread goes on after any step: a fault leaves user code until a receive of the thread returns, a blocked send or receive until it is done, and nothing else moves a thread |
| `StepLaws.BlockedStep` | kernel/ipc.c:36-99 | which threads sleep after any step: those who slept and were not woken by a hand-over, the taking of their message or an interrupt in a receive, and the acting thread exactly if its message waits or it finds none |
| `StepLaws.DeadStep` | arch/x86_64/trap/trap.c:91-94 | a thread dies exactly by its own exit or by a verdict on its fault, and stays dead until its slot is made anew |
| `StepLaws.YieldStep` | kernel/sched.c:56-83 | the processor changes hands exactly at a tick and when the acting thread sleeps or dies, and goes to the runnable thread that comes next in cyclic order |
| `StepLaws.RegistersStep` | arch/x86_64/trap/trap.c:129-132 | the pager, and the handler of an interrupt line, is the last thread to have asked for it |
| `StepLaws.SendExactly` | arch/x86_64/trap/trap.c:68-104 | SYS_SEND for any destination: it is refused exactly if the sender may not send there or no thread lives there, handed over exactly if the destination waits for the sender or for anybody, and staged otherwise, with the message sent |
| `StepLaws.FaultTells` | arch/x86_64/trap/trap.c:214-224 | a page fault tells the pager the number of the thread and the address; it is lost exactly if the pager does not live |
| `StepLaws.VerdictDecides` | arch/x86_64/trap/trap.c:225-231 | a page fault's receive that returns kills the thread exactly if the first data word is not 0, and otherwise the thread runs on in user code; after an interrupt the word is what the reply variable held |
| `StepLaws.ReceiveSpares` | arch/x86_64/trap/trap.c:105-112 | nothing that SYS_RECV returns kills its caller, which runs on in user code |
| `StepLaws.SpawnExactly` | kernel/sched.c:36-54 | SYS_SPAWN makes a thread exactly if the program exists and some slot has no living thread, and takes the first such slot |
| `ReceiveLaws.AsksExactly` | kernel/ipc.c:61-84 | a receive takes a pending interrupt first, else the message of the lowest-numbered thread it asked for that is blocked sending to it, else it sleeps, waiting for whom it asked |
| `KernelRuns.Always` | arch/x86_64/trap/trap.c:194-259 | every state of every run satisfies the kernel invariants and agrees with the record of messages and interrupts |
| `KernelRuns.NeverStranded` | kernel/ipc.c:17-99 | in no reachable state is a sender blocked on a receiver that is blocked receiving from it or from anyone, under all interleavings, exits and slot reuse |
| `KernelRuns.ExactlyOnce` | kernel/ipc.c:42-98 | the message of every accepted send is at any time in exactly one place: unaltered in its blocked sender, unaltered in its woken destination, or returned by exactly one receive of its destination with its content and its sender; a send has returned 0 only in the latter two |
| `KernelRuns.NothingInvented` | kernel/ipc.c:71-98 | every message a receive returns was sent to that thread, by the sender it names, with that content |
| `ReceiveLaws.ReturnsAsked` | kernel/ipc.c:61-98 | in every run, what a receive returns, at once or after it has slept, is a message from the thread it asked for, or from any if it asked for any, or an interrupt; the receive of a page fault asks for the thread that is pager when it begins |
| `ReceiveLaws.RaxIsSender` | arch/x86_64/trap/trap.c:105-112 | a receive that returns a message has it recorded for the receiving thread, as it was sent, and leaves its sender's number in rax; -2 after an interrupt |
| `KernelRuns.CallsGrowAlong` | kernel/ipc.c:36-99 | along a run the record only grows: no call is dropped or altered, and a message only moves forward |
| `Incarnations.WhoReceives` | kernel/ipc.c:36-98 | the thread that receives a message is the one that was in the slot when it was sent exactly if the slot has not been made anew in between; and it always is when the receiver was waiting at the send |
| `Incarnations.RightsOutlive` | kernel/sched.c:36-54 | when a slot is made anew, whoever held its endpoint may send to the new thread, and a call open to it lets the new thread answer |
| `KernelRuns.InterruptsConserved` | kernel/ipc.c:63-94 | interrupts posted to a thread equal those returned plus those pending; a thread blocked receiving has none pending, and a woken receiver that no sender reached has one |
| `ReceiveLaws.IrqExactly` | arch/x86_64/trap/trap.c:244-258 | a device interrupt adds one to the count of the living thread registered for its line, whatever is pending, wakes it out of a receive, and changes nothing else; with no such thread it changes nothing |
| `ReceiveLaws.PostedIsArrivals` | arch/x86_64/trap/trap.c:244-258 | in every run the interrupts counted for a thread are the interrupt events since it was made at which it was registered for the line |
| `ReceiveLaws.NoInterruptLost` | arch/x86_64/trap/trap.c:244-258 | so every interrupt that has come for a thread is pending, has been returned to its user code, or was lost to its page faults |
| `KernelRuns.SwallowedExactly` | arch/x86_64/trap/trap.c:219-230 | an interrupt is lost to user code exactly when the page-fault path receives while one is pending, or is woken by one |
| `DeliverySteps.StepRecorded` | arch/x86_64/trap/trap.c:194-259 | every step keeps the record true of the kernel buffers |
| `Delivery.RecordTaken` | kernel/ipc.c:71-78 | taking a waiting sender's message consumes exactly the call that staged it and disturbs no other message |
| `Delivery.RecordDelivered` | kernel/ipc.c:42-48 | handing a message over disturbs no other message |
| `Delivery.RecordReturned` | kernel/ipc.c:96-98 | a woken receive returns the message of exactly the call that filled its buffer |
| `StepEffects.CallToStep` | arch/x86_64/trap/trap.c:98-111 | the open call of a thread after any step, in full: an allowed send sets it, a SYS_RECV that hears from its target closes it, a new thread has none, nothing else touches it |
| `Temporal.WindowStep` | arch/x86_64/trap/trap.c:68-111 | while a caller lives, its call to b is open after a step exactly if it was and the step does not end it, or the step is a send to b |
| `Temporal.ReplyWindow` | arch/x86_64/trap/trap.c:68-111 | from a send to b that passes its check until the caller hears from b or sends elsewhere, b may send to the caller in every state of every interleaving |
| `Temporal.VerdictExactly` | arch/x86_64/trap/trap.c:219-230 | a page fault opens no such window: for a thread anywhere in its fault path, the pager's answer is refused exactly if the pager may not send to it: neither is thread 0, the pager holds no endpoint and no older call of the thread to it is open, and the thread is not blocked receiving from it, be it not yet or, woken by an interrupt, no longer; and it is delivered exactly if the thread also waits for it |
| `Scenarios.RefusedRun` | arch/x86_64/trap/trap.c:72-81 | a run from start-up in which the pager takes a fault and answers at once, and the answer is refused |
| `Scenarios.SwallowedRun` | arch/x86_64/trap/trap.c:209-230 | a run from start-up in which a device interrupt for a thread comes before its fault and is lost in the fault path, which then has no verdict |
| `Scenarios.IdleRun` | kernel/sched.c:62-71 | a run of two ticks from start-up after which the idle context runs while thread 0 could |
| `Scenarios.OutlivesRun` | kernel/ipc.c:51-59 | a run from start-up in which a message sent to one thread is received by another, made in its slot after it exited |
| `StepEffects.HoldStep` | arch/x86_64/trap/trap.c:113-187 | a thread holds an endpoint after a step exactly if its slot is not made anew and it held it, was granted it by thread 0 or a holder, or spawned it, room permitting |
| `StepEffects.PortStep` | arch/x86_64/trap/trap.c:146-152 | a step adds a port range to a thread only as a grant of thread 0 that finds room; only a new thread loses ranges |
| `StepEffects.FailureChangesNothing` | arch/x86_64/trap/trap.c:83-192 | a system call that returns -1 has changed nothing, except a send that passes its check and finds no living thread: it leaves an open call to the slot |
| `StepEffects.SuccessTells` | arch/x86_64/trap/trap.c:113-187 | a grant that returns 0 has been made; a spawn returns the thread it made, in a slot that was free, and its endpoint is the parent's unless the parent's table is full |
| `Authority.ChainOf` | arch/x86_64/trap/trap.c:113-187 | whoever holds an endpoint came by it along a chain of grants that starts at thread 0 or at the spawn that returned it, each link made to the thread that is still in the slot |
| `Authority.ChainInRun` | arch/x86_64/trap/trap.c:113-187 | so in every run, with the chain made of its own steps |
| `Authority.UnheldStays` | arch/x86_64/trap/trap.c:113-187 | an endpoint that nobody holds stays unheld until thread 0 grants it or a spawn returns it |
| `Authority.RangesAreGranted` | arch/x86_64/trap/trap.c:146-152 | the port ranges of a thread are exactly those thread 0 has granted it since it was created |
| `Authority.PortsAreGranted` | arch/x86_64/trap/trap.c:133-152 | cap_has_port accepts for a thread exactly the ports of the ranges thread 0 has granted it that end below 65536 |
| `Authority.WordReads` | arch/x86_64/trap/trap.c:142-145 | SYS_INW checks one port and reads two: it reaches a port that the check refuses exactly if every granted range that ends below 65536 ends at the port checked or lies apart from it |
| `Authority.TablesStayOk` | kernel/cap.c:5-69 | in every reachable state the used slots of a table are a prefix with distinct endpoints |
| `KernelMachine.Machine.SchedInit` | kernel/sched.c:23-34 | the table at start-up |
| `KernelMachine.Machine.ThreadCreate` | kernel/sched.c:36-54 | the loop finds the first unused or dead slot and makes it anew, or returns -1 |
| `KernelMachine.Machine.Schedule` | kernel/sched.c:56-83 | the search and the switch, in place, are the scheduler of the transition system |
| `KernelMachine.Machine.CapClear` | kernel/cap.c:5-14 | the loop empties the table |
| `KernelMachine.Machine.CapGrantIo` | kernel/cap.c:16-29 | fills the first free slot; 0 exactly if the thread exists and there is room |
| `KernelMachine.Machine.CapHasPort` | kernel/cap.c:31-42 | true exactly if some slot covers the port, with the 16-bit end |
| `KernelMachine.Machine.CapGrantEndpoint` | kernel/cap.c:44-59 | adds the endpoint once, in the first free slot; 0 exactly if the thread exists and held it before or has room |
| `KernelMachine.Machine.CapHasEndpoint` | kernel/cap.c:61-69 | true exactly if some slot holds the endpoint |
| `KernelMachine.Machine.FindWaitingSender` | kernel/ipc.c:17-27 | the lowest slot blocked sending to this thread that matches |
| `KernelMachine.Machine.IpcSendLocked` | kernel/ipc.c:36-59 | a send in place, up to its return or its switch |
| `KernelMachine.Machine.IpcRecvLocked` | kernel/ipc.c:61-84 | a receive in place, up to its return or its switch |
| `KernelMachine.Machine.IpcRecvWoken` | kernel/ipc.c:86-98 | the rest of a receive after the switch back |
| `KernelMachine.Machine.IpcSendAllowed` | arch/x86_64/trap/trap.c:68-81 | the send check, exactly |
| `KernelMachine.Machine.Syscall` | arch/x86_64/trap/trap.c:83-192 | the dispatch in place equals the step of the transition system, and leaves in rax what a call on threads, messages or rights returns: 0, -1, the child or the sender |
| `KernelMachine.Machine.DeviceIrq` | arch/x86_64/trap/trap.c:241-258 | counts the interrupt for a live registered thread and wakes it only out of a receive |
| `KernelMachine.Machine.PageFault` | arch/x86_64/trap/trap.c:213-224 | a fault of a thread that is not the pager becomes a send to the pager |
| `KernelMachine.Machine.Handle` | arch/x86_64/trap/trap.c:194-259 | one whole step in place equals the step of the transition system and keeps every invariant |
| `LineEditor.KeysSplit` | drivers/console/main.c:160-204 | editing a stream in two parts equals editing it whole |
| `LineEditor.OverrunsExactly` | drivers/console/main.c:126-158 | a key makes the editor write outside the reader's buffer exactly if the buffer is empty and the key ends the line or recalls one: the terminator has no place, and the subtraction that cuts a recalled line wraps around |
| `LineEditor.ReadsInBounds` | drivers/console/main.c:96-158 | no stream of keys makes a read write outside its buffer exactly if the buffer is not empty |
| `LineEditor.HistoryIsNewest` | drivers/console/main.c:67-80 | the sixteen-entry history is the newest part of the unbounded one: depth k is the k-th most recently accepted line |
| `LineEditor.NewestIsLast` | drivers/console/main.c:67-80 | the newest entry is the last accepted line cut to 127 bytes; no entry is empty; neighbours are equal only if both fill their entries |
| `LineEditor.UpShows` | drivers/console/main.c:126-147 | k steps up show the k-th newest line, as far as it fits |
| `LineEditor.UpAndDown` | drivers/console/main.c:126-147 | k steps up and k down restore the line in progress, cursor at its end, exactly if it is shorter than 128 bytes |
| `KeyLaws.KeysAct` | drivers/console/main.c:160-204 | each key or escape sequence does to the line, told as the text before and behind the cursor, what its name says: write, erase, delete, left, right, home, end, erase all, or nothing, with every spelling of each |
| `KeyLaws.StrokesAct` | drivers/console/main.c:160-204 | any sequence of such keys does their acts one after the other |
| `KeyLaws.EnterEnds` | drivers/console/main.c:149-188 | a carriage return or newline hands over the whole line, wherever the cursor is |
| `KeyLaws.CancelEnds` | drivers/console/main.c:197-198 | Ctrl-C hands over an empty line |
| `KeyLaws.TextGoesIn` | drivers/console/main.c:96-104 | text typed where there is room stands at the cursor, in order, and the cursor behind it |
| `KeyLaws.ReaderGets` | drivers/console/main.c:149-238 | a read on an idle driver, any keys and Enter: the reader gets the line that the acts of the keys make of an empty one |
| `KeyLaws.ReaderGetsText` | drivers/console/main.c:149-238 | text that fits, and Enter, is replied as it was typed |
| `KeyLaws.ArrowsShow` | drivers/console/main.c:126-147 | after any arrows up and down in any order the line shown is the one at the depth they lead to, cursor at its end |
| `KeyLaws.ReaderRecalls` | drivers/console/main.c:126-238 | a read starts below the history: arrows and Enter bring back the line they lead to |
| `KeyLaws.HistoryIsSelected` | drivers/console/main.c:67-80 | the history holds exactly the accepted lines that are neither empty nor equal to what was last kept before them, each cut to 127 bytes, newest first |
| `Terminal.InsertTracks` | drivers/console/main.c:96-104 | after an insertion the terminal line is the buffer followed by blanks with the cursor in place |
| `Terminal.SetLineTracks` | drivers/console/main.c:126-134 | so after a recalled line |
| `Terminal.MoveTracks` | drivers/console/main.c:120-123 | so after every cursor movement and after the line is killed |
| `Terminal.DeleteAtTracks` | drivers/console/main.c:113-119 | after the delete key the cell at the cursor is blank, the old last character stays and the cursor is off by the length of the rest; the screen is right exactly if the cursor is at the line end, or stands at the margin with blanks in the wrong cells |
| `Terminal.DeleteLeftTracks` | drivers/console/main.c:105-112 | the same for backspace |
| `Terminal.ScreenTracks` | drivers/console/main.c:160-204 | for every stream of keys without a delete inside the line the screen shows the buffer after every key, and a finished line leaves a fresh one |
| `Terminal.KeysVisible` | drivers/console/main.c:199-202 | only visible characters enter the line |
| `Console.StreamsDivide` | drivers/console/main.c:160-226 | however bytes are divided among interrupts, the line, history, output, replies and queued bytes are those of the undivided stream |
| `Console.RequestsCommute` | drivers/console/main.c:224-238 | over any run of interrupts and read requests in which each request finds the driver idle, the state and all replies are as if all bytes had been received first: they do not depend on when the requests come |
| `Console.ReadCommutes` | drivers/console/main.c:233-238 | an idle driver may be asked for a line before the bytes come or after |
| `Console.StuckExactly` | drivers/console/main.c:126-158 | the driver comes to a write outside the reader's buffer exactly in a read of length 0, at a key that ends the line or recalls one |
| `Console.EmptyReadOverruns` | drivers/console/main.c:149-152 | an input that does it: a read of length 0 and a carriage return |
| `Console.LineEnds` | drivers/console/main.c:160-204 | a line ends at a carriage return, newline or Ctrl-C, and all later bytes stay queued in order |
| `Console.HistoryKept` | drivers/console/main.c:149-158 | the history always is the newest part of all replied lines |
| `Console.IrqTracks` | drivers/console/main.c:224-226 | the terminal over a whole interrupt, from what the driver sends |
| `Console.SeenKept` | drivers/console/main.c:199-202 | the line, the parked line and the history hold visible characters only |
| `Console.TakenIs` | drivers/console/main.c:39-54 | a burst of bytes fills the ring in order and the excess is dropped from its end |
| `Console.Console.RingPush` | drivers/console/main.c:39-43 | appends to the queue, or drops the byte when 255 are queued |
| `Console.Console.RingPop` | drivers/console/main.c:44-50 | takes the oldest byte, or -1 |
| `Console.Console.HistPush` | drivers/console/main.c:67-80 | the ring in place is the history of the editor |
| `Console.Console.InsChar` | drivers/console/main.c:96-104 | the shift loop and the echo are the insertion of the editor |
| `Console.Console.DelLeft` | drivers/console/main.c:105-112 | the shift loop and the redraw are the backspace of the editor |
| `Console.Console.DelAt` | drivers/console/main.c:113-119 | and the delete key |
| `Console.Console.SetToLine` | drivers/console/main.c:126-134 | erases the visible line and loads another |
| `Console.Console.HistNav` | drivers/console/main.c:135-147 | parks the live line and recalls an entry, as the editor does |
| `Console.Console.FinishLine` | drivers/console/main.c:149-158 | terminates the line in the reader's buffer, remembers it and replies |
| `Console.Console.EditKey` | drivers/console/main.c:163-203 | one byte through the escape-sequence machine |
| `Console.Console.Edit` | drivers/console/main.c:160-204 | the loop over the ring is the editor over the queue |
| `Console.Console.Irq` | drivers/console/main.c:224-226 | an interrupt is the driver of the undivided stream on the bytes that the ring has room for, and the rest is dropped |
| `Console.Console.ReadLine` | drivers/console/main.c:233-238 | a read of any length, taken as 32 bits, starts with an empty line and consumes bytes typed ahead; it writes outside the buffer exactly as `Console.StuckExactly` says |
| `Vga.WindowTypes` | servers/vga/main.c:24-31 | one character on the 80x25 buffer is the same character on a terminal of unbounded height, seen through a window on its last 25 rows |
| `Vga.BufferIsWindow` | servers/vga/main.c:19-36 | after a clear and any characters the buffer is that window |
| `Vga.WindowFeeds` | servers/vga/main.c:19-23 | scrolling is a new row on the unbounded terminal |
| `Vga.TypesText` | servers/vga/main.c:29-30 | text typed on a row stands there unchanged |
| `Vga.TypeTells` | servers/vga/main.c:24-31 | the cursor after any character as one place counted from the start, and every cell: newline, return, backspace, and printing on through the end of a row |
| `Vga.TextStands` | servers/vga/main.c:29-30 | text of any length stands where it was typed, from row to row, and nothing else changes |
| `Vga.LinesStand` | servers/vga/main.c:24-31 | lines printed from the start of a blank row stand one to a row |
| `Vga.NewestLinesShow` | servers/vga/main.c:19-36 | after a clear and any number of lines the screen shows the newest twenty-four, one to a row, above the cursor's empty row |
| `Vga.Display.Scroll` | servers/vga/main.c:19-23 | the copy loop drops the first row and blanks the last |
| `Vga.Display.Putc` | servers/vga/main.c:24-31 | one character in place; the cursor stays on the screen |
| `Vga.Display.Clear` | servers/vga/main.c:32-36 | blank everywhere, cursor home |
| `Vga.Display.Write` | servers/vga/main.c:118-121 | printing text keeps the buffer the window of the unbounded terminal |
| `Ustar.DigitsRead` | servers/fs_server/main.c:19-25 | reading back a number written in octal digits gives the number |
| `Ustar.CStrIs` | servers/fs_server/main.c:27-31 | a string with a zero byte behind it reads as itself |
| `Ustar.FindInverts` | servers/fs_server/main.c:39-58 | on any disk that encodes files, whatever their headers say besides name and size, the walk finds exactly the names present, at the content of the first such file |
| `Ustar.WrittenFound` | servers/fs_server/main.c:39-58 | the walk inverts the writer for any headers |
| `Ustar.RoundTrip` | servers/fs_server/main.c:39-58 | and for the headers of the ustar format, with anything after the archive |
| `FsServer.OpenSucceeds` | servers/fs_server/main.c:39-58 | an open succeeds exactly when the name is present and a handle is free, gives a free handle for the first such file and changes no other |
| `FsServer.ShortPathsStay` | servers/fs_server/main.c:27-58 | the walk for a path shorter than a sector never reads past a header, on any disk |
| `FsServer.ArchivesStay` | servers/fs_server/main.c:27-58 | nor does the walk for a path of any length, on an archive |
| `FsServer.ReadsContent` | servers/fs_server/main.c:60-74 | a read of a handle for some content gives its first bytes |
| `FsServer.ListsNames` | servers/fs_server/main.c:76-92 | a listing with room is the names, a line each |
| `FsServer.ListsFirst` | servers/fs_server/main.c:76-92 | a listing without room for all names starts with as many as there is room for |
| `FsServer.ListingFits` | servers/fs_server/main.c:76-92 | a listing always leaves room for its terminator |
| `FsServer.ArchivesListed` | servers/fs_server/main.c:76-92 | listing an archive never reads past a header |
| `FsServer.Server.ParseOctal` | servers/fs_server/main.c:19-25 | the loop computes the value of the leading octal digits |
| `FsServer.Server.NameEq` | servers/fs_server/main.c:27-31 | true exactly if the header name is the path; it reads past the header exactly if the path agrees with the whole sector and no zero byte stops it |
| `FsServer.Server.FsOpen` | servers/fs_server/main.c:39-58 | terminates on every disk, and returns and records what the walk finds, for paths of any length, unless it reads past a header, as it does exactly if the walk meets one without an end that agrees with the path |
| `FsServer.Server.FsRead` | servers/fs_server/main.c:60-74 | returns min(size, max) and writes exactly that many bytes, from the file's sectors where the disk has them; -1 for a bad handle |
| `FsServer.Server.FsList` | servers/fs_server/main.c:76-92 | fills the buffer with the listing and ends it with a zero byte; it writes outside the buffer exactly if that is empty, and reads past a header exactly if one has no zero byte and there is room for a sector |
| `FsServer.Server.Close` | servers/fs_server/main.c:115-119 | frees one handle |
| `FsServer.Server.OpenAndRead` | servers/fs_server/main.c:104-114 | opening and reading a file of an archive gives the first bytes of its content |
| `FsRuns.HandleStays` | servers/fs_server/main.c:39-119 | a handle in use is left as it is by every request but one that closes it, which frees it |
| `FsRuns.ArchiveServes` | servers/fs_server/main.c:103-124 | on an archive no run of requests with room for their answers makes the server read past a header or write outside a buffer |
| `FsRuns.ServeRead` | servers/fs_server/main.c:110-114 | a read within the limit of the request; a limit of 0 is taken for the size of handle 0, and the read then writes outside an empty buffer exactly if neither file is empty |
| `FsRuns.ServeAll` | servers/fs_server/main.c:101-125 | the service loop over any requests of any clients: the handles are those of the requests one by one, up to the first request that goes wrong |
| `FsRuns.OpenThenRead` | servers/fs_server/main.c:101-125 | a client's handle reads the file it was opened for after any opens, reads, listings and closes of other handles by any clients |

## Left out

- Boot code other than the three start-up tables, descriptor tables, interrupt controller and timer set-up, context-switch assembly: hardware plumbing. A context switch changes the current thread and resumes where it left off.
- Memory detection: an arbitrary list of regions and the end of RAM are parameters. The bitmap is kept in an array of its own, not in the frames after the kernel; those frames are reserved as in the source.
- The TLB: invlpg is a no-op, and cr3 is a constant. The accessed and dirty bits that the processor sets in entries are not modelled; where whole entries are compared they count as clear. Bit fields of words are written as quotients and remainders by powers of two.
- Paging.Mmu.Descend: the three table steps that map and unmap share in the model are written out twice in the source.
- Paging.Mmu.VmmMap: a map that goes astray ends the model. The code goes on as it should if the page at the new table's address is mapped to that very frame (`HighFrames.StoreMisses`), which only SYS_MAP_PHYS can do, and for as long as it stays so. Supervisor writes ignore the write bit of an entry, as CR0.WP decides in hardware; the model states the bits, not the processor's use of them.
- Userland.StartUp: the kernel with its boot tables and the bitmap lie in the first GiB, where start-up code reaches them.
- SYS_MAP_PHYS in the exclusiveness of frames: it maps whatever physical address thread 0 names, so exclusiveness is claimed for runs without it; its effect on translations is that of a map.
- Port input and output, the process exit of kernel threads (thread_exit), cap_install and ipc_send_cap, which nothing calls, and the panics.
- KernelMachine.Machine.PageFault: the send and the receive of a fault are two steps of the model, between which nothing else happens unless the send blocks.
- KernelMachine.Machine.DeviceIrq: the count of pending interrupts is unbounded here, an int in the source.
- KernelMachine.Machine.Syscall: calls that do not touch the kernel's threads or tables (output, time, memory counts, thread states, port input and output, maps) have no modelled return value; a blocked call's comes with the note of the step that ends it.
- Messages carry their words as values; the copies between user memory and the kernel are not modelled.
- Console.Console.EditKey: the number in an escape sequence is unbounded here, an int in the source.
- Console.RequestsCommute: a request that comes while another read is in progress takes that read's place and leaves its reader unanswered; the theorem is for readers that take turns.
- Console.Console.FinishLine: the reply is recorded as sent; the console's wait in that send is not modelled.
- Terminal: one line of unbounded width; output that clients write while a line is being read is not part of it.
- The keyboard decoder and the line input of the VGA server: a smaller version of the console's.
- FsRuns.Serve: what the reply holds besides a handle is in the contracts of the single operations. A request with any other label is ignored.
- FsServer.Server.BlkRead: the disk is a finite sequence of sectors and the block driver's protocol is left out; sector numbers are unbounded.
- Ustar.RoundTrip: names with a prefix field, links and directories are not written; any header with the right name and size is read (`Ustar.WrittenFound`).
- The shell, init, pm, hello, rogue and app programs, number printing, the riscv64 port: they add only easy members.
