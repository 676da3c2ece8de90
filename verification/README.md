# SBUnix kernel: a verified model

This project models the parts of a small 64-bit Unix kernel that carry its hardest promises, and
proves those promises.

* **Virtual memory with copy-on-write fork.** Physical memory is an array of frames, each a table of
  512 entries or a page of 4096 bytes, next to the frame bitmap. `VirtualMemory.Memory` changes both in
  place, as the kernel does, and shows the rest of the system one thing: every address space is a map
  from page numbers to entries, one more map has the pages of the kernel's slot 511, which all address
  spaces share, and mapping is an update of these maps. The invariant underneath is that the page tables
  of all address spaces form a forest of frames that are not free and not data, and that no table has two
  parents but those under slot 511, which every root has from the kernel's own (`PageTables`). What the
  processor grants is the conjunction of the flags of all four entries of a walk: the invariant also keeps
  every link of a process's tables writeable and open to users and the kernel's slot closed to them, so
  that a page below slot 511 allows what its last entry says and one inside it allows a user nothing. On
  top of it `CowMachine` is a machine on values whose steps are fork, a write fault that is resumed, a user
  write with its fault, a context switch, exec, exit, kill, malloc and the mapping of a page by setenv.
  `EagerRefinement` proves that no program can tell this machine from one whose fork copies every page.
  `Kernel.Kernel` has the system calls and the page-fault handler as methods on the heap, and each of them
  is proved to be one step of the machine, which leaves the kernel's slot alone. `Boot` is the start of the
  kernel, from the memory map to the ring of sbush alone. `KernelRuns.BootAndServe` puts this together: the
  kernel, from its start, runs its own operations on any list of forks, user writes, faults, timer
  switches, execs, exits and kills, and what the processes then see is what the eager machine shows after
  the same list. Where it refuses a call, the eager machine shows why (`KernelCalls.RefusedExactlyWhen`).
* **The run ring and the timer.** `RunQueue` is the circular list threaded through `next`, with the
  delete queue; `RingFairness` bounds how long a waiting process can wait; `Timer` is the clock
  interrupt with its sleep counters and preemption.
* **Paths, the archive and the environment.** `Paths` proves that the in-place, backtracking path
  normaliser computes what a stack of components computes, and the laws of `/`, `.` and `..` on texts;
  `Tarfs` is the lookup in the archive;
  `Directories` changes the current directory; `Environment` refines the environment pages to an
  ordered list of variables.
* **The text screen.** `Screen` refines the scrolling screen memory to the list of all rows ever
  completed.

Where the code does less than one would wish, the model keeps the code's behaviour and says exactly
when the promise holds:

* exit and kill decide whether a frame is shared by looking its *physical* address up in the other
  address spaces as if it were a virtual one. They are safe if and only if every page shared by the
  process that ends has its own frame's number (`EagerRefinement.TeardownIsSafeExactlyWhen`). A run from
  the start may contain them where that holds (`KernelRuns.ExitsStaySafe`). It does for every list of calls
  in which only the last member of a family ends, where a child is of its parent's family and exec founds a
  new one (`SafeExits`), as when a shell starts program after program;
  `CowAccounting.ExitFreesSharedFrame` is a two-process example in which a survivor loses a frame.
* demand faults keep every mapped page covered by an area if and only if each area of no length begins
  in a page that the stepping visits, and fork is a copy if and only if the pages are covered
  (`AreaCover`). malloc keeps this if and only if it is asked for some bytes or its area begins in a visited
  page (`Vmas.MallocKeepsCoverExactlyWhen`); `AreaCover.EmptyAreaLosesItsPage` is a program after exec and
  `malloc(0)` whose page a fault maps and fork then loses. setenv keeps it if and only if the page that it
  maps is visited, which holds for 30 variables after exec and fails for the 31st
  (`AreaCover.EnvironmentOutgrowsItsArea`).
* the fault handler treats a user's store to a mapped page of the kernel's slot as one to a shared page.
  It leaves the kernel's pages alone if and only if the address is outside the slot (or the process is
  alone and the page writeable): `PageFaults.KernelPagesStayExactlyWhen`;
  `PageFaults.UserStoreUnmapsScreen` is a store that takes screen memory away from the kernel. The retry
  faults again, for ever (`KernelCalls.RetryStores`).
* a page that begins at the border of the stack may be mapped and written, but any fault there ends in
  exit: fork turns a good store to it into one that ends the process (`KernelCalls.ForkClosesBorder`).
* exec on a ring of one process leaves the old one in the ring, and the ring then holds two processes
  of one pid (`RunQueue.RunQueue.Become`).
* setenv ignores its flag `overwrite`.

The order of the modules: `Options`, `PageFormat`, `Words`, `FrameBitmap`, `PageTables`, `VirtualMemory`,
`Vmas`, `RingOps`, `CowMachine`, `EagerRefinement`, `AreaCover`, `CowAccounting`, `LastWriter`,
`RunQueue`, `ForkMemory`, `KernelViews`, `PageFaults`, `Forking`, `Teardowns`, `Execs`, `Kernel`,
`KernelCalls`, `Boot`, `KernelRuns`, `SafeExits`; then `RingFairness`, `Timer`; then `CStrings`, `Paths`,
`Tarfs`, `Directories`, `Environment`, `Screen`.

Page-table format and fault error bits are those of the AMD64 Architecture Programmer's Manual,
Volume 2, sections 5.3 and 8.4.2. The archive is in the ustar Interchange Format of the POSIX.1 `pax`
utility.

`dafny verify dfyconfig.toml` checks the whole project.

## Model

| member | source | states |
|---|---|---|
| PageFormat.IndicesDetermineThePage | include/sys/virtualMemory.h:6-9 | two addresses select the same page if and only if all four table indices agree |
| Words.IndexMacros | include/sys/virtualMemory.h:6-9 | the shift-and-mask macros on a 64-bit word give the four table indices of the number that the word stands for, bit by bit |
| Words.FrameMask | include/sys/virtualMemory.h:14 | `& FRAME` on a word gives the start of the page of the number that it stands for |
| PageFormat.PathOfPageNumber | include/sys/virtualMemory.h:6-9 | four indices put together to a page number are read back from it |
| PageFormat.MaskFrame | include/sys/virtualMemory.h:14 | `& FRAME` on an entry's word gives back the frame's address, whatever the flag bits |
| PageFormat.MaskPresent | include/sys/virtualMemory.h:10 | `& PRESENT` on an entry's word gives its present flag, whatever the other flags and the address |
| PageFormat.SetWriteable | include/sys/virtualMemory.h:11 | `| WRITEABLE` sets the write flag of an entry's word and changes nothing else |
| PageFormat.ClearWriteable | include/sys/virtualMemory.h:12 | `& MAKERDONLY` changes the write flag of an entry's word and nothing else |
| PageFormat.NeverMinusOne | sys/task.c:534-536 | no word of an entry is the walker's -1 |
| FrameBitmap.Bitmap.MarkAsFree | sys/phyMemMapper.c:52-57 | the set of free frames gains exactly this frame |
| FrameBitmap.HasIsTheBit | sys/phyMemMapper.c:66-70 | the test of a column is the test of the bit that counts 2 to the power of the column |
| FrameBitmap.Bitmap.MarkAsUsed | sys/phyMemMapper.c:59-64 | the set of free frames loses exactly this frame |
| FrameBitmap.Bitmap.IsFrameUsed | sys/phyMemMapper.c:66-70 | non-zero exactly when the frame is free, although the name says the opposite |
| FrameBitmap.Bitmap.GetFirstFrame | sys/phyMemMapper.c:120-139 | the least free frame, and -1 exactly when none is free |
| FrameBitmap.Bitmap.PageAllocator | sys/phyMemMapper.c:141-151 | removes the least free frame and returns its address; NULL and no change when none is free |
| FrameBitmap.Bitmap.PageDeAllocator | sys/phyMemMapper.c:153-156 | inserts the frame of the address |
| FrameBitmap.Bitmap.InitBitmap | sys/phyMemMapper.c:90-118 | adds exactly the frames from start through end, both included, above the kernel's end, then removes frames 0 to 255 |
| FrameBitmap.LiveFramesAreDistinct | sys/phyMemMapper.c:141-156 | over every run of allocations and releases the live frames are pairwise distinct, none is free and none is lost |
| PageTables.TablesFormAForest | sys/virtualMemory.c:203-266 | every table that is not a root is reached from exactly one of the slots that belong to their table (slot 511 of a process's root belongs to the kernel), a root from none, and no table is free or data |
| PageTables.SharedTableMeansSameWalk | sys/virtualMemory.c:203-266 | walks that end in the same last table start at the same root and take the same first three indices |
| PageTables.LinkKeepsForest | sys/virtualMemory.c:213-226 | making a zeroed frame the table under an empty slot keeps the forest; the link is writeable and, in the tables of a process, for users |
| PageTables.LinkKeepsLeaves | sys/virtualMemory.c:213-226 | and changes no translation of any address space |
| PageTables.StoreChangesOneLeaf | sys/virtualMemory.c:259-264 | storing a last-level entry changes one translation of one address space, although tables are plain frames |
| PageTables.NewRootKeepsForest | sys/virtualMemory.c:363-372 | a zeroed frame with the kernel's slot 511 filled in becomes the root of an empty address space, next to the others |
| PageTables.KernelWalkIsShared | sys/virtualMemory.c:363-372 | a walk through slot 511 goes the same way from every root |
| PageTables.EffectiveByEntries | sys/virtualMemory.c:203-266 | the walk by hand: with the four entries that the indices of an address select, the frame is the last one's and the flags are the conjunction of all four |
| PageTables.UserWalkIsOpen | sys/virtualMemory.c:213-257 | below slot 511 the conjunction of the four entries of a process's walk is its last entry: the links take no permission away |
| PageTables.KernelWalkIsClosed | sys/virtualMemory.c:74-128 | inside slot 511 the same conjunction is the last entry without its user flag, from every process's root |
| VirtualMemory.Memory.constructor | sys/virtualMemory.c:22-27 | one address space, the kernel's own, with no page mapped, in one frame that was free |
| VirtualMemory.Memory.MakeTables | sys/virtualMemory.c:28-55 | the three tables on the way to the kernel's first page change no translation and no contents, and leave the kernel's slot closed to users |
| VirtualMemory.Memory.EnsureWalk | sys/virtualMemory.c:213-257 | after the descent the last table exists, the forest (whose links are open to users in a process's tables, and closed at the top of the kernel's slot) has only grown, by at most one table a level and by none if the table was there, and all translations from every root, those of slot 511 among them, are what they were |
| VirtualMemory.Memory.MapPage | sys/virtualMemory.c:130-266 | the invariant, with its flags of links, is kept, one leaf has changed, of the root that owns the walk (the kernel's for slot 511), and allocated pages keep their contents, with zero to three new tables |
| VirtualMemory.Memory.MapPageForUser | sys/virtualMemory.c:203-266 | mapping is a functional update: in this address space, or in all of them for a page of the kernel's slot, the page leads to the frame, present, writeable and user, and below slot 511 the processor's walk through all four entries grants exactly that; every other page of every address space, and all contents, stay |
| VirtualMemory.Memory.MapKernelPage | sys/virtualMemory.c:74-128 | the same update in the kernel's own tables, with an entry that is not for users; the kernel's slot stays closed to users; no table is made where a page with the same last table is mapped |
| VirtualMemory.EffectiveInView | sys/virtualMemory.c:203-266 | what the processor grants for an address is the entry of its page in the view, without the user flag inside the kernel's slot |
| VirtualMemory.Memory.GetPhysicalPageAddr | sys/task.c:506-537 | the walker returns the entry of the page in this address space, in the kernel's slot or outside it, and -1 or 0 exactly when there is none |
| VirtualMemory.Memory.MarkPageAsRW | sys/task.c:432-477 | changes the write permission of this one page if it is mapped, and nothing otherwise |
| VirtualMemory.Memory.Kmalloc | sys/virtualMemory.c:314-319 | a frame that was free becomes an allocated page, and each of its 4096 bytes is 0; nothing else changes |
| VirtualMemory.Memory.GetNewPML4ForUser | sys/virtualMemory.c:363-372 | a new address space, empty but for the slot 511 of the current one; the others stay, and so do the kernel's pages |
| VirtualMemory.Memory.Kdealloc | sys/phyMemMapper.c:158-161 | a frame that no live address space maps is free again, each of its bytes 0, and so is one that was already free |
| Vmas.StepsAreVisits | sys/task.c:547-566 | the pages visited from v_start in steps of 0x1000 are exactly those of v_start + k*0x1000 below v_end |
| Vmas.PagesByArea | sys/task.c:547-566 | fork copies the pages visited in areas that end at 0xFFFFFF7F00000000 and shares those visited in the others |
| Vmas.FirstPageIsVisited | sys/task.c:676-690 | the page that a demand fault may map is one that the stepping visits |
| Vmas.AcceptedPagesAreVisited | sys/task.c:676-690 | every page that the fault handler accepts is one that the stepping visits, if and only if each area of no length begins in such a page |
| Vmas.MallocKeepsCoverExactlyWhen | sys/task.c:776-844 | the area that malloc appends keeps this condition if and only if it was asked for some bytes or begins in a page that the stepping visits |
| Vmas.NewAreaIsBehind | sys/task.c:800-844 | the new area has the size asked for and begins at the largest end of the areas behind the head that are no stacks |
| CowMachine.TouchMakesWriteable | sys/idt.c:537-612 | after the handler has resumed a program, the last entry of the page of the retried write is present, writeable and of an allocated frame |
| EagerRefinement.CountsTheSharers | sys/idt.c:586-601 | the count of sharers is at least two when two processes map the frame at the page |
| EagerRefinement.AloneMeansUnshared | sys/idt.c:586-603 | a count of one at the same address means that no process maps the frame anywhere else |
| EagerRefinement.ForkKeepsInv | sys/task.c:540-570 | fork keeps the invariant: a frame mapped twice is mapped by different processes, at the same page, read-only in both; every mapped page is covered by an area |
| EagerRefinement.ForkRefines | sys/task.c:540-730 | after fork, parent and child both see what the parent saw, byte for byte, and the others what they saw |
| EagerRefinement.OrdinaryPageIsShared | sys/task.c:550-558 | after fork, parent and child map the same frame at a page of an ordinary area, and neither may write to it |
| EagerRefinement.StackPageIsCopied | sys/task.c:559-566 | at a page of a stack the parent's entry stays, and the child has a writeable frame of its own with the same contents |
| EagerRefinement.TouchRefines | sys/idt.c:537-612 | a fault that is resumed keeps the invariant and shows no process anything but a new page where none was, and each byte of that page is 0 |
| EagerRefinement.WriteRefines | sys/idt.c:537-612 | a user write changes one byte in the view of one process |
| EagerRefinement.TeardownRefines | sys/task.c:1225-1272 | if the ending process shares only pages that have their frame's own number, the others see what they saw |
| EagerRefinement.TeardownIsSafeExactlyWhen | sys/task.c:1246-1252 | the invariant survives the release of a process's frames if and only if every page that it shares has its own frame's number |
| EagerRefinement.ExecRefines | sys/task.c:848-876 | the new program sees its image, and the others what they saw |
| EagerRefinement.MallocKeepsInv | sys/task.c:776-844 | malloc keeps the invariant when the empty areas stay covered |
| EagerRefinement.MallocKeepsViews | sys/task.c:776-844 | and no process sees a difference |
| EagerRefinement.StepRefines | sys/task.c:540-730 | each step of the copy-on-write machine, the fault without its retry, malloc and setenv's page among them, keeps the invariant and is a step of the machine that copies eagerly |
| EagerRefinement.CowForkIsEagerFork | sys/task.c:540-730 | over every run, every process's view of memory is that of the machine in which fork copies every page and memory is private |
| AreaCover.DemandFaultsKeepCoverExactlyWhen | sys/idt.c:537-541 | whatever page a demand fault maps, the mapped pages stay covered by the areas, if and only if the areas of no length begin in visited pages |
| AreaCover.ForkIsACopyExactlyWhen | sys/task.c:540-570 | parent and child see the same memory after fork if and only if the parent's mapped pages were covered |
| AreaCover.EmptyAreaLosesItsPage | sys/idt.c:537-541 | a concrete program after exec and malloc(0): its first store to what malloc returned maps a page, and the child of the next fork does not see what its parent sees |
| AreaCover.SetenvKeepsCoverExactlyWhen | sys/tarfs.c:1258-1263 | the page that setenv maps keeps the mapped pages covered if and only if the stepping visits it |
| AreaCover.EnvironmentOutgrowsItsArea | sys/task.c:1049-1050 | after exec the page that ends the environment is visited for up to 30 variables, and not for more |
| CowAccounting.ShareCountIsNumber | sys/idt.c:586-601 | the machine's count is the number of processes that map the frame at the page |
| CowAccounting.FaultAccounting | sys/idt.c:586-612 | a write fault on a frame with k sharers allocates a data frame exactly when k is at least two, and leaves k-1 sharers (or the one) on the old frame |
| CowAccounting.RunAccounting | sys/idt.c:586-612 | over every run of writes and switches, the copies made of a frame are the sharers it lost, and it never loses the last |
| LastWriter.FirstWriteIsFirst | sys/idt.c:586-612 | the time of a process's first write is the first at which it runs and writes to the page |
| LastWriter.LastWriterKeeps | sys/idt.c:586-612 | over every run of writes, faults and switches in which all sharers of a frame write to the page, the one that is last to write for the first time has the frame at the end, alone and writeable |
| LastWriter.AllWritersButOneCopy | sys/idt.c:586-612 | once all k sharers of a frame have written to the page, exactly k-1 copies of it were allocated, and the last writer keeps the original |
| CowAccounting.ExitFreesSharedFrame | sys/task.c:1246-1262 | a concrete state in which exit frees a frame that a survivor maps |
| CowAccounting.UnsharedTeardownIsExact | sys/task.c:1225-1272 | the end of a process that shares nothing gives back exactly the frames that it maps, and none of a survivor's |
| RunQueue.RunQueue.constructor | sys/task.c:1489-1527 | one process of pid 1, linked to itself |
| RunQueue.RunQueue.AddToQueue | sys/task.c:693-698 | the splice puts the new process behind the running one and keeps a ring that visits everyone once |
| RunQueue.RunQueue.RunNext | sys/task.c:387-430 | the ring turns by one; an expired alarm is delivered once and cleared, and no other counter changes |
| RunQueue.RunQueue.ReplaceRunningTask | sys/task.c:848-858 | the splice puts the new process in the running one's place, except on a ring of one, where the old one stays |
| RunQueue.RunQueue.AddToDeleteQueue | sys/task.c:878-893 | the delete queue stays an acyclic list and gains the process at its end |
| RunQueue.RunQueue.FindVictim | sys/task.c:1307-1326 | finds the process before the one of this pid, never sbush and never the running process, and finds it whenever there is one |
| RunQueue.RunQueue.Remove | sys/task.c:1328-1336 | the process leaves the ring and joins the delete queue; pids stay distinct and pid 1 stays present |
| RunQueue.RunQueue.Exit | sys/task.c:1342-1384 | sbush stays; any other process leaves the ring for the delete queue and its successor runs |
| RunQueue.RunQueue.Adopt | sys/task.c:621-623 | the child has the next pid, which no process has, and enters behind its parent |
| RunQueue.RunQueue.Become | sys/task.c:351-381 | the new process has the old one's pid and place; pids stay distinct if and only if the ring had at least two processes |
| RunQueue.RunQueue.WaitPid | sys/task.c:1087-1119 | 1 and the pid exactly when another process of that pid is in the ring; for -1, exactly when another one has the same parent |
| RunQueue.WaitSeesExecutedChild | sys/task.c:1087-1119 | a process without a parent sees its child with waitpid(-1) once the child has exec'ed, and not before: fork makes the child no sibling, and exec (sys/task.c:356) forgets the parent |
| ForkMemory.CopyParentCr3Entries | sys/task.c:540-570 | the loops fill the child's address space with exactly the visited pages of the parent: stack pages in private copies, the others shared and read-only |
| ForkMemory.MakeParentCr3asReadOnly | sys/task.c:700-720 | exactly the parent's pages of ordinary areas become read-only |
| Forking.CopyVma | sys/task.c:582-619 | the child's list of areas has the parent's order and bounds |
| Forking.BuildChild | sys/task.c:621-673 | one address space more, filled from the parent's; no other changes |
| Forking.BuiltIsFork | sys/task.c:722-730 | what the loops and the splice leave behind is the machine's fork, and the ring stays consistent with memory |
| KernelViews.CountAll | sys/idt.c:586-601 | counting by walks around the ring is the machine's count of sharers |
| KernelViews.AllReachKernelPages | sys/idt.c:586-601 | at a page of the kernel's slot the count of sharers is the number of processes |
| KernelViews.FirstTaskIsConsistent | sys/task.c:1489-1527 | one process in private, covered frames satisfies the invariant |
| PageFaults.IsPartOfCurrentVma | sys/task.c:676-690 | true exactly when some area begins in the page |
| PageFaults.CountSharers | sys/idt.c:586-601 | the loop around the ring counts exactly the other processes that map this frame at this address, each once |
| PageFaults.CopyOnWrite | sys/idt.c:574-612 | the branch makes the page writeable in place or in a copy, by the count, as the machine does; at a page of the kernel's slot it makes that page writeable or replaces it for all processes |
| PageFaults.HandleFault | sys/idt.c:503-632 | for every address and every error code that the processor's walk can report there: resumes exactly for a user's write to a present page and for a write to an absent page in which an area begins, hangs exactly for other faults of the kernel on an absent page, and else exits, as it always does at the border of the stack; memory changes only when it resumes, and then as the machine's fault, after which the walk allows the write; each byte of a new page is 0 |
| PageFaults.VerdictByCode | sys/idt.c:503-632 | the same by error code: 7, 2 and 6 may resume, 0 and 2 may hang, all others exit |
| PageFaults.UsersNeverHang | sys/idt.c:556-632 | no write of a user program, wherever it goes, hangs the kernel |
| PageFaults.NewPageIsZero | sys/idt.c:537-541 | each byte of a page that a fault brings into being is 0 |
| PageFaults.WrittenBytes | sys/idt.c:537-612 | after a store with its fault and retry, the byte is in the page, and every other byte of the page is what it was, or 0 in a new page |
| PageFaults.RetryCannotFault | sys/idt.c:537-612 | after a resumed fault below the kernel's slot, all four entries of the walk allow the user's write, so the retry cannot fault again |
| PageFaults.VerdictInView | sys/idt.c:503-632 | below the kernel's slot, a user's store is resumed if and only if the page is mapped writeable, or the handler's conditions on border, areas and entry hold |
| PageFaults.KernelSlotVerdict | sys/idt.c:574-612 | a user may never write in the kernel's slot, and a store to a mapped page there is always resumed |
| PageFaults.KernelPagesStayExactlyWhen | sys/idt.c:574-612 | a resumed user write leaves the kernel's pages alone if and only if its page is outside the kernel's slot, or the process is alone and the page writeable |
| PageFaults.UserStoreUnmapsScreen | sys/idt.c:574-612 | a concrete store of one of two processes after which the page of screen memory leads elsewhere, for the kernel as well |
| PageFaults.WriteByte | sys/idt.c:537-612 | a store, decided by the conjunction of the four entries of the walk, with its fault and retry is one write of the machine, or leaves everything as it was; in the kernel's slot the handler's change remains and the byte is not stored |
| Teardowns.CountIdentitySharers | sys/task.c:1241-1252 | the count is one exactly when no other process maps the frame at the page that has the frame's number |
| Teardowns.UnsharedMeansUnmapped | sys/task.c:1241-1258 | under the sharing condition, a frame with that count is mapped by no live address space |
| Teardowns.FreePageEntries | sys/task.c:1225-1272 | the free set gains exactly the frames mapped at visited pages that the test does not take for shared; visiting a page twice does no harm |
| Teardowns.TeardownIsStep | sys/task.c:1307-1384 | release and unlinking together are the machine's exit or kill |
| Execs.LoadSections | sys/tarfs.c:141-176 | the new address space holds exactly the loaded pages, in private frames, with these contents |
| Execs.LastSectionCounts | sys/tarfs.c:141-176 | a page of the program holds what the last section for it contains |
| Execs.OnlySectionsAreLoaded | sys/tarfs.c:141-176 | no page is loaded but those of the sections |
| Execs.ExecIsStep | sys/task.c:895-1085 | loading and replacing together are the machine's exec |
| Kernel.Kernel.PageFault | sys/idt.c:503-632 | the handler on the whole kernel keeps its invariant, resumes and hangs exactly as HandleFault, and never hangs with the user bit set; when it resumes it is the machine's fault step outside the kernel's slot, the walk then allows the write, and a new page reads as zeros; inside the slot the kernel's page is changed for all processes |
| Kernel.Kernel.UserWrite | sys/idt.c:537-612 | a user store on the whole kernel is the machine's write when the walk allows it or the handler resumes, the byte then is where the walk of its address leads and the other bytes of the page are as before; else nothing changes, and it never hangs; for the kernel's slot, as for PageFault |
| Kernel.Kernel.UserAccess | sys/idt.c:537-612 | an access that the walk refuses and that is not yet retried is the machine's fault step, or changes nothing |
| Kernel.Kernel.Fork | sys/task.c:722-730 | fork keeps the kernel's invariant, is the machine's fork, returns the next pid, that of the child behind the running process, whose parent is the running process and for which no alarm or sleep is pending, and takes no more frames than the areas need |
| Kernel.Kernel.SwitchTask | sys/task.c:387-430 | a context switch is the machine's switch and leaves memory alone; the next process runs in its alarm handler exactly when its alarm has expired, and no other alarm changes |
| Kernel.Kernel.KillTask | sys/task.c:1307-1340 | kill is the machine's kill of the process of this pid, which leaves the ring for the delete queue; nothing changes if and only if there is none besides the running one or it is sbush |
| Kernel.Kernel.ExitTask | sys/task.c:1342-1384 | exit is the machine's exit of the running process, which leaves the ring for the delete queue, or nothing for sbush |
| Kernel.Kernel.ExecTask | sys/task.c:895-1085 | exec is the machine's exec; the new process has the old pid, no parent and no pending alarm or sleep, sees exactly the loaded image, and a pid is used up |
| KernelCalls.ForkMeans | sys/task.c:722-730 | what the eager machine makes of a fork: two equal memories in front, the others behind them |
| KernelCalls.TimerMeans | sys/task.c:387-401 | of a context switch: the first memory goes to the end |
| KernelCalls.EndsMean | sys/task.c:1307-1384 | of exit and kill: exactly that memory goes |
| KernelCalls.ExecMeans | sys/task.c:895-1085 | of exec: the first memory has the contents of the sections, the others stay |
| KernelCalls.AccessMeans | sys/idt.c:537-612 | of a fault: at most one page more, all of whose bytes are 0 |
| KernelCalls.WriteMeans | sys/idt.c:537-612 | of a store: one byte at its place, all other bytes of all memories as before, or 0 in a new page |
| KernelCalls.RefusalIsEager | sys/idt.c:503-541 | away from the border of the stack, a user's write is served if and only if the eager machine has the page or some area begins in it: copy-on-write cannot be seen in a refusal |
| KernelCalls.RefusedExactlyWhen | sys/idt.c:503-541 | any call is refused if and only if a condition on what the eager machine shows, on the areas and on the pids holds |
| KernelCalls.ForkClosesBorder | sys/idt.c:505-508 | at the border of the stack, fork turns a store that is served into one that ends in exit, though the eager machine has the page before and after |
| KernelCalls.RetryStores | sys/idt.c:574-612 | n tries of a store to a mapped page of the kernel's slot are all resumed: in a ring of two or more each replaces the page by a new frame, and alone the process tries for ever on one frame |
| Boot.DirectMapAt | sys/virtualMemory.c:283-303 | exactly the pages from the first one on lead to the frames in their order, and every other page is as before |
| Boot.IdentityMapping | sys/virtualMemory.c:283-303 | the loop adds exactly that mapping of physical memory, page by page, with one table for every 512 pages |
| Boot.KernelFramesAreFew | sys/virtualMemory.c:283-303 | the tables of the kernel's mapping take at most 14 frames and three for every 512 pages |
| Boot.KernelPagesByRanges | sys/virtualMemory.c:283-303 | over the boot loader's ranges: each aligned address p from 0x100000 up to the end of the last range is mapped at kernbase + p, or up to 0xFFFFFFFF90000000 where that end is above the limit; the screen is at kernbase + 0xB8000, and no other page is mapped |
| Boot.MapKernelMemory | sys/virtualMemory.c:22-128 | from the bitmap: the kernel's address space maps physical memory and the screen, and there is no other |
| Boot.FreeMemory | sys/main.c:36-43 | a frame is free if and only if it lies in one of the usable ranges, above the kernel and above frame 255 |
| Boot.InitUserProcess | sys/task.c:1489-1527 | from memory with the kernel's address space alone to a valid kernel: a ring of one process with pid 1 and no parent that sees exactly its program |
| Boot.Start | sys/main.c:22-75 | from raw memory and the boot loader's ranges to that kernel; over the ranges themselves, exactly the pages of KernelPagesByRanges are mapped for the kernel |
| KernelRuns.KernelRunIsMachineRun | sys/task.c:722-730 | the abstract states along a run of kernel steps are a run of the copy-on-write machine |
| KernelRuns.KernelRunIsEagerRun | sys/task.c:722-730 | over every run of kernel steps, all processes see what they would see if fork copied every page |
| KernelRuns.Serve | sys/task.c:722-730 | the kernel's own operations, exit and kill among them, called in the order of any list of calls, are a run of kernel steps, up to the first call that is refused |
| KernelRuns.BootAndServe | sys/main.c:22-75 | from the start of the kernel and for any list of calls (exits and kills where they are safe), every process sees what it would see on the eager machine after the same calls, and the kernel's pages are those of the start; it stops only at an exec of a lone process, an exit of sbush, a kill of nobody or of sbush, or a store to the border of the stack or to a page that the eager machine does not have and in which no area begins |
| SafeExits.FamiliesOfStep | sys/task.c:540-570 | whatever the step, processes that share a frame are of one family: fork adds to the parent's, exec founds one, and nothing else changes them |
| SafeExits.LastMembersEndSafely | sys/task.c:1246-1252 | if in a list of calls only last members of their families exit or are killed, all exits and kills on any run of it from the start are safe |
| SafeExits.ShellMayStartPrograms | sys/task.c:1342-1384 | in particular for fork, exec and exit of one program after the other, any number of times |
| SafeExits.ForkedTasksMayNotEnd | sys/task.c:1246-1252 | right after a fork that shares a page whose number is not its frame's, neither parent nor child may end safely |
| RingFairness.WaitingTaskMoves | sys/task.c:693-698 | a waiting process is one hop closer after a switch or an exit, one further after a fork, and no further after exec or kill |
| RingFairness.BoundedWaiting | sys/task.c:387-401 | a process that stays in the ring runs once switches and exits make up its distance plus the number of forks |
| RingFairness.GetsToRunMeans | sys/task.c:387-401 | that a process gets to run means: after some part of the run it is the first of the ring |
| RingFairness.NotBeforeItsTurn | sys/task.c:387-401 | where processes only fork and switch, none runs with fewer switches than its distance |
| Timer.BumpRing | sys/idt.c:282-324 | every active alarm and sleep counter in the ring is bumped exactly once, and no idle one |
| Timer.Clock.Interrupt | sys/idt.c:270-376 | the clock counts on; at every second tick each active alarm in the ring is bumped once, and at any other tick no alarm changes but that of a process that is switched to and whose alarm has expired; preemption is attempted exactly at ticks divisible by 3 and not by 19, and the ring turns unless the mutex is held; all sleep counters stay in step |
| Timer.Clock.EndSlice | sys/idt.c:346-355 | the same for the ticks that end no second |
| Timer.Clock.ShowsSecondsSinceBoot | sys/idt.c:327-337 | hours, minutes and seconds shown are those of the number of ticks divided by 19 |
| Timer.Clock.SetSleep | sys/task.c:1201-1206 | a nap of this length begins now |
| Timer.Clock.GetCounter | sys/task.c:1208-1217 | 1 exactly when the running process has a nap and at least as many second ticks have passed as it asked for |
| Timer.Clock.Adopt | sys/task.c:621-623 | fork while processes sleep: all sleep counters stay in step, and the child has none |
| Timer.Clock.Become | sys/task.c:351-381 | the same for exec |
| Timer.Clock.Remove | sys/task.c:1328-1336 | the same for kill |
| Timer.Clock.Exit | sys/task.c:1342-1384 | the same for exit |
| CStrings.Strcmp | sys/tarfs.c:23-33 | 0 exactly for equal strings |
| Paths.GetBetween2Slashes | sys/tarfs.c:1031-1043 | the buffer holds the component up to the next slash or the end |
| Paths.Backtrack | sys/tarfs.c:1120-1131 | the backward scan stops inside the buffer, behind the slash before the last component, with no slash in between; the root absorbs ".." |
| Paths.TakeComponent | sys/tarfs.c:1097-1149 | each round of the loop reads one component and keeps the output equal to the stack built so far |
| Paths.RemoveDotSlash | sys/tarfs.c:1073-1157 | the buffer holds exactly the result of the component stack, for absolute and for relative paths, within the bounds of the buffers |
| Paths.DotDotTakesBack | sys/tarfs.c:1113-1131 | a name and "/.." behind it make no difference, wherever they stand in a path |
| Paths.RootAbsorbsDotDot | sys/tarfs.c:1113-1131 | "/.." at the beginning of a path makes no difference |
| Paths.DotVanishes | sys/tarfs.c:1102-1112 | neither do "/." and a second slash |
| Paths.EndsLikeSlash | sys/tarfs.c:1104-1155 | a path that ends in "..", "." or a slash is as good with a slash at its end |
| Paths.CleanPathStays | sys/tarfs.c:1073-1157 | an absolute path without such components is its own normal form, but for the last slash that d asks for |
| Paths.NormalisedIsClean | sys/tarfs.c:1097-1155 | the output has no empty, "." or ".." component between its slashes |
| Paths.NormalisedIsIdempotent | sys/tarfs.c:1073-1157 | normalising the output changes nothing, from any directory |
| Paths.RelativeMeansFromHome | sys/tarfs.c:1084-1096 | a relative path means the absolute one behind the current directory |
| Paths.NormalisedIsShort | sys/tarfs.c:1113-1155 | for an absolute path the output is at most one byte longer than the input, and only when a final slash is asked for |
| Tarfs.ToInteger | sys/tarfs.c:62-70 | the value of the octal digits, without overflow below 2^31 |
| Tarfs.OctalRoundTrip | sys/tarfs.c:62-70 | a number written in so many octal digits is read back if and only if it fits them |
| Tarfs.OctalByExample | sys/tarfs.c:62-70 | the digits 755, with zeros in front, are 493 |
| Tarfs.FindHeader | sys/tarfs.c:358-379 | the walk ends, lands on the headers in order, and stops at the first one of the name |
| Tarfs.PaddedIsLeast | sys/tarfs.c:370-379 | contents take the least multiple of 512 bytes that holds them |
| Tarfs.SkipMember | sys/tarfs.c:370-379 | the walk goes on behind the header and the contents, padded to whole blocks, with less than a block of padding |
| Tarfs.GetFileAddress | sys/tarfs.c:358-391 | the contents of the first member of the name, its header if it is empty, 0 if there is none |
| Tarfs.GetDirAddress | sys/tarfs.c:393-422 | the header of the first member of the name if it is empty, else 0 |
| Tarfs.AddressHoldsContents | sys/tarfs.c:382-385 | at the address of a file lie its contents |
| Tarfs.AddressHoldsName | sys/tarfs.c:382-391 | at the address of a member without contents lies its header, which begins with its name |
| Tarfs.HeaderLayout | sys/tarfs.c:358-379 | a header has the name at its beginning and the size, in eleven octal digits, at byte 124 |
| Tarfs.EncodeIsArchive | sys/tarfs.c:358-379 | writing any list of members whose names and sizes fit gives an archive that the walk reads as that list |
| Directories.ChangeDirectory | sys/tarfs.c:1167-1188 | succeeds exactly when the first member of the normalised name is there and has no contents, and then the current directory is that normalised path with a final slash; else it stays |
| Environment.Getenv | sys/tarfs.c:1191-1212 | a pointer to the value that the list of variables has for the name, NULL exactly when it has none |
| Environment.PositionHoldsValue | sys/tarfs.c:1191-1212 | at that position lies the value that the list of variables has |
| Environment.EntryText | sys/tarfs.c:1191-1265 | the page of a variable begins with NAME=VALUE and a NUL |
| Environment.Setenv | sys/tarfs.c:1214-1265 | the pages hold the updated list, and an empty page still ends it |
| Environment.LookupAfterUpdate | sys/tarfs.c:1191-1265 | after setenv the name has the new value and every other name its old one |
| Environment.UpdateKeepsNames | sys/tarfs.c:1214-1265 | the order of the names stays; a new name comes last |
| Screen.Console.CheckIfLineFull | sys/kprintf.c:24-44 | a full row is completed, and the screen moves up exactly when the cursor was in the last row |
| Screen.Console.NewLine | sys/kprintf.c:185-192 | the current row is completed with blanks |
| Screen.Console.Kprintf | sys/kprintf.c:174-213 | after every run of prints the rows above the cursor row are the last min(n, 23) completed ones and the cursor row begins with the unfinished one |
| Screen.Console.ShowsLastRows | sys/kprintf.c:24-44 | in screen memory: the last 23 completed rows, or as many as there are, 160 bytes each, and the unfinished row below them, where the cursor is |
| Screen.WrittenInPieces | sys/kprintf.c:174-213 | printing piece by piece is printing at once |
| Screen.NewlinePads | sys/kprintf.c:185-192 | a newline completes the unfinished row with blanks up to the 80th column and starts an empty one |
| Screen.LinesBecomeRows | sys/kprintf.c:174-213 | a text of lines shorter than 80 characters becomes one row a line, with blanks at its end |
| Screen.PlainTextIsCut | sys/kprintf.c:24-44 | without newlines the rows are the output cut every 80 characters |

## Left out

- Registers, the TLB and `invlpg`, TSS, GDT and IDT set-up, port I/O, PCI, AHCI and the RTC: hardware that this code does not decide. Every kernel entry is atomic.
- Kernel-mode writes to user pages: the copy-on-write branch handles user faults only (sys/idt.c:574).
- The kernel reads and writes tables and frames directly, not through its own mapping of physical memory, so a change of that mapping by a user's store (`PageFaults.UserStoreUnmapsScreen`) does not disturb the model's kernel. What such a store copies from a frame that is not allocated is left open. The second mapping of a new stack in the kernel's own tables (sys/virtualMemory.c:324), from where no process runs, is left out.
- VirtualMemory.Memory.MarkPageAsRW: making a page writeable needs the page to be mapped, as it is at the only such call (sys/idt.c:600); the code would also set the flag in an empty entry.
- VirtualMemory.Memory.GetNewPML4ForUser: the slot that is copied exists: the current root is a process's, or some page of the kernel's slot is mapped.
- VirtualMemory.Memory.Kdealloc: the frame is mapped by no live address space; the code would also free one that is.
- Running out of frames: no caller of `pageAllocator` looks at NULL, so the methods that allocate ask for enough free frames.
- Tables and pages as bytes: a frame holds either 512 entries or 4096 bytes, and an entry is a record of frame and flags; `PageFormat` ties these to 64-bit words. No code reads a page as a table.
- FrameBitmap.Bitmap.MarkAsFree: the three bit operations are written on naturals below 2^64, bit by bit, and the frame must have a row.
- `FreePageTables` (sys/task.c:1275-1305): the code marks the frame of every table directly under slots 0 to 510 of the dead root free, without clearing it, and looks for the lower levels through entries whose flags are not masked. The model omits this: the tables of a dead process stay out of the free set, and no claim is made about giving them back.
- Teardowns.TeardownIsStep: leaves `FreePageTables` out.
- Teardowns.FreePageEntries: the task shares only pages that have their frame's own number, since the code else frees frames in use; `EagerRefinement.TeardownIsSafeExactlyWhen` says that this condition is exact.
- Kernel.Kernel.KillTask: under the same condition.
- Kernel.Kernel.ExitTask: under the same condition.
- KernelRuns.Serve: exits and kills of the list are under that condition, for which `SafeExits.LastMembersEndSafely` gives one on the calls alone; user writes are outside the kernel's slot, by `PageFaults.KernelPagesStayExactlyWhen`.
- KernelRuns.BootAndServe: as for Serve; the program's areas and pages are parameters.
- Forking.CopyVma: the list of areas is a sequence; the walk to its tail is an append.
- Malloc and setenv's page are steps of `CowMachine` and of its runs, not methods of `Kernel.Kernel`: the areas of a process are fixed when it is made there. malloc is the append at the end of the list; the gaps that `free` leaves, `free` itself and a list without areas are left out.
- The failed-exec path (sys/task.c:906-937), exec on a ring of one process on the whole kernel, and `exitpid`.
- Execs.ExecIsStep: the ring holds at least two tasks, and the program's areas and pages are parameters.
- Kernel.Kernel.ExecTask: as for ExecIsStep.
- Boot.IdentityMapping: memory does not end in the last page of the address space, where the loop would wrap around and not end.
- Boot.InitUserProcess: the program's areas and pages are parameters.
- Boot.Start: as for InitUserProcess; consoles, drivers, the archive and interrupts are set up in between; the messages are left out.
- Execs.LoadSections: which bytes of the executable file go to which page is a parameter; ELF parsing and the layout of arguments and environment are not modelled.
- PageFaults.HandleFault: what happens after the handler has called `exit` for sbush, which returns into the handler, is not modelled; neither are the messages.
- Kernel.Kernel.PageFault: as for HandleFault.
- RunQueue.RunQueue.RunNext: saving and restoring registers and the kernel stack pointer is left out.
- Fields of a process that do not take part: names, start and end times, descriptors, the foreground pid. Pid, parent pid, root and areas are fixed when a process is made.
- Wrap-around of pids, ticks and counters, and of the line counter of the screen after 2^31 rows.
- Timer.Clock.Interrupt: `setAlarm` is not modelled; alarm counters are bumped and delivered.
- Tarfs.GetFileAddress: when the name is absent, the code still reads a size field behind the archive and ignores it; the model does not read there. The zero blocks at the end count as members without a name.
- Paths.RemoveDotSlash: components are shorter than 256 characters and the output fits its buffer, as the fixed buffers of the source require; the current directory is normalised, which `Directories.ChangeDirectory` keeps.
- `getCWD` is a parameter: the value of PWD as a string.
- File descriptors, `openFile`, `readFile`, `closeFile` and directory listings; the keyboard buffer.
- Screen.Console.Kprintf: number formats, backspace and carriage return; colours are set but not modelled.
- The shell, user programs, the C library and the boot files.
