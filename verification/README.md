# A verified model of the mini_kernel core

The project models the stateful engines of a small 32-bit x86 kernel and proves what they keep over
whole runs: the memory stack, the process engine, the stack relocation of fork, the ELF loader and the
VGA console.

Every operation appears twice. A function on values says what the C code does to its state; a method of
a class does it in place, with the loops of the source, and promises to agree with the function. The
theorems are lemmas about the functions, so they hold of the classes too.

| layer | operations on values | the same in place | theorems |
|---|---|---|---|
| physical memory map | `PhysicalMap.dfy` | `PhysicalAllocator.dfy` | `MapTiling.dfy`, `MapInvariant.dfy`, `MapRuns.dfy`, `MapResults.dfy` |
| page tables | `Words.dfy`, `PageTables.dfy` | `PageMapper.dfy` | `Frames.dfy`, `PageTables.dfy` |
| virtual pages | `VirtualPages.dfy` | `PageAllocator.dfy` | `VirtualPages.dfy`, `PageRuns.dfy`, `FrameSupply.dfy` |
| kernel heap | `HeapBlocks.dfy`, `HeapRuns.dfy` | `HeapAllocator.dfy` | `HeapBlocks.dfy`, `HeapRuns.dfy` |
| processes | `Processes.dfy` | `ProcessTable.dfy`, `ProcessKernel.dfy` | `Scheduling.dfy`, `ProcessRuns.dfy`, `ProcessWaits.dfy`, `Context.dfy`, `UserWait.dfy`, `BootRuns.dfy` |
| fork | `ForkStack.dfy` | `ForkStack.dfy` | `ForkStack.dfy` |
| ELF | `ElfImage.dfy` | `ElfLoader.dfy` | `ElfCorrectness.dfy`, `ElfSupply.dfy`, `ElfLayout.dfy` |
| console | `Console.dfy` | `Screen.dfy` | `Console.dfy`, `ConsoleText.dfy`, `Screen.dfy` |

## What is assumed

- **Boot map.** `Frames.FrameMap` on the map the BIOS leaves: entries sorted, disjoint, of positive length
  and merged; every free region that does not start at address 0 is page aligned, ends at or below 4 GiB
  and does not contain the page table linked into the kernel (`Frames.SmallPc` is such a map). Entries end
  below 2^64.
- **Callers of `free`** pass 32-bit addresses and give back no region the BIOS reserved (`MapRuns.Legal`).
- **Callers of the page allocator** free only pages they hold, keep at most 1024 freed pages, and stop
  before the bump pointer reaches 4 GiB (`PageRuns.Allowed`). The C code checks none of these.
- **`kmalloc`** gets the pages it asks for, and they can be mapped (`HeapRuns.PagesNew`, `HeapRuns.PageReady`;
  `HeapRuns.PageReadyExactly` says when that is so). The C code writes through a null pointer otherwise.
- **Traps** come from user mode, where registers are at stake (`Context.AllFromUserMode`).
- **Fork** starts with a word-aligned stack pointer inside the parent's own stack page, and the frames its
  walk reaches are word aligned (`ForkStack.Fork.Valid`, `ForkStack.Aligned`).
- **Counts of frames** (`FrameSupply`, `ElfSupply`) are for a region table with a free slot for every frame that
  is asked for; `MapResults.TableBound` says how many slots can be in use.
- **ELF files** hold their header table and segments, each segment has filesz <= memsz and no 32-bit sum
  wraps (`ElfImage.HeadersInside`, `ElfImage.Loadable`). Loadable segments share no page with each other or
  with pages in hand (`ElfCorrectness.Separate`).
- Clocks, the frames and addresses that new processes get, and which trap comes next are inputs.

## Where the code does less than one might expect

- `allocate` truncates the address it returns to 32 bits, so `free` undoes it exactly when the block lies
  below 4 GiB (`MapResults.FreeUndoesAllocate`). A block exactly at 4 GiB is granted with the answer 0, which
  reads as failure (`MapResults.HighBlockLooksLikeFailure`).
- `kmalloc` accepts 4088 to 4096 bytes but then hands out a block of 4087 (`HeapRuns.TakeBestEffect`).
- Starting a heap page cuts off every block listed after the head of the newest page; `kfree` no longer
  finds those (`HeapRuns.AddPageDetaches`, `HeapRuns.KfreeEffect`). They stay safe from being handed out.
- `allocate_page` returns a page even when `map_page` could get no frame for its table; that page is then
  not mapped (`VirtualPages.AllocatePageOwns`). `allocate_pages_contig` does the same with its last page
  (`PageRuns.ContigUnmapped`), and then `load_segment` faults (`ElfSupply.LoadSegmentFaults`). Neither happens
  when there are frames for the pages and the tables they lack (`FrameSupply.RunMapped`).
- `sys_sleep` returns at once when nobody else is ready (`ProcessWaits.SleepSwitchesExactly`).
- A sleep that takes the deadline to 2^31 or beyond, such as one for a negative time, has a deadline that is
  already past (`ProcessWaits.DeadlineExactly`).
- `exit_process` makes the parent ready whatever it was doing. A sleeper is woken before its deadline exactly
  when a child of its own exits before that (`ProcessWaits.WokenEarlyExactly`, `BootRuns.SleeperRunsEarly`).
- An exit also revives a parent that has itself exited. As `exit_process` leaves `tss.esp0` where it was, such a
  parent may come back with the registers of somebody else: `BootRuns.RevivedRunsAstray` is a run from boot that
  ends so, and `Context.RunFaithful` says exactly which runs keep all registers. Processes that have not exited
  keep theirs in every run (`Context.RunDelivers`).
- `sys_wait` reads the parent of every process without testing for NULL; the first process has none. It is
  modelled as matching nobody.

## Model

| member | source | states |
|---|---|---|
| PhysicalMap.BestFit | kernel/pmm.c:54-66 | the region chosen fits, no region that fits is smaller, and none before it is as small; -1 exactly when none fits; regions based at 0 never count |
| PhysicalMap.IndexOf | kernel/pmm.c:93-101 | the first entry with that base, or -1 exactly when there is none |
| PhysicalAllocator.Allocator.FindBest | kernel/pmm.c:54-63 | the scanning loop finds the best fit of the table |
| PhysicalAllocator.Allocator.ShiftRight | kernel/pmm.c:75-77 | the loop opens a slot: entries up to k stay, entry k and those above it move up by one |
| PhysicalAllocator.Allocator.ShiftLeft | kernel/pmm.c:108-112 | the loop closes a slot: entry k is gone, those above it move down by one |
| PhysicalAllocator.Allocator.Merge | kernel/pmm.c:106-112 | two touching free entries become one, in place |
| PhysicalAllocator.Allocator.Allocate | kernel/pmm.c:51-88 | the table in place and the address returned are those of the allocation on values |
| PhysicalAllocator.Allocator.Free | kernel/pmm.c:90-124 | the table in place is that of the free on values, whatever the address |
| MapResults.AllocateFailsExactly | kernel/pmm.c:51-87 | succeeds exactly when some region fits and either one fits exactly or the table has a free slot; on failure the table is unchanged and the result 0 |
| MapResults.AllocateEffect | kernel/pmm.c:68-87 | the block granted was free all through and in use by nobody; the live set grows by just that block and the free addresses shrink by just its bytes |
| MapResults.FreeEffect | kernel/pmm.c:90-124 | the live set shrinks by just that block and the free addresses grow by just its bytes |
| MapResults.FreeUndoesAllocate | kernel/pmm.c:51-124 | freeing the address returned restores the table if and only if the block's base is below 2^32 |
| MapResults.HighBlockLooksLikeFailure | kernel/pmm.c:68-87 | on a machine whose only usable memory starts at 4 GiB, a page is taken from the table and 0 returned |
| MapResults.TableBound | kernel/pmm.c:68-123 | with R boot regions and L live blocks the table never holds more than R + 2L entries |
| MapResults.FailsOnlyWhenNothingFits | kernel/pmm.c:68-83 | while R + 2L < 1024, an allocation succeeds exactly when some region fits |
| MapInvariant.AllocateInv | kernel/pmm.c:68-87 | an allocation leaves the boot regions cut into pieces, and no two free pieces unmerged |
| MapInvariant.FreeInv | kernel/pmm.c:90-124 | so does freeing any address that is not the base of a reserved region |
| MapInvariant.CoverageConserved | kernel/pmm.c:68-123 | the addresses the table describes are those of the boot map |
| MapRuns.CanonicalMeans | kernel/pmm.c:104-123 | the order kept is: positive lengths, each entry ending at or before the start of the next, no two touching neighbours of type 1 |
| MapRuns.FreeCanonical | kernel/pmm.c:90-124 | freeing any address, a reserved region's included, leaves the table sorted, disjoint and merged, and describing the same addresses |
| MapRuns.RunKeepsOrder | kernel/pmm.c:51-124 | so does any run of frees and of requests for at least one byte |
| MapRuns.RunKeepsCanonical | kernel/pmm.c:51-124 | after any run that frees no reserved region the table also tiles the boot map and keeps every reserved entry |
| MapRuns.UsedDeterminesMap | kernel/pmm.c:51-124 | two tables over one boot map with the same used entries are equal |
| MapRuns.FreeLive | kernel/pmm.c:90-124 | freeing an address removes the live block that starts there, and nothing else, from the live set |
| MapRuns.FreeingAllRestoresBoot | kernel/pmm.c:90-124 | after any legal run, giving back all live blocks that have 32-bit addresses, in any order and even repeatedly, restores exactly the boot table if and only if no live block lies at or above 4 GiB |
| MapRuns.SameLiveSameMap | kernel/pmm.c:51-124 | two runs that leave the same blocks live leave the same table |
| MapRuns.FreesCommute | kernel/pmm.c:90-124 | frees commute, and freeing twice is freeing once |
| Frames.GrantFrame | kernel/pmm.c:51-88 | a 4096-byte request fails without effect or grants an aligned frame that nobody owned, never the image's |
| Frames.ReleaseFrame | kernel/pmm.c:90-124 | freeing an owned frame ends that ownership and no other |
| Words.WithUserFrame | kernel/pmm.c:165-168 | setting the user bit keeps the frame and the present bit |
| Words.FlagsWord | kernel/pmm.c:168-169 | a frame or-ed with flags gives both back |
| PageTables.MapPageRefines | kernel/pmm.c:137-171 | the tables are a finite map from pages to words; mapping sets the word of one page when its table exists or can be had, changes no other page, and sets nothing otherwise; tables stay owned and distinct, user pages under user slots |
| PageTables.EnsureTableInv | kernel/pmm.c:141-164 | a new page table maps nothing, disturbs no page, and is a frame no other slot uses; there is one afterwards exactly when there was one or a frame can be had |
| PageTables.MapPageDirectory | kernel/pmm.c:141-166 | a missing directory entry becomes the new table's frame plus 3, or plus 7 for a user page; one in use at most gains the user bit, and only for a user page; no other entry changes |
| PageTables.DirectoryKept | kernel/pmm.c:235-257 | unmapping or freeing a page leaves the directory alone |
| PageTables.WriteEntryRefines | kernel/pmm.c:165-169 | writing a table entry changes the word of exactly one page |
| PageTables.UnmapPageRefines | kernel/pmm.c:251-257 | unmapping clears the entry of that page if it is present, and no other; afterwards get_map finds nothing there |
| PageTables.ReleasePageRefines | kernel/pmm.c:242-248 | freeing a mapped page clears it, ends the ownership of its frame, and changes nothing else |
| PageTables.FirstPageInv | kernel/pmm.c:126-135 | at boot the first 4 MiB are mapped to themselves with flags 7 and nothing else is mapped; the invariant holds |
| PageMapper.Mapper.BuildFirstPage | kernel/pmm.c:126-135 | the two loops build those tables |
| PageMapper.Mapper.EnsureTable | kernel/pmm.c:141-164 | the first half of mapping, with the clearing loop, does what it does on values |
| PageMapper.Mapper.MapPage | kernel/pmm.c:137-171 | the directory, tables and memory map in place are those of mapping on values |
| PageMapper.Mapper.GetMap | kernel/pmm.c:213-233 | the frame of a present page, 0 otherwise |
| PageMapper.Mapper.UnmapPage | kernel/pmm.c:251-257 | unmapping in place is unmapping on values |
| PageMapper.Mapper.ReleasePage | kernel/pmm.c:242-248 | so is releasing |
| PageMapper.Mapper.MapFrames | kernel/pmm.c:202-208 | the loop maps one fresh frame a page and stops at the first failure |
| VirtualPages.AllocatePageOwns | kernel/pmm.c:173-192 | a page granted was in nobody's hands and not on the free stack; its entry is a fresh frame with the flags asked for, or empty exactly when neither table nor frame for one was there; other pages keep theirs; on failure nothing changes |
| VirtualPages.FreePageReturns | kernel/pmm.c:235-249 | freeing a page in hand gives back exactly its frame, unmaps it, and leaves the other pages in hand mapped as they were |
| VirtualPages.ZeroFlag | kernel/pmm.c:173-197 | flag 0 stands for present and writable |
| VirtualPages.FreedComesBack | kernel/pmm.c:173-249 | with a frame to be had, the page freed last is the next one granted, and then stack and bump pointer are as before |
| VirtualPages.FreesReverse | kernel/pmm.c:173-249 | pages freed one after another are granted again in reverse order, which leaves stack and bump pointer as before |
| PageRuns.ContigOwns | kernel/pmm.c:194-211 | the pages granted are new and consecutive; all are mapped with the flags asked for, to frames of their own, except that the last is mapped exactly when at its turn its table was there or could be had; pages in hand keep theirs, on failure too |
| PageRuns.ContigUnmapped | kernel/pmm.c:194-211 | with one frame left and no table for the page, the page is granted and not mapped |
| PageRuns.BootOwns | kernel/pmm.c:126-135 | the page allocator at boot meets the invariant of the runs |
| PageRuns.RunOwns | kernel/pmm.c:173-249 | over any run, pages in hand and freed pages are disjoint, without repetition and below the bump pointer, and mapped pages in hand have distinct live frames that are not page tables |
| PageRuns.RunAccounts | kernel/pmm.c:173-249 | over any run, pages in hand, freed pages and those lost to failed contiguous requests are disjoint and are exactly the pages from the first one to the bump pointer |
| FrameSupply.AllocateLowers | kernel/pmm.c:51-87 | with room in the table, a frame can be had exactly when the free regions hold one; each grant leaves exactly one fewer |
| FrameSupply.MapFramesSpends | kernel/pmm.c:202-208 | all pages of the loop are mapped if and only if there are frames for them and for the tables they lack, and exactly those are taken |
| FrameSupply.PageSpends | kernel/pmm.c:173-192 | a mapped page is granted if and only if there is a frame for it and one for its table when that is missing |
| FrameSupply.MapFramesCompletes | kernel/pmm.c:202-208 | every page gets a frame if and only if there are frames for the pages and for the tables they lack, the last page's table not counted |
| FrameSupply.ContigSpends | kernel/pmm.c:194-211 | consecutive pages are granted, and granted mapped, each under exactly one of those two counts |
| FrameSupply.RunMapped | kernel/pmm.c:173-249 | over any run in which each request finds the frames it needs, every page in hand is mapped at all times |
| PageAllocator.Pages.AllocatePage | kernel/pmm.c:173-192 | the globals in place and the page returned are those on values |
| PageAllocator.Pages.AllocatePagesContig | kernel/pmm.c:194-211 | likewise |
| PageAllocator.Pages.FreePage | kernel/pmm.c:235-249 | likewise |
| HeapBlocks.BestBlock | kernel/pmm.c:274-284 | the first of the smallest listed free blocks that fit, -1 exactly when none fits |
| HeapBlocks.AddPageTiled | kernel/pmm.c:286-292 | a new page keeps the blocks of every page, detached ones included, tiling it exactly |
| HeapBlocks.AddPageSegmented | kernel/pmm.c:286-292 | and the list made of page segments, the newest running to the end of its page |
| HeapBlocks.SplitTiled | kernel/pmm.c:295-302 | so does splitting a block, counting 9-byte headers |
| HeapBlocks.TakeInv | kernel/pmm.c:295-306 | handing out a block keeps both |
| HeapBlocks.TakeSplits | kernel/pmm.c:295-306 | of a block of n bytes, n - size - 9 become a free block listed right behind when there is room for its header; else the block goes out whole; no other block changes |
| HeapBlocks.KfreeInv | kernel/pmm.c:309-319 | so does giving one back |
| HeapRuns.TakeBestEffect | kernel/pmm.c:259-308 | the block returned was free or new and is now taken, taken blocks are untouched, and it holds the bytes asked for if and only if they are at most 4087 |
| HeapRuns.KmallocRefuses | kernel/pmm.c:264-265 | exactly the sizes 0 and above 4096 are refused: the answer is 0 and nothing changes |
| HeapRuns.RestServes | kernel/pmm.c:274-306 | what a request leaves over serves the next one that fits it, without a page being asked for |
| HeapRuns.SideBySide | kernel/pmm.c:259-308 | two first requests that fit one page together are served side by side in the first page, the only one asked for |
| HeapRuns.KmallocBestFit | kernel/pmm.c:259-308 | the first call gets a page that is one free block; then the address returned is that of the first smallest listed block that fits, without a page being asked for; of a new page when none fits |
| HeapRuns.KfreeEffect | kernel/pmm.c:309-319 | frees the block at that address exactly when the list still reaches it, and changes nothing else |
| HeapRuns.AddPageDetaches | kernel/pmm.c:290-292 | a listed block stays listed exactly when it is not behind the head of the newest page |
| HeapRuns.SegmentPrefix | kernel/pmm.c:285-303 | up to any listed block, the part of the list in its page starts at the page's head and is contiguous |
| HeapRuns.LivePayloadsSafe | kernel/pmm.c:259-319 | live payloads are pairwise disjoint, inside their page, and overlap no header ever written |
| HeapRuns.BootStateInv | kernel/pmm.c:12-17 | so does the heap at boot |
| HeapRuns.PageReadyExactly | kernel/pmm.c:173-192 | the page kmalloc asks for can be had and mapped exactly when there is a frame for it and one for its table |
| HeapRuns.PagesKeeps | kernel/process.c:22-62 | a page request of another owner leaves the heap as it is, and its pages in hand and mapped as they were |
| HeapRuns.RunKeeps | kernel/pmm.c:259-319 | every run of kmalloc (1 to 4087 bytes) and kfree, with page requests of other owners in between, keeps the heap's structure, its pages mapped and its own, and every live payload inside one taken block |
| HeapRuns.RunSafe | kernel/pmm.c:259-319 | so in every state of such a run live payloads overlap neither each other nor a header, and a block the list reaches is taken exactly when its payload is live |
| HeapAllocator.KernelHeap.FindBest | kernel/pmm.c:274-284 | the walk along the links finds the best block |
| HeapAllocator.KernelHeap.AddPage | kernel/pmm.c:286-292 | writing the header and the two links in place is starting a page on values |
| HeapAllocator.KernelHeap.Take | kernel/pmm.c:295-306 | splitting or taking in place is taking on values |
| HeapAllocator.KernelHeap.Kmalloc | kernel/pmm.c:259-308 | heap, pages and address are those of kmalloc on values |
| HeapAllocator.KernelHeap.Kfree | kernel/pmm.c:309-319 | the walk and mark in place are kfree on values |
| Processes.FirstReady | kernel/process.c:231-245 | the first ready process of a stretch of the list, or its end |
| Processes.FindZombie | kernel/syscall.c:103-114 | the first exited child of a process, -1 exactly when there is none |
| Scheduling.ScheduleIsNearest | kernel/process.c:228-247 | the ready process nearest after the current one around the list; NULL exactly when nobody else is ready |
| Scheduling.StepShape | kernel/syscall.c:228-290 | what each trap does to the process table, and which process runs next, registers aside |
| ProcessRuns.StepKeeps | kernel/process.c:101-113 | a step keeps the list, pids in creation order, parents before children, and a current process that has not exited |
| ProcessRuns.RunKeeps | kernel/process.c:101-113 | so does every run |
| ProcessRuns.StepApproaches | kernel/process.c:228-247 | a ready process that is not running stays ready until it runs, nothing can halt the machine meanwhile, and each scheduling decision brings its turn strictly nearer |
| ProcessRuns.BoundedWaiting | kernel/process.c:228-247 | a ready process runs within N - 1 scheduling decisions, plus one for each process created meanwhile |
| ProcessRuns.NoPanic | kernel/process.c:269-274 | if some ready process never sleeps, waits or exits, no run reaches a panic |
| ProcessWaits.StepKeepsWakeups | kernel/process.c:260-282 | a step leaves nobody blocked in sys_wait with a zombie child |
| ProcessWaits.RunKeepsWakeups | kernel/syscall.c:102-126 | in no reachable state is a process blocked in sys_wait while a child of its own is a zombie |
| ProcessWaits.WaitAnswers | kernel/syscall.c:102-126 | with an exited child, returns its pid and stores its code; otherwise blocks the caller with -1 in eax and runs somebody else, or panics |
| ProcessWaits.WaitPolls | kernel/process.c:249-258 | a wait keeps the deadline of the caller's last sleep; unless that is ahead, the next timer interrupt makes the caller ready to ask anew |
| ProcessWaits.ZombieExited | kernel/syscall.c:31-37 | a zombie, created along the run or before, called exit itself, with the code kept for its parent |
| ProcessWaits.SleepSwitchesExactly | kernel/syscall.c:60-69 | gives up the processor exactly when somebody else is ready; the deadline is now plus time as a signed 32-bit number |
| ProcessWaits.DeadlineExactly | kernel/syscall.c:59-61 | the deadline is that many ticks away exactly when it is below 2^31, and already past otherwise |
| ProcessWaits.StepAsleep | kernel/process.c:249-267 | a trap makes a sleeper ready exactly when the clock, counting or seen by a yield, has reached the deadline, or a child of the sleeper exits; otherwise it sleeps on |
| ProcessWaits.WokenEarlyExactly | kernel/process.c:249-267 | over any run, a sleeper is woken before its deadline if and only if one of its children exits before that |
| ProcessWaits.NeverEarly | kernel/process.c:249-267 | so it does not run before its deadline unless a child has exited by then |
| BootRuns.SleeperRunsEarly | kernel/process.c:260-282 | a run from boot in which a process runs at the very tick it went to sleep, its deadline ahead if it asked for one that is |
| ProcessWaits.WakesInTime | kernel/kernel.c:133-145 | from the timer interrupt that reaches its deadline on it runs within N - 1 decisions, plus one for each process created meanwhile |
| UserWait.StepAsks | kernel/process.c:147-282 | while a process that waits is not running, whatever trap others make leaves -1 in store for it, or resumes it with -1 |
| UserWait.WaitStep | kernel/syscall.c:102-126 | if a process whose last trap is a wait is resumed with something other than -1, that wait is the trap just made and the answer is true; while others run, -1 is in store for it |
| UserWait.UserWaitTrue | user/user_space.c:88-94 | over any run, however the clock interrupts the retries and whoever exits, what user_wait returns and stores are the pid and exit code of an exited child of its caller |
| UserWait.AnswerOfExit | user/user_space.c:88-94 | over any run from a state in which nobody has exited, such as boot, every answer of user_wait is the pid of a child that called exit earlier in the run, and the status stored is the code it gave |
| Context.SwitchDelivers | kernel/process.c:147-227 | a switch stores the trap frame of the current process and resumes the next with the frame it is to find |
| Context.SaveContextEffect | kernel/process.c:147-173 | the trap frame is stored for the current process, its two user-stack words only for a trap from user mode; other processes keep theirs |
| Context.ExecEffect | kernel/syscall.c:205-226 | a refused image changes eax alone, to -1; else eip is the entry point, ebp 0, the stack pointer the stack top and eax 0 if the stack could be mapped; 13 registers never change |
| Context.ExitFaithful | kernel/process.c:260-282 | an exit, which leaves tss.esp0 alone, keeps everybody's registers if and only if the zombie it revives, if any, has its frame in place and, when traps land on its stack, runs next |
| Context.StepFaithful | kernel/sycall_handeler.asm:4-26 | whoever runs next gets exactly the 17 registers it last trapped with, apart from those its system call wrote, and everybody else's stay in place: for every trap but an exit, and for an exit exactly under the condition above |
| Context.ExitAlwaysFaithful | kernel/process.c:260-282 | before the trap's registers are known: an exit keeps registers whatever they are exactly when it revives nobody, or a zombie whose frame is in place while traps land elsewhere |
| Context.RunFaithful | kernel/restore_esp.asm:5-14 | over any run, that holds at every resumption, with tss.esp0 naming the boot stack, the current process's or a zombie's, if and only if every exit of the run meets the condition |
| Context.StepDelivers | kernel/sycall_handeler.asm:4-26 | whatever the trap, an exit included, a process that has never exited is resumed with the registers it is to find, and those of all others like it stay in place |
| Context.RunDelivers | kernel/restore_esp.asm:5-14 | over every run, each process that has never exited is always resumed so, and tss.esp0 names the boot stack, the current process's or that of one that has exited |
| BootRuns.BootFaithful | kernel/kernel.c:277-298 | the system at boot, with user_main alone or as the child of the ELF process, and traps landing on the boot stack, meets the invariants of the runs, and nobody has exited |
| BootRuns.RevivedRunsAstray | kernel/process.c:260-282 | a run from boot after which a process that has exited runs again, with the registers another process trapped with |
| ProcessTable.Table.FirstReady | kernel/process.c:229-245 | a walk along the links finds the first ready process before a stop |
| ProcessTable.Table.FindZombie | kernel/syscall.c:103-114 | the walk finds the first exited child |
| ProcessTable.Table.Wake | kernel/process.c:249-258 | the walk makes ready exactly the blocked processes whose deadline has come |
| ProcessTable.Table.Add | kernel/process.c:89-113 | the new record is last in the list, ready, child of the process given, with the next pid |
| ProcessKernel.Kernel.Schedule | kernel/process.c:228-247 | the two pointer loops are the scheduler on values |
| ProcessKernel.Kernel.SaveContext | kernel/process.c:147-173 | copying field by field stores the trap frame, the user stack only when the trap came from user mode |
| ProcessKernel.Kernel.ContextSwitch | kernel/process.c:193-227 | current process, tss.esp0 and registers in place are those of the switch on values |
| ProcessKernel.Kernel.SysYield | kernel/syscall.c:41-49 | yielding in place is yielding on values |
| ProcessKernel.Kernel.SysSleep | kernel/syscall.c:60-69 | likewise for sleep |
| ProcessKernel.Kernel.SysWait | kernel/syscall.c:102-126 | likewise for wait, with the status stored |
| ProcessKernel.Kernel.SysExit | kernel/process.c:260-282 | likewise for exit |
| ProcessKernel.Kernel.Irq0Handler | kernel/kernel.c:133-145 | likewise for the timer |
| ProcessKernel.Kernel.SysCreateProcess | kernel/syscall.c:71-79 | likewise for creating a process, once its memory is there |
| ProcessKernel.Kernel.SysFork | kernel/syscall.c:128-147 | likewise for fork: the child starts with the trap frame, 0 in eax and its own stack and frame pointers; the parent gets the child's pid |
| ForkStack.PendingDrops | kernel/syscall.c:160-169 | each step of the walk leaves one word fewer that points into the parent's page, so the walk ends even on a cyclic chain |
| ForkStack.LiveExactly | kernel/syscall.c:149-161 | the live words are those from the stack pointer up, and a frame pointer is followed exactly when it points at one of them with another above it |
| ForkStack.PageOfStack | kernel/syscall.c:163 | the test on saved pointers is whether they lie in the parent's stack page |
| ForkStack.ChildEbpMoves | kernel/syscall.c:146-158 | in 32-bit arithmetic, the child's frame pointer is in its live stack exactly when the parent's is, at the same place |
| ForkStack.WalkRelocates | kernel/syscall.c:160-169 | from any point of the walk on, it moves exactly the words still to be visited |
| ForkStack.ForkRelocates | kernel/syscall.c:144-169 | each live word of the child's stack is the parent's, plus delta exactly when it is a saved frame pointer on the parent's chain that points into the parent's page |
| ForkStack.ChainMirrored | kernel/syscall.c:144-169 | following saved frame pointers, the child meets the parent's frames in its own page, as many and in the same order, however far one looks; its chain goes on only where the parent's leaves its page for the child's |
| ForkStack.CopyStack | kernel/pmm.c:346-354 | the copy loop fills the live part and leaves the rest of the child's page |
| ForkStack.WalkFrames | kernel/syscall.c:160-169 | the while loop does the walk |
| ForkStack.ForkUserStack | kernel/syscall.c:144-169 | copy and walk together give the relocated stack, whose frames mirror the parent's, the child's stack pointer and frame pointer; the parent's stack is not written |
| ElfCorrectness.PhysicalInjective | kernel/elf.c:56-62 | two addresses in pages in hand share a byte of physical memory only if they are equal |
| ElfCorrectness.StoreEffect | kernel/pmm.c:338-354 | bytes stored through the page tables are where they belong and nothing else in the pages in hand changes |
| ElfCorrectness.PhysicalOffset | kernel/pmm.c:346-354 | the bytes of a page lie in its frame in order |
| ElfCorrectness.LoadSegmentShows | kernel/elf.c:51-70 | a segment loaded whole reads as the file's bytes followed by zeros, on pages that are present, writable and open to user code at both levels of the tables, and pages in hand before are mapped and read as they were |
| ElfCorrectness.LoadAllShows | kernel/elf.c:72-84 | once every segment is loaded whole, reading virtual memory gives all of them at once, and user code may write them all |
| ElfSupply.StoreFaults | kernel/pmm.c:338-354 | a copy faults exactly when it meets a page that is not present |
| ElfSupply.LoadSegmentFaults | kernel/elf.c:51-70 | a segment faults exactly when all its pages got frames and it has a byte to store on a last page whose table could not be had |
| ElfSupply.LoadSegmentEnds | kernel/elf.c:51-70 | a segment that is not empty, by the frames there are before the call: cut short exactly when too few for its pages, a fault exactly when enough for those but not for the last page's table, else whole |
| ElfSupply.LoadAllLoads | kernel/elf.c:72-84 | a file is loaded whole when there are frames for all its pages and the tables they lack and, unless it has empty segments, only then |
| ElfSupply.LoadSucceeds | kernel/elf.c:72-84 | so with frames enough, reading virtual memory gives every segment at once, writable for user code, and pages in hand before read as they did |
| ElfSupply.ShortExhausts | kernel/elf.c:56-60 | a segment is cut short only when no frame is left, for later segments either; nothing is written and pages in hand are as they were |
| ElfSupply.LoadAllAppend | kernel/elf.c:75-82 | loading goes through the whole table: segments after one cut short are still loaded, on what it leaves, and the load is then partial |
| ElfLayout.HeadersBack | kernel/elf.h:32-59 | reading a file in which an ELF header and a table of program headers are laid out, little-endian, gives those headers back |
| ElfLayout.SupportedExactly | kernel/elf.c:3-49 | the headers accepted are those with magic 7F 45 4C 46, class 1, version 1, machine 3 and type 1 or 2 |
| ElfLayout.FileLoads | kernel/elf.c:72-84 | with frames enough, loading such a file puts every segment of type 1 in memory, byte by byte from p_offset to p_vaddr, then zeros, where user code may read and write it, and gives e_entry |
| ElfLoader.StoreAppend | kernel/elf.c:64-69 | storing the file part and then the zeros is storing both in one go |
| ElfLoader.Loader.Memcpy | kernel/pmm.c:346-354 | the loop stores the bytes through the page tables, or faults on a page that is not present |
| ElfLoader.Loader.Memset | kernel/pmm.c:338-344 | likewise for one byte repeated |
| ElfLoader.Loader.LoadSegment | kernel/elf.c:51-70 | page tables and memory in place are those of loading on values, and so is the way it ends |
| ElfLoader.Loader.ElfLoadExec | kernel/elf.c:72-84 | likewise for the whole header table; a segment cut short does not stop the loop |
| ElfLoader.Loader.CheckElfSupported | kernel/elf.c:3-49 | accepts exactly the 32-bit Intel 386 files of the current version that are relocatable or executable |
| Console.DecimalDecodes | kernel/vga.c:50-74 | the digits printed stand for the number |
| Console.HexShowsAll | kernel/vga.c:115-132 | eight hexadecimal digits stand for all 32 bits |
| ConsoleText.DecimalPlain | kernel/vga.c:50-74 | only the digits 0 to 9 are printed, without leading zeros |
| ConsoleText.HexPlain | kernel/vga.c:115-132 | only the digits 0 to 9 and A to F are printed |
| ConsoleText.NewLineEffect | kernel/vga.c:90-93 | a newline moves on to the first multiple of 80 above the position and writes nothing |
| ConsoleText.PutEffect | kernel/vga.c:13-17 | any other character is written at the position in white on black, the position goes up by 1, and no other cell changes; rows added are blank |
| ConsoleText.TextStands | kernel/vga.c:86-106 | every character of a text stands in its place: the cell after the one before, or column 0 of the next row after a newline |
| ConsoleText.TextSpares | kernel/vga.c:86-106 | all other cells are as they were |
| ConsoleText.TextEnds | kernel/vga.c:86-106 | the position is left at the place after the text |
| ConsoleText.LineStands | kernel/vga.c:86-106 | every line of a text starts in column 0 of the row below the line before and stands there in consecutive cells |
| ConsoleText.LineFromHere | kernel/vga.c:86-106 | text without newlines stands in consecutive cells from the position on |
| Screen.WriteAppend | kernel/vga.c:86-106 | writing two strings in turn is writing their concatenation |
| Screen.Vga.AddLine | kernel/vga.c:19-36 | the loops move every row up, blank the last and bring a cursor that ran off back by 80 |
| Screen.Vga.PrintString | kernel/vga.c:86-106 | the screen remains the last 25 rows of the tape an unscrolled writer would have produced, with the cursor below 2000 |
| Screen.Vga.PrintNumber | kernel/vga.c:50-74 | likewise, the tape growing by the decimal digits of n |
| Screen.Vga.PrintHex | kernel/vga.c:115-132 | likewise, by 0x and the eight hexadecimal digits of n |

## Left out

- Boot sector, disk reads, PIC and PIT programming, `hlt`, descriptor tables: hardware with no state to prove things about.
- Keyboard handling, the shell, the demo programs, the in-kernel test printing.
- `remove_process` and `remove_process_list`: no handler calls them, so processes stay listed for ever in the model, as they do in the kernel.
- Kernel-mode processes: a return to kernel mode does not reload the stack pointer, so register fidelity is stated for traps from user mode only.
- Pids and ticks do not wrap in the model; `process_number` is 16 bits, and `ticks`, declared unsigned in one file and signed in the others, 32 bits in the kernel. Deadlines do wrap.
- Page tables and data frames are kept apart in the model, tables by frame and data by physical address; that they are disjoint frames is proved, but the first 4 MiB are also identity mapped and a program linked there would overwrite the kernel.
- The translation lookaside buffer: the page tables are the truth, although `free_page` does not invalidate entries.
- The column counter `j` of `print_string` and the hardware cursor set by `move`.
- `elf_load_rel`, whose body is empty, and `create_elf_process`, which maps one more page after the load.
- ForkStack.CopyStack: copies words where `memcpy` copies bytes, because the stack pointer is taken to be word aligned.
- ForkStack.WalkFrames: a chain that reaches a frame which is not word aligned is not modelled; the C code would then rewrite words that straddle two others.
- HeapAllocator.KernelHeap.Kmalloc: requires the pages it asks for to be granted; the C code writes through a null pointer when they are not.
- ForkStack.ForkUserStack: takes the same word-aligned chains as `WalkFrames`.
- PageAllocator.Pages.FreePage: requires room in the stack of freed pages; the C code writes past its array when there is none.
- PageTables.MapPageRefines: takes a new table to be writable wherever its frame lies; the C code clears it through its physical address, which is mapped only inside the first 4 MiB.
- PageTables.EnsureTableInv: likewise for the new table itself.
- The timer in kernel mode between `create_process` and `restore_esp` at boot: the runs start at the first return to user mode.
- Processes.FindZombie: a process without a parent matches nobody, where `sys_wait` reads address 0.
