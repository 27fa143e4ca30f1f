# aPlus kernel: a verified model

aPlus is a small x86 kernel. This project models five of its components in Dafny and proves what
they are there for: the relocating module loader, the scheduler, the physical page allocator with
the address spaces above it, the two caches of the virtual file system, and the locks.

Each component has two halves. One is a set of functions on values that says what every operation
does; the theorems are about those. The other is the kernel's own form, a class or method that
updates fields, arrays and linked lists in loops, and is proved to do exactly what the functions
say. A failed `DEBUG_ASSERT` and a `kpanic` are outcomes (`Panic`, `None` or `false`), not
preconditions.

| file | component |
|---|---|
| `Bits.dfy`, `Lists.dfy`, `Outcomes.dfy`, `Iteration.dfy` | 32-bit words bit by bit, remainders, rounding; lists as sequences; outcomes; repeated steps |
| `Relocation.dfy`, `SectionLayout.dfy` | i386 relocations; section layout and image |
| `Loader.dfy`, `LoaderTheorems.dfy`, `LoaderCompletion.dfy`, `LoaderRebasing.dfy`, `ModuleLoader.dfy`, `ModuleInit.dfy` | symbol table, dependency recursion, theorems, when a load completes, a module at another base, the loader in place, `module_init` |
| `TurnLength.dfy`, `Scheduler.dfy`, `SchedulerSafety.dfy`, `SchedulerTime.dfy`, `SchedulerSteps.dfy`, `TurnTaking.dfy`, `SchedulerLatency.dfy`, `RunQueue.dfy` | how long a turn lasts, scheduling operations, safety, CPU time, what one step does, turn-taking, latency, the linked run queue in place |
| `PageSet.dfy`, `PageAllocator.dfy`, `Paging.dfy`, `MapReferences.dfy` | page set and its bitmap; mapping intervals; reference counts |
| `DirectoryCache.dfy`, `InodeCache.dfy` | the dcache and the inode cache |
| `Spinlock.dfy`, `Semaphore.dfy` | the locks as interleaved atomic steps |

To verify the project: `dafny verify dfyconfig.toml`.

## Main results

* **Linking.** In every completed load, all references to a name are bound to one address: the
  exporting module's function, or the kernel's. Each `init` runs once, after those of all modules
  it depends on through any chain. A loop panic names a module on a real cycle, and a cyclic graph
  never loads. A load completes exactly if the graph is resolved and acyclic and, in the order the
  graph gives, every module finds the names it asks for, exports no name used before, has its entry
  points, and has no function at NULL and no unknown relocation. The bytes of every section are the
  file's, except in relocation slots, which meet their psABI formulas. Two loads that differ in one
  module's base give images of it that differ exactly as its relocation types say.
* **Scheduling.** In every run of interrupts, yields and spawns on up to 32 CPUs, no task is current
  on two of them and `__sched_next` never spins. On every CPU the quantum test is about its own
  current task; that goes on, or the CPU hands over to the first task in cyclic order that may follow,
  and no other CPU changes. Time is conserved modulo 2^32 on any number of CPUs, and exactly on one.
  On one CPU in steady state, which boot and all further runs keep, a timer interrupt is one step of
  plain turn-taking. How long each turn lasts is given in closed form for every counter value, and
  with it the exact wait of each task, its bound, and what a full round gives every task.
* **Memory.** In every run after `pmm_init` no block is handed out twice without a free, and none is
  reserved. A map's pages are those of its interval through any growing and shrinking by pages, and
  what one loop maps the other unmaps. Each map's count is its number of listings, and it is
  released exactly once. Destroying a clone of an address space undoes the cloning.
* **Caches.** Every run of cached lookups, creations under new names and unlinks gives the answers
  of the uncached ones. What a lookup finds in its own directory can be unlinked after any such run
  that does not unlink it. The inode cache is a memo table: every get of an inode answers what its first load gave.
* **Locks.** Mutual exclusion, the handing over of a lock let go and the balance of the semaphore's
  value hold under every interleaving. Once the waits under way finish, the semaphore's value is negative exactly if they
  outnumbered the units there were.

Several intended properties do not hold of the code as it is. For each of these there is a concrete
case and the exact condition:

| intended | exactly when | case |
|---|---|---|
| a module's dependencies are loaded | `SingleDependencyNeverLoads` | `TwoModules` |
| sections lie inside the core and apart | `LayoutExact` | `WrapsAround` |
| a turn lasts at most the quantum | `WithinQuantum`, `TurnIsQuantum` | `LongTurn` |
| a task waits at most the others' quanta | `LatencyWithinQuanta`, `TwoTasksExactly` | `LongWait` |
| a claim moves `used` with the bits | `ClaimAccounting` | `ClaimMiscounts` |
| so does an unclaim | `UnclaimAccounting` | `UnclaimMiscounts` |
| what passes the guards has a bit | `ClaimGuard`, `FreeGuard` | `PageWithoutBit` |
| a map grows and shrinks by what is asked | `EnlargeAgrees`, `ShrinkAgrees` | `EnlargeWraps`, `EnlargeSpins`, `ShrinkWraps` |
| shrinking unmaps only what is cut off | `ShrinkExact` | `ShrinkLosesPage` |
| removing a map unmaps it and leaves the others | `RemoveExact` | `RemoveTakesNeighbour`, `RemoveKeepsLast` |
| a cached lookup answers as an uncached one | `LookupAgrees` | `FoundWithoutFinddir` |
| an unlink returns | `UnlinkAgrees` | `UnlinkStops` |
| a creation keeps the cache coherent | `MakeAgrees` | `CreatOverExisting` |
| a rename keeps the cache coherent | `RenameCoherent` | `RenameOntoCached` |
| the semaphore's value is never negative | `NextBacked` | `TwoWaiters` |

## Model

| member | source | states |
|---|---|---|
| `Bits.SetBit` | os/kernel/mm/pmm.c:59 | or-ing `1 << j` into a word sets bit `j` and leaves every other bit |
| `Bits.ClearBit` | os/kernel/mm/pmm.c:158 | and-ing a word with `~(1 << j)` clears bit `j` and leaves every other bit |
| `Bits.TestIsBit` | os/kernel/sched.c:59 | the test `w & (1 << j)` is true exactly if bit `j` is set |
| `Bits.FullWord` | os/kernel/mm/pmm.c:91 | a word equals 0xFFFFFFFF exactly if all 32 bits are set |
| `Bits.MaskRoundsDown` | os/arch/x86/vmm.c:42-43 | `x & ~(2^k - 1)` is the largest multiple of 2^k not above `x` |
| `Relocation.WriteWord` | os/kernel/init/module.c:236-244 | reading a stored word back gives it, and no byte outside the four changes |
| `Relocation.Relocate` | os/kernel/init/module.c:206-295 | the in-place loops leave the image of the entry-by-entry specification, or stop with its reason |
| `Relocation.RelocationCorrect` | os/kernel/init/module.c:206-295 | with disjoint slots it succeeds exactly if every type is known; then each slot satisfies its psABI congruence over the original image and all other bytes are unchanged |
| `Relocation.RelEqualsRela` | os/kernel/init/module.c:300-389 | a SHT_REL entry does what the SHT_RELA entry with the old slot content as addend does |
| `Relocation.UniqueWord` | os/kernel/init/module.c:236-244 | the psABI congruence determines the stored word |
| `Relocation.Rebasing` | os/kernel/init/module.c:206-295 | moving base and local symbols by `d` moves absolute and relative slots to local symbols by `d`, leaves PC-relative slots to local symbols, moves PC-relative slots to external symbols by `-d`, and changes nothing else |
| `SectionLayout.Layout` | os/kernel/init/module.c:453-469 | whatever the sizes, the loop with its mask arithmetic gives each allocated section the offset, and the core the size, computed modulo 2^32 |
| `SectionLayout.MaskAlignsUp` | os/kernel/init/module.c:462-465 | `(x + a - 1) & ~(a - 1)` is the least multiple of `a` at or above `x`, or zero where that is 2^32 |
| `SectionLayout.AlignUpLeast` | os/kernel/init/module.c:462-465 | no smaller aligned offset would do |
| `SectionLayout.LayoutCorrect` | os/kernel/init/module.c:453-469 | the reference layout is aligned, inside the core and pairwise disjoint, for any number of sections |
| `SectionLayout.LoopFits` | os/kernel/init/module.c:453-469 | as long as the reference layout stays below 2^32 the loop computes it |
| `SectionLayout.LayoutExact` | os/kernel/init/module.c:453-469 | offsets are always aligned, and are inside the core and disjoint exactly if the reference layout ends below 2^32 |
| `SectionLayout.WrapsAround` | os/kernel/init/module.c:462-467 | two sections that end past 2^32 leave a core of one byte that does not hold the first |
| `SectionLayout.CopySections` | os/kernel/init/module.c:477-513 | the copy loop leaves the specified image, or stops on a section it cannot copy |
| `SectionLayout.CopyCorrect` | os/kernel/init/module.c:477-513 | with disjoint sections it succeeds exactly if every allocated one is PROGBITS or NOBITS; then each holds its content and the rest is untouched |
| `SectionLayout.ImageHoldsSections` | os/kernel/init/module.c:453-513 | layout and copy together put each section's content or zeros at its offset |
| `Loader.LookupExact` | os/kernel/init/module.c:80-84 | the table search answers the first entry with the name, and nothing exactly if none has it |
| `Loader.FindAll` | os/kernel/init/module.c:136-154 | each name of the list is resolved to the first queued module with that name; it fails exactly if some name is not queued |
| `LoaderTheorems.RunKeeps` | os/kernel/init/module.c:99-396 | a successful `module_run` keeps the linking and order invariants, only adds to table and log, restores the set of LOADING modules and leaves its module LOADED |
| `LoaderTheorems.LinkingCoherence` | os/kernel/init/module.c:41-94 | in a completed load every undefined reference to a name is bound to the exporting module's address if any module exports it, otherwise to the kernel's; images are built from those values |
| `LoaderTheorems.InitOrder` | os/kernel/init/module.c:99-161 | in a completed load every module is LOADED, each own `init` ran exactly once and after the `init` of every module reachable through dependencies |
| `LoaderTheorems.RunFindsCycle` | os/kernel/init/module.c:101-108 | while the LOADING modules are the current dependency path, the module a loop panic names lies on a cycle |
| `LoaderTheorems.CycleDetectionExact` | os/kernel/init/module.c:101-161 | the module a loop panic names lies on a cycle, and a completed load implies there is none; every load terminates |
| `LoaderTheorems.DependencyRoundTrip` | os/kernel/init/module.c:136-154 | parsing a comma-separated list gives back the names it was written from |
| `LoaderTheorems.SingleDependencyNeverLoads` | os/kernel/init/module.c:117-141 | with the `find` macro as written, loading completes exactly if it would with lookup by the requester's name and no module lists exactly one dependency, unless a module is called like its own list and that is no proper name |
| `LoaderTheorems.TwoModules` | os/kernel/init/module.c:117-141 | of two modules, the second depending on the first, lookup by the second's list loads both and the macro as written stops at the second |
| `LoaderCompletion.SymbolExact` | os/kernel/init/module.c:173-192 | a round of the symbol loop ends exactly if an undefined name is in the kernel or exported by then, and an exported function is not at NULL and its name was neither exported nor asked for before |
| `LoaderCompletion.LinkExact` | os/kernel/init/module.c:166-394 | linking a module ends exactly if every symbol can be done, it has `init` and `dnit`, and all its relocation types are known; the table then has exactly the names used |
| `LoaderCompletion.RunOrder` | os/kernel/init/module.c:99-396 | a `module_run` links, in the order the graph gives, module after module, or stops for a loop, an unresolved dependency or a module that does not link there |
| `LoaderCompletion.LoadCompletes` | os/kernel/init/module.c:99-533 | a load completes exactly if the graph is resolved and acyclic and every module of the order links after those before it; the `init` calls are then in that order |
| `LoaderCompletion.OrderTopological` | os/kernel/init/module.c:156-157 | in a resolved graph without cycles that order lists every module once, after all it depends on |
| `LoaderRebasing.SymbolsMove` | os/kernel/init/module.c:166-196 | in two completed loads that differ in one module's base by `d`, exactly its own symbols and its references to its own exports differ, by `d` |
| `LoaderRebasing.LoadRebases` | os/kernel/init/module.c:166-389 | and its final images differ by `d`, `-d` or nothing slot by slot as the relocation type and symbol say, and nowhere else |
| `ModuleLoader.KernelLoader.Export` | os/kernel/init/module.c:41-76 | stops exactly on NULL or, unless the name is reserved, on a name in the table; otherwise sets the entry point, or appends exactly that entry |
| `ModuleLoader.KernelLoader.ResolveName` | os/kernel/init/module.c:80-94 | answers the first entry with the name and leaves the table; if there is none, answers the kernel's address and appends exactly that entry; stops exactly if there is neither |
| `ModuleLoader.KernelLoader.LinkSymbols` | os/kernel/init/module.c:166-196 | the symbol loop in place does what the specification does symbol by symbol |
| `ModuleLoader.KernelLoader.FindDependencies` | os/kernel/init/module.c:117-154 | the lookup loops, with the macro as written, find the module's dependencies in the graph |
| `ModuleLoader.KernelLoader.RunDependencies` | os/kernel/init/module.c:156-157 | the countdown loop runs the dependencies from last to first |
| `ModuleLoader.KernelLoader.Run` | os/kernel/init/module.c:99-396 | the recursion in place reaches the specified state or stops with its reason; it terminates because READY modules run out |
| `ModuleLoader.KernelLoader.Finish` | os/kernel/init/module.c:166-394 | links, relocates the image array, calls `init` and marks the module LOADED |
| `ModuleLoader.KernelLoader.RunAll` | os/kernel/init/module.c:532-533 | runs the whole queue in order; from the queue just built it ends exactly if that can be loaded |
| `ModuleInit.QueueModules` | os/kernel/init/module.c:408-529 | succeeds exactly if names are distinct, all allocated sections copyable, a symbol table is there and the assertions on section types hold, and queues each file placed at its base |
| `ModuleInit.LoadModules` | os/kernel/init/module.c:401-535 | `module_init` as a whole comes out as the specified load of the placed files, and completes exactly if all can be queued and what is queued can be loaded |
| `ModuleInit.ImagesAfterLoad` | os/kernel/init/module.c:401-535 | after a completed `module_init` each relocation slot meets its formula with the bound values and every other byte of every section is the file's or zero |
| `TurnLength.DividesIsMod` | os/kernel/sched.c:90 | the quantum test on a possibly negative `int` is divisibility |
| `TurnLength.Length` | os/kernel/sched.c:90 | what is left of a turn is between 1 and 2q - 1 ticks, whatever the counter shows |
| `TurnLength.LengthIsFirst` | os/kernel/sched.c:90 | the closed form is the first tick at which the quantum test passes, for every value of the counter and every quantum |
| `TurnLength.WithinQuantum` | os/kernel/sched.c:90 | the quantum test passes within the next `q` ticks exactly if the turn ends before 2^31, or the ticks before it and those after it, in numbers, are at most `q` |
| `TurnLength.TurnIsQuantum` | os/kernel/sched.c:90 | from a boundary below 2^31 the test passes next after exactly the quantum if and only if that is before 2^31 or the two parts, in numbers, add up to it |
| `TurnLength.NegativeTurnIsQuantum` | os/kernel/sched.c:90 | above 2^31 the test passes next after exactly the quantum, but for the last turn before the wrap |
| `TurnLength.FirstCrossingTurn` | os/kernel/sched.c:90 | the first turn of a task to meet 2^31 lasts twice the rest of 2147483 by the quantum, plus one |
| `TurnLength.LongTurn` | os/kernel/sched.c:90 | a task of quantum 39 at a boundary of 2147457 ms keeps the CPU for 53 ticks |
| `SchedulerSafety.FirstIsLeast` | os/kernel/sched.c:49-71 | what is chosen has a place in the order given before which nothing is eligible |
| `SchedulerSafety.RoundRobinChoice` | os/kernel/sched.c:49-71 | the search ends exactly if some queued task is READY and allowed, and at the first such task in cyclic order strictly after the current one |
| `SchedulerSafety.CoreMask` | os/arch/x86/smp.c:90 | the mask `~(1 << c)` excludes every CPU but `c` |
| `SchedulerSafety.SwitchEnds` | os/kernel/sched.c:94-104 | in a safe state every switch finds a task |
| `SchedulerSafety.DoKeepsSafe` | os/kernel/sched.c:75-149 | every interrupt, yield and spawn returns and keeps: currents distinct, each RUNNING or excluded elsewhere, only currents RUNNING |
| `SchedulerSafety.NeverOnTwoCpus` | os/kernel/sched.c:75-196 | from boot, every allowed run on up to 32 CPUs returns and ends safe |
| `SchedulerSafety.AllowedStaysSafe` | os/kernel/sched.c:75-149 | from a safe state every state of an allowed run is safe |
| `Lists.RemoveKeepsOrder` | os/kernel/sched.c:153-170 | taking a task out leaves all others in their order, each once |
| `SchedulerTime.ClockCounts` | os/arch/x86/timer.c:70-73 | after `n` ticks `arch_timer_getus` is exactly 1000n |
| `SchedulerTime.RunConserves` | os/kernel/sched.c:83-87 | every run keeps: the times of all tasks add up to the last scheduling point, and each parent's children time to its children's times, modulo 2^32 |
| `SchedulerTime.RunExact` | os/kernel/sched.c:83-87 | on one CPU, for any length of run, whole milliseconds that add up to the last scheduling point are what every counter shows modulo 2^32 microseconds, and the clock is 1000n |
| `SchedulerTime.CpuTimeConserved` | os/kernel/sched.c:39-43 | conservation modulo 2^32 from boot on any number of CPUs |
| `SchedulerTime.CpuTimeExact` | os/kernel/sched.c:39-43 | exact bookkeeping from boot on one CPU, for any length of run |
| `SchedulerTime.CountersExact` | os/kernel/sched.c:83-87 | while the clock fits the counters each shows its own milliseconds |
| `SchedulerSteps.ScheduleExact` | os/kernel/sched.c:75-109 | on any CPU `schedule` never returns exactly if the turn of its own current task is over and no task may follow; it charges that task; if its turn is not over it goes on with every status kept, otherwise the CPU hands over to the first task in cyclic order that may follow; no other CPU changes |
| `SchedulerSteps.YieldExact` | os/kernel/sched.c:113-140 | a yield returns exactly if some task may follow, and hands over to the first of them |
| `SchedulerSteps.InterruptExact` | os/arch/x86/intr.c:390-402 | the timer interrupt advances that CPU's clock by one tick and no other, and then does as `schedule` |
| `TurnTaking.WaitsForOthers` | os/kernel/sched.c:90-104 | in turn-taking a task that is not current waits at most as long as the others' turns may add up to |
| `TurnTaking.WaitIsExact` | os/kernel/sched.c:90-104 | a task gets the CPU exactly when the turns of those before it are over, and not earlier |
| `TurnTaking.FullRound` | os/kernel/sched.c:90-104 | a round from anywhere lasts as long as the turns add up to, gives each task its turn and ends where it began |
| `TurnTaking.LateTurn` | os/kernel/sched.c:90-104 | two tasks of which one has a quantum above 20 keep to their quanta until that one meets 2^31, in a turn of twice the rest of 2147483 by it, plus one |
| `SchedulerLatency.OneTick` | os/arch/x86/intr.c:390-402 | in steady state one timer interrupt of the scheduler is one step of turn-taking |
| `SchedulerLatency.SteadyFromBoot` | os/kernel/sched.c:75-196 | boot on one CPU is steady, and so is every state reached by ticks, yields and spawns of tasks that may run there |
| `SchedulerLatency.WaitExact` | os/kernel/sched.c:75-109 | a task that is not current becomes so after exactly the turns of those before it, not earlier |
| `SchedulerLatency.LatencyBound` | os/kernel/sched.c:75-109 | whatever the clock shows, a task that is not current is current again within the sum over the other tasks of 2(20 - priority) - 1 ticks |
| `SchedulerLatency.LatencyWithinQuanta` | os/kernel/sched.c:75-109 | it is current again within the sum over the others of 20 - priority ticks, if each of their counters meets the condition of WithinQuantum |
| `SchedulerLatency.TwoTasksExactly` | os/kernel/sched.c:75-109 | of two tasks one waits at most the other's quantum exactly under that condition on the other's counter |
| `SchedulerLatency.LateWait` | os/kernel/sched.c:75-196 | after boot and a spawn at any priority above the core task's, some number of ticks leads to a state in which the core task waits twice the rest of 2147483 by the child's quantum, plus one |
| `SchedulerLatency.LongWait` | os/kernel/sched.c:90 | after boot, a spawn at priority -19 and some ticks, the core task waits 53 ticks for a quantum of 39 |
| `SchedulerLatency.Round` | os/kernel/sched.c:75-109 | a round of as many ticks as the turns add up to charges every task exactly its turn and comes back to the current one |
| `SchedulerLatency.FairRound` | os/kernel/sched.c:75-109 | where every turn lasts its quantum, a round charges every task exactly 20 - priority milliseconds; TurnIsQuantum says when |
| `RunQueue.LinkedQueue.Push` | os/kernel/sched.c:144-149 | the linked list gains that task at its head and stays acyclic |
| `RunQueue.LinkedQueue.Remove` | os/kernel/sched.c:153-170 | the linked list loses exactly that task; the assertions hold exactly if it was listed |
| `RunQueue.KernelScheduler.Search` | os/kernel/sched.c:49-71 | the pointer-chasing loop ends at the first eligible task in cyclic order |
| `RunQueue.KernelScheduler.ChargeCurrent` | os/kernel/sched.c:83-87 | charges the current task and its parent as specified, whoever the parent is |
| `RunQueue.KernelScheduler.SwitchTask` | os/kernel/sched.c:94-104 | steps back, searches and dispatches as specified |
| `RunQueue.KernelScheduler.ScheduleCpu` | os/kernel/sched.c:75-109 | `schedule` on the linked queue: the quantum test on this CPU's own current task, then it goes on or hands over to the first task that may follow, as ScheduleExact says |
| `RunQueue.KernelScheduler.YieldCpu` | os/kernel/sched.c:113-140 | `schedule_yield` on the linked queue hands over to the first task that may follow |
| `RunQueue.KernelScheduler.TimerTick` | os/arch/x86/intr.c:390-402 | the timer interrupt on the linked queue: one tick of this CPU's clock, then as `schedule` |
| `RunQueue.KernelScheduler.Admit` | os/kernel/sched.c:144-149 | `sched_enqueue` of a new task is the specified step |
| `RunQueue.KernelScheduler.SpawnTask` | os/kernel/syscalls/056_clone.c:78-98 | a new task gets its fields and is enqueued as specified |
| `RunQueue.KernelScheduler.Execute` | os/kernel/sched.c:75-149 | from a safe state any timer interrupts, yields and spawns on any CPUs, in place, all return and reach the specified state |
| `RunQueue.BootAndRun` | os/kernel/sched.c:75-196 | boot and any interrupts, yields and spawns after it, in place, keep every task off two CPUs |
| `RunQueue.BootOn` | os/kernel/sched.c:181-196 | boot builds the specified initial state: each CPU on its own core task, barred from the others |
| `RunQueue.MakeCores` | os/arch/x86/smp.c:61-90 | the core tasks are distinct, READY, at regular priority, with the mask of their CPU |
| `PageSet.LowestFree` | os/kernel/mm/pmm.c:88-107 | the lowest free page of a range, none exactly if all are taken |
| `PageSet.HighestWordChoice` | os/kernel/mm/pmm.c:122-141 | from the end: the lowest free page of the highest word that has one, none exactly if all are taken |
| `PageSet.ClaimAccounting` | os/kernel/mm/pmm.c:45-62 | `used` follows the bits exactly if one page of the interval was set before |
| `PageSet.ClaimMiscounts` | os/kernel/mm/pmm.c:56 | claiming the first page of empty memory sets a bit and counts nothing |
| `PageSet.UnclaimAccounting` | os/kernel/mm/pmm.c:65-81 | `used` follows the bits exactly if the interval is one page that was free |
| `PageSet.UnclaimMiscounts` | os/kernel/mm/pmm.c:65-81 | unclaiming the two pages of a claim frees both and counts one more as used |
| `PageSet.UnclaimUndoesClaim` | os/kernel/mm/pmm.c:45-81 | unclaiming a claimed free interval restores the pages and counts it twice |
| `PageSet.InitReserves` | os/kernel/mm/pmm.c:164-187 | after `pmm_init` a page is taken exactly if it is one of an unavailable region that fits, end page included, or of the kernel and bitmap area |
| `PageSet.ReservedBytesTaken` | os/kernel/mm/pmm.c:164-187 | every page with a reserved byte is taken |
| `PageSet.PageSafety` | os/kernel/mm/pmm.c:83-187 | in every run after `pmm_init` a block is handed out again only after a free, and is never reserved |
| `PageSet.RunAccounting` | os/kernel/mm/pmm.c:83-162 | over a run `used` moves by one page per bit exactly if every block freed was in use |
| `PageSet.ClaimGuard` | os/kernel/mm/pmm.c:46-59 | a claim that passes the size check stays in the bitmap exactly if its end lies below the last whole word; one to the end of memory never does |
| `PageSet.FreeGuard` | os/kernel/mm/pmm.c:154-158 | the assertion admits only blocks with a bit exactly if the pages fill whole words |
| `PageSet.PageWithoutBit` | os/kernel/mm/pmm.c:36-59 | with 33 pages of memory the last passes both guards and has no bit |
| `PageAllocator.SetTaken` | os/kernel/mm/pmm.c:59 | setting the bit adds exactly that page to the set |
| `PageAllocator.ClearTaken` | os/kernel/mm/pmm.c:158 | clearing the bit removes exactly that page |
| `PageAllocator.PhysicalMemory.constructor` | os/kernel/mm/pmm.c:36-42 | the bitmap starts empty with one bit per page in whole words |
| `PageAllocator.PhysicalMemory.ClaimInterval` | os/kernel/mm/pmm.c:45-62 | adds exactly the interval of pages, or nothing past the size |
| `PageAllocator.PhysicalMemory.UnclaimInterval` | os/kernel/mm/pmm.c:65-81 | removes exactly the interval of pages |
| `PageAllocator.PhysicalMemory.AllocBlock` | os/kernel/mm/pmm.c:83-114 | takes the globally lowest free page and counts it; stops exactly if every page is taken |
| `PageAllocator.PhysicalMemory.AllocBlockFromEnd` | os/kernel/mm/pmm.c:117-148 | takes the lowest free page of the highest word that is not full and counts it; stops exactly if every page is taken |
| `PageAllocator.PhysicalMemory.FreeBlock` | os/kernel/mm/pmm.c:151-162 | clears exactly the block's bit; stops exactly if the block is not a page of memory |
| `PageAllocator.PhysicalMemory.ClaimReserved` | os/kernel/mm/pmm.c:164-187 | the loop over the memory map reaches the specified initial memory |
| `PageAllocator.PhysicalMemory.Execute` | os/kernel/mm/pmm.c:83-162 | any allocations and frees on the bitmap hand out and take back exactly the specified blocks |
| `PageAllocator.BootAndAllocate` | os/kernel/mm/pmm.c:83-187 | `pmm_init` and any allocations and frees after it, on the bitmap, never hand out a block twice without a free nor a reserved one |
| `Paging.AddressSpace.Mmap` | os/arch/x86/vmm.c:36-84 | maps and counts exactly the pages from that of the address to that of the 32-bit end; stops on an empty interval |
| `Paging.AddressSpace.Munmap` | os/arch/x86/vmm.c:86-106 | unmaps and counts down exactly the pages from that of the address up to the 32-bit end a page further; stops on an empty interval |
| `Paging.EndlessExact` | os/arch/x86/vmm.c:70-81 | the guard of the mapping loop holds in every round exactly if the end lies in the last page |
| `Paging.MmapAgrees` | os/arch/x86/vmm.c:36-84 | it returns with the pages of the interval mapped exactly if that is not empty and ends below the last page |
| `Paging.MunmapAgrees` | os/arch/x86/vmm.c:86-106 | it returns with them unmapped exactly if the interval is not empty and ends below the last page |
| `Paging.SamePages` | os/arch/x86/vmm.c:70-104 | the two loops visit the same pages whenever the first ends, for all arguments |
| `Paging.UnmapUndoesMap` | os/arch/x86/vmm.c:36-106 | whatever a returning `arch_mmap` mapped over free pages, `arch_munmap` undoes, pages and size, wrap-around included |
| `Paging.AddressSpace.EnlargeMap` | os/kernel/mm/aspace.c:115-139 | rounds up, stops past the limit or, after mapping, at address zero, otherwise maps and moves the end, all in 32-bit arithmetic |
| `Paging.EnlargeAgrees` | os/kernel/mm/aspace.c:115-139 | growing ends as intended exactly if it is refused or the new end lies at or below the last page |
| `Paging.EnlargeWraps` | os/kernel/mm/aspace.c:122-136 | a map grown past 2^32 ends below its start without a page mapped |
| `Paging.EnlargeSpins` | os/kernel/mm/aspace.c:122-136 | a map that ends inside a page, grown to just below 2^32 within the limit, never returns |
| `Paging.AddressSpace.ShrinkMap` | os/kernel/mm/aspace.c:142-161 | stops below the start or on a decrement of one, otherwise unmaps and moves the end, all in 32-bit arithmetic |
| `Paging.ShrinkAgrees` | os/kernel/mm/aspace.c:142-161 | shrinking does what is intended exactly if it is refused, or cuts no more than the end and the end lies at or below the last page |
| `Paging.ShrinkWraps` | os/kernel/mm/aspace.c:149-157 | a map shrunk below address zero ends at the last page without a page unmapped |
| `Paging.AddressSpace.DropPages` | os/kernel/mm/aspace.c:264-265 | unmaps with the undecremented length |
| `Paging.RemoveAgrees` | os/kernel/mm/aspace.c:264-265 | that is the intended removal exactly if the map is empty or ends below the last page |
| `Paging.EnlargeCovers` | os/kernel/mm/aspace.c:115-139 | growing a page-aligned map keeps its pages equal to its interval, and all others |
| `Paging.ShrinkExact` | os/kernel/mm/aspace.c:142-161 | shrinking a page-aligned map keeps its pages equal to its interval exactly if it shrinks by whole pages |
| `Paging.ShrinkLosesPage` | os/kernel/mm/aspace.c:155 | shrinking an 8 KB map by two bytes unmaps its second page |
| `Paging.RunCovers` | os/kernel/mm/aspace.c:115-161 | in any run of growing below 2^32 and shrinking by pages every call returns or stops, and mapped pages and size stay those of the interval |
| `Paging.AddressSpace.Execute` | os/kernel/mm/aspace.c:115-161 | such a run in place reaches the specified state and keeps the map covered |
| `Paging.RemoveExact` | os/kernel/mm/aspace.c:264-265 | removing any map leaves exactly the other pages if and only if it ends below the last page and, where it ends at a page boundary, no page is mapped right after it |
| `Paging.RemovedSize` | os/kernel/mm/aspace.c:264-265 | for a page-aligned map `size` ends a page short, or unchanged at the last page |
| `Paging.RemoveTakesNeighbour` | os/kernel/mm/aspace.c:264-265 | of two adjacent maps, removing the first unmaps the second's page |
| `Paging.RemoveKeepsLast` | os/kernel/mm/aspace.c:264-265 | removing a map that ends at the last page unmaps nothing |
| `MapReferences.RemoveCounted` | os/kernel/mm/aspace.c:250-269 | dropping a listing releases the map exactly if it was its last one anywhere, and then by that address space |
| `MapReferences.DoKeepsCounted` | os/kernel/mm/aspace.c:76-269 | every operation keeps counts equal to listings |
| `MapReferences.ReferenceConservation` | os/kernel/mm/aspace.c:76-269 | in every run a live map's count is its number of listings, and every other map is listed nowhere and was released exactly once |
| `MapReferences.NothingLeaks` | os/kernel/mm/aspace.c:91-110 | once all address spaces are destroyed every map ever made was released once |
| `MapReferences.CloneExact` | os/kernel/mm/aspace.c:76-88 | a clone lists what its source lists in order, each map's count grows by its listings there, and nothing else changes |
| `MapReferences.RemoveAllEnds` | os/kernel/mm/aspace.c:91-99 | freeing ends exactly if no map listed has a zero bound |
| `MapReferences.RemoveAllExact` | os/kernel/mm/aspace.c:91-99 | the address space then lists nothing, each map lost one reference per listing and is dead exactly if none is left, and no other address space changes |
| `MapReferences.DestroyUndoesClone` | os/kernel/mm/aspace.c:76-110 | destroying a clone leaves every map and the release log as they were before the cloning |
| `MapReferences.SpaceTable.CreateSpace` | os/kernel/mm/aspace.c:32-51 | a new live address space that lists nothing comes last |
| `MapReferences.SpaceTable.AddNew` | os/kernel/mm/aspace.c:171-232 | a new map, referenced once, comes last in this address space; nothing else changes |
| `MapReferences.SpaceTable.AddRef` | os/kernel/mm/aspace.c:238-246 | the map comes last in this address space with one reference more; nothing else changes |
| `MapReferences.SpaceTable.CloneOf` | os/kernel/mm/aspace.c:76-88 | the new address space is live and lists exactly the source's maps in order; each map's count grows by its listings there; every other address space, field and the log stay |
| `MapReferences.SpaceTable.RemoveOne` | os/kernel/mm/aspace.c:250-269 | takes out the first listing and one reference; the map dies and is logged exactly with its last; stops exactly on a zero bound |
| `MapReferences.SpaceTable.FreeAll` | os/kernel/mm/aspace.c:91-99 | ends exactly if no map listed has a zero bound; then nothing is listed, every map lost one reference per listing, and no other address space changes |
| `MapReferences.SpaceTable.DestroyIt` | os/kernel/mm/aspace.c:101-110 | the same, and the address space is no longer live |
| `DirectoryCache.LookupAgrees` | os/kernel/fs/vfs.c:358-402 | a lookup never stops the kernel, keeps the cache coherent, and equals the uncached one exactly if the directory has `finddir` or the name is not cached |
| `DirectoryCache.FoundWithoutFinddir` | os/kernel/fs/vfs.c:380-398 | a directory without `finddir` answers a cached name that the uncached lookup refuses |
| `DirectoryCache.MakeAgrees` | os/kernel/fs/vfs.c:321-355 | a creation never stops the kernel and answers as without the cache; it keeps the cache coherent exactly if the new inode is the one then found and none was cached under the name, or it is not the directory's own |
| `DirectoryCache.CreatOverExisting` | os/kernel/fs/tmpfs/tmpfs_creat.c:38-113 | making a name that exists, as tmpfs allows: the cache finds the new inode and the file system the old |
| `DirectoryCache.UnlinkAgrees` | os/kernel/fs/vfs.c:485-517 | an unlink stops the kernel exactly if it succeeds on an uncached name; otherwise it keeps coherence and answers as without the cache |
| `DirectoryCache.UnlinkStops` | os/kernel/fs/vfs.c:505-513 | unlinking a name that was never looked up stops the kernel |
| `DirectoryCache.OneEntryPerName` | os/kernel/fs/dcache.c:44-80 | at most one entry per parent and name |
| `DirectoryCache.HitIsEntry` | os/kernel/fs/dcache.c:63-80 | what is cached under a name is the directory's entry, and never "." or ".." |
| `DirectoryCache.CacheRefinesLookup` | os/kernel/fs/vfs.c:321-517 | every run with the cache gives the answers and files of the run without it |
| `DirectoryCache.LookupExact` | os/kernel/fs/vfs.c:358-402 | a cached inode answers and the cache stays; otherwise the file system answers, and what it finds is appended exactly if it belongs to the directory |
| `DirectoryCache.FoundIsCached` | os/kernel/fs/vfs.c:391-393 | an inode of the directory that a lookup finds is cached under that name |
| `DirectoryCache.UnlinkCached` | os/kernel/fs/vfs.c:485-517 | unlinking a cached name never stops the kernel, and its inode is gone from file system and cache |
| `DirectoryCache.UnlinkAfterLookup` | os/kernel/fs/vfs.c:358-517 | a lookup that finds an inode of its directory, any run that does not unlink the name, and then the unlink: it never stops the kernel |
| `DirectoryCache.UnlinkAfterCreat` | os/kernel/fs/vfs.c:321-517 | the same after a creation that fits |
| `DirectoryCache.RenameCoherent` | os/kernel/fs/vfs.c:422-454 | after a rename the cache is coherent exactly if the old name was not cached or its inode was renamed in place, and the new name was not cached or its inode is still found |
| `DirectoryCache.StaleAfterRename` | os/kernel/fs/vfs.c:450-451 | where the old name was cached and its inode replaced, it still leads to the old inode while the file system finds nothing |
| `DirectoryCache.StaleNewName` | os/kernel/fs/vfs.c:450-451 | where only the new name was cached, it still leads to the inode it had before |
| `DirectoryCache.RenameOntoCached` | os/kernel/fs/vfs.c:450-451 | renaming one file onto another whose name is cached |
| `DirectoryCache.VirtualFiles.Find` | os/kernel/fs/dcache.c:63-80 | the search loop finds the first entry with that parent and name |
| `DirectoryCache.VirtualFiles.FindIn` | os/kernel/fs/vfs.c:358-402 | "." answers the directory and ".." its parent; a cached inode answers and the cache stays; otherwise the file system answers and what it finds is appended to the cache exactly if its parent is the directory |
| `DirectoryCache.VirtualFiles.CreateIn` | os/kernel/fs/vfs.c:321-355 | answers the inode made, which is appended to the cache exactly if its parent is the directory, or NULL with nothing changed; the cache stays coherent exactly if the creation fits |
| `DirectoryCache.VirtualFiles.UnlinkIn` | os/kernel/fs/vfs.c:485-517 | stops exactly if the file system unlinks a name that is not cached; otherwise exactly the name, its inode and its cache entry go, or nothing |
| `InodeCache.GetKeepsMemo` | os/kernel/fs/cache.c:35-66 | a get overflows exactly on a miss at capacity; otherwise the inode is then found with the data returned |
| `InodeCache.SameData` | os/kernel/fs/cache.c:35-75 | two gets of one inode in a run return the same data |
| `InodeCache.FirstReadLoads` | os/kernel/fs/cache.c:35-75 | the first get of an inode in a run answers what is loaded then |
| `InodeCache.MemoTable` | os/kernel/fs/cache.c:35-137 | from creation to destruction: count is the number of items within the capacity, one load per inode, every get of an inode answers what was loaded at the first, and each inode with data is flushed exactly once at the end |
| `InodeCache.VfsCache.GetInode` | os/kernel/fs/cache.c:35-75 | an item with the inode answers and nothing changes; otherwise it overflows exactly at capacity, or answers what is loaded and appends exactly that item to table and log |
| `InodeCache.VfsCache.FlushInode` | os/kernel/fs/cache.c:78-93 | flushes the first item of that inode, if any, and changes nothing else |
| `InodeCache.VfsCache.DestroyCache` | os/kernel/fs/cache.c:117-137 | the loop flushes each item with data once and no other, then empties the table |
| `Spinlock.TakesClearLock` | os/kernel/ipc/spinlock.c:37-57 | test-and-set and trylock make the thread the holder exactly if the word is clear, and set it; unlock clears it; no other thread moves |
| `Spinlock.HandOver` | os/kernel/ipc/spinlock.c:37-57 | in every reachable state, once the holder lets go the next spinning thread to try is the only holder |
| `Spinlock.NextExclusive` | os/kernel/ipc/spinlock.c:37-57 | each atomic step keeps: the word is set exactly when one thread holds the lock |
| `Spinlock.MutualExclusion` | os/kernel/ipc/spinlock.c:31-57 | in every interleaving of any number of threads two never hold the lock, and the word says whether one does |
| `Spinlock.UnlockBy` | os/kernel/ipc/spinlock.c:53-57 | an unlock keeps this exactly if the thread holds the lock or nobody does |
| `Semaphore.ValueBalance` | os/kernel/ipc/semaphore.c:32-76 | in every interleaving the value is the initial one plus the run's posts minus its decrements |
| `Semaphore.PostWakesWaiter` | os/kernel/ipc/semaphore.c:32-76 | after any steps of other threads a waiting thread gets through exactly if the value, counted by posts and decrements, is not zero, and takes one unit |
| `Semaphore.NextBacked` | os/kernel/ipc/semaphore.c:46-59 | a step keeps a unit for every thread about to decrement exactly unless it is a load that finds only claimed units |
| `Semaphore.NonNegative` | os/kernel/ipc/semaphore.c:39-76 | with at most one thread between load and decrement the value is never negative |
| `Semaphore.TwoWaiters` | os/kernel/ipc/semaphore.c:46-59 | two threads that load the same 1 drive the value to -1 |
| `Semaphore.Drain` | os/kernel/ipc/semaphore.c:59 | letting the pending threads finish leaves a value that is non-negative exactly if every one of them was backed |

## Where the code and its apparent intent differ

The model follows the code in each of these.

* The `find` macro names its loop variable `m`, which hides the module being run. The loader in
  place and `module_init` use the macro as written; the loader theorems are about any dependency
  graph, and `SingleDependencyNeverLoads` compares the two graphs.
* The quantum test reads the 32-bit microsecond counter as a signed `int`.
* `pmm_claim` and `pmm_unclaim` count one page too few, and unclaiming adds to `used`.
* The bitmap covers whole words of pages only, while the guards compare with the size of memory.
* `aspace_shrink_map` does not round, and `aspace_remove_map` passes an undecremented length.
* Addresses are added in 32 bits by the section layout, `arch_mmap`, `arch_munmap` and the growing
  and shrinking of maps, without a test for wrap-around.
* `vfs_unlink` asserts that the name was cached, and `vfs_rename` does not tell the cache.
* `sem_wait` tests and decrements in two steps.

## Assumptions

* The target is i386: words and addresses have 32 bits, and memory is below 4 GiB. CPU ids are
  below 32, the width of the affinity mask.
* `list` macros are sequences: pushing appends, removing takes the first occurrence, and iteration
  is over the list as it was when the loop began.
* `core_get_address`, the boot files, `kmalloc` addresses and the answers of file-system callbacks
  are parameters. Freshly allocated images hold arbitrary bytes.
* The two reads of the clock in `__timing` agree; interrupts are off there.
* A directory-cache run is over a file system whose inodes have at most one directory entry each and
  are listed under their own name, which does not unlink a directory that has entries. A name may be
  made again: then a lookup finds the new inode or, as in tmpfs, still the old one.
* `clock_t`, the type of the times charged, is 32 bits wide; `time_t`, the seconds of the tick
  counter, is wide enough not to wrap. Neither is declared in the source tree.

## Left out

- ELF parsing: headers, magic numbers and string tables are not modelled; a boot file is its sections, symbols and relocations, with one symbol table, and the SHT_REL entries precede the SHT_RELA ones as the two passes do.
- The assertions at module.c:455-456 test the section numbered by the outer loop; where that is beyond the section table, what they read is not modelled.
- The array of dependencies is a sequence of the names found; its size in the source is the number of commas. `strtok` writing into the list is not modelled either.
- x86-64 relocations are left out, and so are `module_dnit` and the log output of every component.
- QueueModules: requires that the placed sections end below 2^32; LayoutExact says what happens otherwise.
- LoadModules: requires the same of every file.
- NeverOnTwoCpus: is about CPU ids below 32, since a shift by 32 or more is undefined in C and the mask has no further bits.
- Execute: newcomers are task nodes made with their affinity mask, whose other fields are filled in when they are spawned.
- Remove: requires a queue that is not empty, because the source reads through its head.
- Search: requires that some queued task is eligible, since the loop does not end otherwise; RoundRobinChoice says so.
- SwitchTask: requires that the search ends, as it does in every safe state.
- ScheduleCpu: requires the same, where it gets to a switch.
- YieldCpu: requires the same.
- TimerTick: requires the same, where it gets to a switch.
- ClaimInterval: requires the claimed pages to have bits; ClaimGuard says when the size check ensures it.
- UnclaimInterval: requires the same.
- FreeBlock: requires that the block has a bit; FreeGuard says when the assertion ensures it.
- BootAndAllocate: requires of the memory map what ClaimReserved does.
- Mmap: requires that the end does not lie in the last page of the 32-bit space, since the loop does not end otherwise; EndlessExact says so.
- EnlargeMap: requires the same, where it gets that far; EnlargeAgrees says when it does.
- The counter `used` is an integer that does not wrap, and its update outside the lock is not interleaved.
- Address spaces in `MapReferences` list maps by number; what a map covers is the subject of `Paging`. TLS and SWAP maps, which are not mapped when added, are only counted.
- CacheRefinesLookup: is over directories with entries or with `creat` that have `finddir`, and runs that do not stop the kernel and whose creations keep the cache coherent; LookupAgrees, UnlinkAgrees and MakeAgrees have no such limit. An inode hidden behind an older one of its name does not come to light when that is unlinked.
- UnlinkAfterLookup: is over runs that do not stop the kernel and whose creations keep the cache coherent, as MakeAgrees says.
- UnlinkAfterCreat: the same.
- ClaimReserved: requires that the regions it claims have bits, as ClaimGuard says.
- User pointer checks, chroot and errno values are left out of the file-system calls, and so are mounting, reading and writing.
- ValueBalance: the semaphore's value is an integer that does not wrap; memory ordering is sequentially consistent.
- Page-table walking, context switching, timers other than the tick, signals, networking, drivers, system calls and the slab allocator are not modelled.
