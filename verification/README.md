# Verified models of the repository's systems programs

This project models the programs of the repository that carry real invariants, and proves them: the `scull` character
drivers, a thread pool, a tick scheduler, the heap and the printing functions of a small C runtime, a sloppy counter, two
four-square searches, two calculators, an infix-to-postfix translator, and the code generator of a small compiler.

`dafny verify dfyconfig.toml` checks everything.

## How it is organised

| files | what they model |
|---|---|
| `PipeRing`, `PipeProtocol` | the circular buffer of the scull pipe as a FIFO, and every interleaving of its readers and writers |
| `ScullLayout`, `ScullStorage`, `ScullDevice`, `ScullMemory` | the list of quanta behind a bare scull device as a sparse byte map, over any mix of calls; how much memory a write needs |
| `ScullAccess` | single-open, uid-owned and blocking uid-owned devices |
| `ThreadPool`, `WorkQueue` | the pool as interleaved steps of workers, submitters and the destroyer; its linked queue |
| `Scheduler` | the clock interrupt and the priority scheduler |
| `Heap`, `HeapLinks`, `HeapRuns` | malloc and free on headers that do not overlap, and runs in which the last block granted is freed first |
| `HeapBytes`, `HeapCalls`, `HeapAnyOrder`, `HeapExamples`, `MiniHeap` | the same on the bytes of the arena: loads, stores, payloads, runs in any order |
| `SloppyCounter` | local counters flushed into a global one under two levels of lock |
| `FourSquares` | the plain and the pruned search |
| `NumberText`, `Printf` | itoa and vfprintf |
| `Arithmetic`, `Calculator`, `TailCalculator`, `CalculatorLaws` | the expression grammar, the two recursive-descent calculators, and laws of the values they compute |
| `Postfix` | the translator and a stack machine for its output |
| `JumpMachine`, `ShortCircuit`, `Statements`, `CodeGeneration`, `StatementLaws`, `FrontEnd` | the code generator, a machine that runs its output, the proof that both agree, and laws of what statements mean |

Code that works in place is a class or an in-place method here (`Pipe`, `Device`, `Queue`, `Kernel`, `MiniHeap`, `Itoa`,
`Vfprintf`, the two calculators, `Parser`, `Emitter`); its contract equates the new state with a specification function
of the old one, and the lemmas are about those functions. Code whose point is interleaving (`PipeProtocol`,
`ScullAccess`, `ThreadPool`, `SloppyCounter`) is a step relation for any number of processes; a run is any sequence of
such steps, and the results hold in every state of every run.

Where a promise turns out not to hold of the code, the code is modelled as it is, with the exact condition:

- Back links of the heap: a split keeps them exactly when the block is last or taken whole (`GrantKeepsBackLinksIff`),
  a free exactly when it does not swallow a block that has a successor (`ReleaseKeepsBackLinksIff`). So a back link may
  lead to a header that a merge has swallowed. Call it clear if free does not follow it, or it leads to a header of the
  chain or to a place apart from all of them; call the free safe if moreover a link into the chain leads to the
  predecessor. Then, on the bytes of the arena, free of a block with a clear link keeps the arena tiled exactly when it is
  safe (`FreeKeepsTilingIff`), and `FreeCoalescesIff` says when it coalesces. In a run in any order, with the program
  storing what it likes into its blocks, nothing is lost before the first unsafe free (`AnyOrderRunTiled`,
  `FirstUnsafeFreeBreaksTiling`), and eight ordinary calls reach one (`UnsafeFreeIsReached`). When all requests are
  multiples of 16 every link is clear and the condition is exact for every run (`AlignedRunTiledIff`). Otherwise a link may
  lead into the middle of a header, and free then stores over it (`OverlappedLinkBreaksTiling`).
- A request near 2^32 is granted a block that is too small exactly when size + 32 wraps around, whatever the block
  (`WrapMakesRoomUp`); the walk of malloc then picks the first free block of the arena (`WrappedRequestTakesFirstFree`).
- The scheduler's shares are exact precisely when the first ready process has a positive priority (`ExactShareIff`).
- vfprintf writes the whole expansion and returns its length exactly when the format's own characters are ASCII, because
  fputc hands back a signed char (`Vfprintf`); the whole expansion is at least written exactly when nothing behind the
  first other character would have produced output (`WritesExpansionIff`).
- In the calculator with tail productions a parenthesis is never accepted (`NoParentheses`).
- `continue` in a do loop restarts the body without testing the condition. The code generator is proved against that
  meaning for all programs; it coincides with the usual one if no `continue` belongs to a do loop (`RetestAgrees`), and
  otherwise it need not (`ContinueInDoLoops`).

## Model

| member | source | states |
|---|---|---|
| PipeRing.SpaceFreeComplementsContents | linux_device_drivers/code/scull/pipe.c:186-191 | free space plus stored bytes is the buffer size minus one; equal pointers mean empty, never full |
| PipeRing.ReadTakesOldest | linux_device_drivers/code/scull/pipe.c:143-153 | a read returns the oldest bytes in order, leaves the rest, and a nonzero request moves at least one byte despite the wrap |
| PipeRing.ReadStopsOnlyAtEnd | linux_device_drivers/code/scull/pipe.c:143-153 | a read returns less than was asked for and stored only if it reached the end of the buffer, and the read pointer is then back at the start |
| PipeRing.TwoReadsReturnAll | linux_device_drivers/code/scull/pipe.c:143-153 | one read, or two in a row, return exactly the oldest min(count, stored) bytes |
| PipeRing.WriteAppends | linux_device_drivers/code/scull/pipe.c:208-220 | a write appends a prefix of its data to the contents, nonempty if the data is |
| PipeRing.WriteStopsOnlyAtEnd | linux_device_drivers/code/scull/pipe.c:208-220 | a write accepts less than was offered and fits only if it reached the end of the buffer |
| PipeRing.TwoWritesAcceptAll | linux_device_drivers/code/scull/pipe.c:208-220 | one write, or two in a row, append exactly the first min(offered, free) bytes |
| PipeRing.ApplyKeepsBalance | linux_device_drivers/code/scull/pipe.c:123-231 | any call keeps: bytes accepted are bytes returned followed by bytes stored |
| PipeRing.RunIsFifo | linux_device_drivers/code/scull/pipe.c:123-231 | over every sequence of calls since an open the ring is a FIFO of the accepted bytes with the pointers in range |
| PipeRing.Pipe.constructor | linux_device_drivers/code/scull/pipe.c:75-85 | an opened pipe is empty |
| PipeRing.Pipe.SpaceFree | linux_device_drivers/code/scull/pipe.c:186-191 | the modular formula computes the ring's free space |
| PipeRing.Pipe.Room | linux_device_drivers/code/scull/pipe.c:208-212 | how much of a request fits without passing the reader or the end of the buffer |
| PipeRing.Pipe.Read | linux_device_drivers/code/scull/pipe.c:143-159 | blocks exactly when nothing is stored; otherwise old contents are the bytes returned, as many as asked for and stored up to the end of the buffer, followed by the new contents |
| PipeRing.Pipe.Write | linux_device_drivers/code/scull/pipe.c:208-230 | blocks exactly when full; otherwise the contents grow by the accepted prefix, as much as fits up to the end of the buffer, and nothing else changes |
| PipeProtocol.StepKeepsInv | linux_device_drivers/code/scull/pipe.c:123-231 | every step of any process keeps mutual exclusion, FIFO balance, progress and both wakeup debts |
| PipeProtocol.RunKeepsInv | linux_device_drivers/code/scull/pipe.c:123-231 | that invariant holds in every state of every interleaving |
| PipeProtocol.NoLostWakeup | linux_device_drivers/code/scull/pipe.c:131-183 | a reader asleep over a nonempty pipe is owed a wake_up by a writer that advanced wp; a writer asleep with space is owed one by a reader |
| PipeProtocol.InterleavedFifo | linux_device_drivers/code/scull/pipe.c:143-221 | in every interleaving bytes leave in the order they were accepted, and a nonzero request past its wait loop has moved a byte |
| PipeProtocol.NoMutualBlocking | linux_device_drivers/code/scull/pipe.c:157-175 | with no wake_up outstanding a reader and a writer are never both asleep |
| PipeProtocol.StuckMeansAsleep | linux_device_drivers/code/scull/pipe.c:123-231 | if nobody inside a call can go on without a signal, the mutex is free and everybody inside is asleep, all on one side of an empty or a full pipe |
| PipeProtocol.CallsEndForAReason | linux_device_drivers/code/scull/pipe.c:131-183 | in every run a call returns without having moved bytes only by a signal, or as nonblocking from an empty or full pipe; a blocking call never gives up there, and a nonblocking one never waits |
| PipeProtocol.ReadCallRuns | linux_device_drivers/code/scull/pipe.c:123-162 | undisturbed, a read returns the oldest bytes up to the wrap; on an empty pipe it is refused if nonblocking and ends up asleep if not |
| PipeProtocol.WriteCallRuns | linux_device_drivers/code/scull/pipe.c:195-231 | undisturbed, a write appends what fits up to the wrap; on a full pipe it is refused if nonblocking and ends up asleep if not |
| PipeProtocol.WokenGoesBack | linux_device_drivers/code/scull/pipe.c:137-183 | a woken sleeper goes back to the mutex to look again |
| ScullLayout.PlaceUnique | linux_device_drivers/code/scull/main.c:313-315 | item, slot and position are determined by the offset and determine it |
| ScullStorage.WriteRefines | linux_device_drivers/code/scull/main.c:339-390 | a write logs exactly the accepted prefix at f_pos (up to the end of the quantum) or, out of memory, nothing; size is the largest end |
| ScullMemory.WriteFailsIff | linux_device_drivers/code/scull/main.c:265-390 | a write fails if and only if fewer blocks can be had than list nodes, pointer array and quantum are missing at its position; it allocates precisely what is missing, or what there is |
| ScullMemory.AppendNeedsThree | linux_device_drivers/code/scull/main.c:265-371 | writing on at the end of the file never misses more than a list node, a pointer array and a quantum |
| ScullMemory.EnoughMemoryFills | linux_device_drivers/code/scull/main.c:339-390 | with three blocks to be had for each write, as many nonempty sequential writes as there are bytes store the whole file |
| ScullStorage.WriteChangesOnlyItsRange | linux_device_drivers/code/scull/main.c:372-381 | offsets in [f_pos, f_pos+ret) get the written bytes, every other stored byte stays |
| ScullStorage.ReadReturnsWritten | linux_device_drivers/code/scull/main.c:295-337 | a read allocates nothing and returns the last byte written at each written offset, as far as request, size and quantum allow |
| ScullMemory.ReadReturnsStored | linux_device_drivers/code/scull/main.c:295-337 | exactly how much a read returns: request, size and quantum are the only limits inside stored data, and nothing comes from beyond the end or a missing quantum |
| ScullStorage.TrimRefines | linux_device_drivers/code/scull/main.c:63-84 | a trimmed device is the empty map in the new geometry and owns no block |
| ScullDevice.Device.constructor | linux_device_drivers/code/scull/main.c:647-652 | a new device refines the empty map in the geometry of the module parameters |
| ScullDevice.Device.Trim | linux_device_drivers/code/scull/main.c:63-84 | each allocated block is freed while allocated, so exactly once, and none is left; the module-wide geometry is taken over |
| ScullDevice.Device.FreeAll | linux_device_drivers/code/scull/main.c:69-78 | the walk over the linked list frees every block and leaves none |
| ScullDevice.Device.FreeNode | linux_device_drivers/code/scull/main.c:70-77 | frees what one node refers to and steps to the next |
| ScullDevice.Device.FreeItem | linux_device_drivers/code/scull/main.c:70-77 | frees precisely the quanta, the pointer array and the item |
| ScullDevice.Device.FreeQuanta | linux_device_drivers/code/scull/main.c:71-72 | frees precisely the quanta of one pointer array |
| ScullDevice.Device.Follow | linux_device_drivers/code/scull/main.c:265-289 | returns the n-th node of the linked list, extended up to it, or null where memory ends |
| ScullDevice.Device.FollowFrom | linux_device_drivers/code/scull/main.c:278-288 | the pointer walk of its loop |
| ScullDevice.Device.Advance | linux_device_drivers/code/scull/main.c:279-285 | one step along the list, with an allocation at its end |
| ScullDevice.Device.AppendFirst | linux_device_drivers/code/scull/main.c:270-275 | an empty list gets its first node |
| ScullDevice.Device.AppendAfter | linux_device_drivers/code/scull/main.c:280-284 | the last node gets a successor, the others stay |
| ScullDevice.Device.EnsureSlots | linux_device_drivers/code/scull/main.c:361-366 | allocates a cleared pointer array of qset entries if there is none |
| ScullDevice.Device.EnsureQuantum | linux_device_drivers/code/scull/main.c:367-371 | allocates an uncleared quantum if there is none |
| ScullDevice.Device.PrepareQuantum | linux_device_drivers/code/scull/main.c:358-371 | the three lookups with their allocations, and which of them failed |
| ScullDevice.Device.StoreBytes | linux_device_drivers/code/scull/main.c:376-385 | copies into the quantum and raises the size |
| ScullDevice.Device.Write | linux_device_drivers/code/scull/main.c:339-390 | the in-place write is the write function that WriteRefines is about |
| ScullDevice.Device.Read | linux_device_drivers/code/scull/main.c:295-337 | the in-place read is the read function that ReadReturnsWritten is about |
| ScullDevice.CallKeepsRefines | linux_device_drivers/code/scull/main.c:241-549 | every open, write, read, seek and geometry ioctl keeps the device a refinement of the write log |
| ScullDevice.RunRefines | linux_device_drivers/code/scull/main.c:265-549 | over every sequence of calls: written bytes held, size the largest end, pointer arrays and quanta of the device's own geometry, each block owned once |
| ScullDevice.GeometryChangesOnlyAtTrim | linux_device_drivers/code/scull/main.c:421-496 | an ioctl reaches the layout only when a trim empties the device |
| ScullDevice.FileRoundTrip | linux_device_drivers/code/scull/main.c:295-390 | whatever part of a file sequential short or failing writes have stored is read back exactly by any sequential short reads |
| ScullMemory.WholeFileRoundTrip | linux_device_drivers/code/scull/main.c:295-390 | with enough memory and enough nonempty calls every file is stored completely and read back completely |
| ScullMemory.CallsRoundTrip | linux_device_drivers/code/scull/main.c:241-549 | the same through the calls themselves: opened for writing only, written, sought back and read, each call moving its own position by what it returned |
| ScullMemory.SeekLands | linux_device_drivers/code/scull/main.c:525-549 | where llseek lands: absolute, from the position, from the largest end of a write; refused below zero; no other position moves |
| ScullMemory.IoctlSetsNextGeometry | linux_device_drivers/code/scull/main.c:421-496 | each geometry ioctl sets its own variable, which the next opening for writing only lays out and nothing before it |
| ScullAccess.SingleConservation | linux_device_drivers/code/scull/access.c:53-75 | available + holders + openers that still have to undo their decrement is one in every interleaving |
| ScullAccess.SingleExclusion | linux_device_drivers/code/scull/access.c:55-75 | never more than one holder; an open succeeds exactly if there is neither a holder nor such an opener |
| ScullAccess.SingleCallsRun | linux_device_drivers/code/scull/access.c:53-75 | an open of a free device takes it in one step, one of a held device takes its decrement back, a release frees it |
| ScullAccess.UserOpenAgrees | linux_device_drivers/code/scull/access.c:103-136 | the refusing uid device lets in whom the blocking one lets in, with the same effect |
| ScullAccess.StepKeepsSleepersOwed | linux_device_drivers/code/scull/access.c:174-210 | a sleeper who could enter is owed a wakeup by a releaser that reached zero |
| ScullAccess.RunKeepsInv | linux_device_drivers/code/scull/access.c:165-210 | in every run the count is the number of holders, holders are entitled, available sleepers are owed a wakeup |
| ScullAccess.OwnerChangesOnlyWhenFree | linux_device_drivers/code/scull/access.c:186-188 | the owner changes only while nobody holds the device |
| ScullAccess.HoldersShareTheOwner | linux_device_drivers/code/scull/access.c:165-189 | two holders without the capability share a uid or euid |
| ScullAccess.StuckMeansAsleep | linux_device_drivers/code/scull/access.c:174-210 | if nobody inside a call can go on without a signal, everybody inside is asleep in the open, the device is held and no sleeper may have it |
| ScullAccess.OpenSucceedsIff | linux_device_drivers/code/scull/access.c:174-190 | in every run: an open takes the device if and only if nobody else has it, uid or euid own it or the capability is there; otherwise it waits if blocking and is refused if not; a blocking open gives up only from its wait, by a signal |
| ScullAccess.OnlyBlockingOpensWait | linux_device_drivers/code/scull/access.c:179-185 | in every run no nonblocking open is in the wait loop |
| ScullAccess.OpenRuns | linux_device_drivers/code/scull/access.c:174-190 | undisturbed, an open gets a device it may have, with the right owner; otherwise it is refused without effect, or ends up asleep |
| ScullAccess.WokenSleeperOpens | linux_device_drivers/code/scull/access.c:179-190 | a woken sleeper that may have the device gets it |
| ScullAccess.ReleaseRuns | linux_device_drivers/code/scull/access.c:194-210 | a release gives back one opening; the last one wakes every sleeper, no other wakes any |
| ThreadPool.RunKeepsInv | high_perf_linux_server_prog/code/thread_pool/tpool.cpp:9-149 | the accounting, order, signalling and shutdown invariant holds in every interleaving with spurious wakeups |
| ThreadPool.EveryTaskInOnePlace | high_perf_linux_server_prog/code/thread_pool/tpool.cpp:13-34 | each submitted task is in exactly one of queue, one worker's hand, executed, discarded |
| ThreadPool.TakenInSubmissionOrder | high_perf_linux_server_prog/code/thread_pool/tpool.cpp:27-28 | no task leaves the queue before an older one |
| ThreadPool.NoStuckQueue | high_perf_linux_server_prog/code/thread_pool/tpool.cpp:130-146 | with the lock free, a nonempty queue always has a worker that does not wait for a signal |
| ThreadPool.SleepersMeanEnoughHeaded | high_perf_linux_server_prog/code/thread_pool/tpool.cpp:13-34 | before shutdown and with no signal outstanding, a sleeping worker means that as many workers head for the queue as it has items |
| ThreadPool.NoEmptyDequeue | high_perf_linux_server_prog/code/thread_pool/tpool.cpp:16-28 | the head is never null where it is dereferenced |
| ThreadPool.StuckMeansIdle | high_perf_linux_server_prog/code/thread_pool/tpool.cpp:13-146 | before shutdown, if no worker and no submitter inside a call has a step of its own, the mutex is free, every worker waits unsignalled, no call is in progress and, if there are workers, the queue is empty |
| ThreadPool.HeadCanBeRun | high_perf_linux_server_prog/code/thread_pool/tpool.cpp:13-34 | from every reachable state before shutdown with a worker there is a run in which the head of the queue is executed |
| ThreadPool.SubmissionRuns | high_perf_linux_server_prog/code/thread_pool/tpool.cpp:111-149 | with the mutex free, a submission appends one item behind all others, signals and gives the mutex back |
| ThreadPool.ShutdownReachesEveryone | high_perf_linux_server_prog/code/thread_pool/tpool.cpp:15-25 | after the broadcast no worker waits unsignalled or is about to |
| ThreadPool.WorkersOnlyLeave | high_perf_linux_server_prog/code/thread_pool/tpool.cpp:15-34 | after the broadcast each step of a worker brings it nearer to its exit |
| ThreadPool.JoinsCanBeSatisfied | high_perf_linux_server_prog/code/thread_pool/tpool.cpp:93-108 | from every reachable state with joins pending there is a run to the end of destroy_tpool |
| ThreadPool.DestructionCanBeCompleted | high_perf_linux_server_prog/code/thread_pool/tpool.cpp:83-108 | from every reachable state with no submission in progress destroy_tpool can be called and run to its end |
| ThreadPool.WorkersAreDoneSoon | high_perf_linux_server_prog/code/thread_pool/tpool.cpp:13-34 | however the threads are interleaved, after the broadcast the workers together make at most a fixed number of steps |
| ThreadPool.EverythingIsFreedOnce | high_perf_linux_server_prog/code/thread_pool/tpool.cpp:99-104 | at the end every task was executed or discarded, not both, each discarded node once |
| WorkQueue.Queue.Append | high_perf_linux_server_prog/code/thread_pool/tpool.cpp:131-143 | walking to the last node appends one work item and keeps the others |
| WorkQueue.Queue.Take | high_perf_linux_server_prog/code/thread_pool/tpool.cpp:27-28 | takes the oldest item and leaves the rest of the list |
| WorkQueue.InOrder | high_perf_linux_server_prog/code/thread_pool/tpool.cpp:99-143 | any works appended come out in the same order |
| Scheduler.FirstMaxIsChosen | oranges/README.md:1382-1387 | the scan's choice is the first process with the most ticks, and is the only one |
| Scheduler.SwitchesToFirstGreatest | oranges/README.md:1376-1395 | when a quota is spent the process switched to has the most ticks of all, more than any before it in the table |
| Scheduler.Kernel.constructor | oranges/code/scheduler/kernel/main.c:64-71 | every process starts with its full quota, the first one ready |
| Scheduler.Kernel.Scan | oranges/README.md:1382-1387 | finds the first process with the most ticks, or that none has any left |
| Scheduler.Kernel.Refill | oranges/README.md:1390-1392 | every process gets its whole quota again |
| Scheduler.Kernel.Schedule | oranges/README.md:1376-1395 | terminates within two rounds, the second exactly if a refill was needed, and refills all quotas at once |
| Scheduler.Kernel.ClockHandler | oranges/code/scheduler/kernel/clock.c:20-35 | charges the ready process and reschedules only when its quota is spent |
| Scheduler.RunKeepsInv | oranges/code/scheduler/kernel/clock.c:20-35 | after any number of interrupts only the ready process is inside its quota and everybody's share is exact |
| Scheduler.ExactShare | oranges/code/scheduler/kernel/clock.c:20-35 | ran = epochs * priority + (priority - ticks) for every process, after any number of interrupts |
| Scheduler.ProportionalAtEpochs | oranges/README.md:1389-1393 | whenever quotas are full, run times are in the ratio of the priorities |
| Scheduler.RefillOnlyWhenAllSpent | oranges/README.md:1389-1393 | a refill happens if and only if the last remaining tick of all is spent |
| Scheduler.RunsContiguously | oranges/code/scheduler/kernel/clock.c:29-31 | the ready process keeps the processor until its ticks are spent |
| Scheduler.ChosenRunsWholeQuota | oranges/code/scheduler/kernel/clock.c:20-35 | a process that is switched to runs exactly its whole quota without interruption |
| Scheduler.TotalTime | oranges/code/scheduler/kernel/clock.c:22-23 | every interrupt is charged to exactly one process |
| Scheduler.ExactShareIff | oranges/code/scheduler/kernel/clock.c:20-35 | the law holds in the whole run if and only if the first ready process has positive priority |
| Heap.DecideIsExact | 程序员的自我修养/code/miniCRT/malloc.c:53-59 | the 32-bit comparisons mean what they say while size + 32 does not wrap |
| Heap.WrapMakesRoomUp | 程序员的自我修养/code/miniCRT/malloc.c:53-59 | a block that is too small is granted if and only if the sum wraps, whatever the block |
| Heap.WrappedRequestTakesFirstFree | 程序员的自我修养/code/miniCRT/malloc.c:45-73 | over a whole arena: a wrapping request picks the first free block, which is too small; no other request picks such a block |
| Heap.FirstFit | 程序员的自我修养/code/miniCRT/malloc.c:45-73 | the first free block that fits, all free ones before it being too small |
| Heap.GrantKeepsTiling | 程序员的自我修养/code/miniCRT/malloc.c:53-71 | a grant keeps the arena tiled with the same end, gives out a free block with enough payload, leaves other blocks intact |
| Heap.GrantKeepsCoalesced | 程序员的自我修养/code/miniCRT/malloc.c:53-71 | a grant creates no neighbouring free blocks |
| Heap.GrantKeepsBackLinksIff | 程序员的自我修养/code/miniCRT/malloc.c:61-69 | back links survive if and only if nothing is split or the block is the last |
| Heap.ReleaseKeepsTiling | 程序员的自我修养/code/miniCRT/malloc.c:19-39 | free keeps the arena tiled with the same end and the other used blocks intact |
| Heap.ReleaseCoalesces | 程序员的自我修养/code/miniCRT/malloc.c:25-38 | with a true back link free leaves no neighbouring free blocks |
| Heap.ReleaseKeepsBackLinksIff | 程序员的自我修养/code/miniCRT/malloc.c:34-38 | back links survive if and only if no swallowed block has a successor |
| HeapRuns.ReleaseUndoesGrant | 程序员的自我修养/code/miniCRT/malloc.c:19-76 | freeing what was just granted restores the exact chain and headers |
| HeapRuns.FreeRestores | 程序员的自我修养/code/miniCRT/malloc.c:19-39 | in a last-in first-out run every free restores the chain before its malloc |
| HeapRuns.FreeIsPossible | 程序员的自我修养/code/miniCRT/malloc.c:19-39 | and can always happen |
| HeapRuns.LifoRunRestores | 程序员的自我修养/code/miniCRT/malloc.c:19-76 | over every such run the heap stays tiled and coalesced, and freeing everything gives back the first chain |
| HeapRuns.LifoRunKeepsBackLinks | 程序员的自我修养/code/miniCRT/malloc.c:91-112 | from the initial block every such run keeps all back links true, and freeing everything gives back that block |
| HeapRuns.InitialHeapIsGood | 程序员的自我修养/code/miniCRT/malloc.c:91-112 | the initial block tiles the arena |
| HeapLinks.StaleLinkMisfits | 程序员的自我修养/code/miniCRT/malloc.c:25-32 | a back link to a free block further back makes that block overlap what lies between |
| HeapLinks.SelfLinkMisfits | 程序员的自我修养/code/miniCRT/malloc.c:25-32 | one to the freed block itself doubles its size |
| HeapLinks.ForwardLinkMisfits | 程序员的自我修养/code/miniCRT/malloc.c:25-38 | one to a later free block makes that block point backwards |
| HeapBytes.LoadStored | 程序员的自我修养/code/miniCRT/malloc.c:24-37 | a 32-bit value stored byte by byte is loaded back |
| HeapBytes.MallocRefines | 程序员的自我修养/code/miniCRT/malloc.c:53-71 | the stores of malloc, in order, put into memory the headers of the grant, and change no byte outside headers |
| HeapBytes.FreeRefines | 程序员的自我修养/code/miniCRT/malloc.c:19-39 | so do the loads and stores of free, while its links lead to headers that do not overlap |
| HeapCalls.MallocKeepsTiling | 程序员的自我修养/code/miniCRT/malloc.c:41-76 | the headers found in memory after malloc are those of the grant and tile the arena |
| HeapCalls.MallocKeepsPayload | 程序员的自我修养/code/miniCRT/malloc.c:53-71 | malloc changes no payload byte of a block in use |
| HeapCalls.SafeFreeKeepsTiling | 程序员的自我修养/code/miniCRT/malloc.c:19-39 | after a safe free the headers found in memory tile the arena, and the other used blocks are among them unchanged |
| HeapCalls.FreeKeepsTilingIff | 程序员的自我修养/code/miniCRT/malloc.c:19-39 | if the back link is clear, free leaves a chain that tiles the arena if and only if it is safe |
| HeapCalls.FreeCoalescesIff | 程序员的自我修养/code/miniCRT/malloc.c:25-38 | a safe free leaves no neighbouring free blocks if and only if its link names the predecessor when that is free, and is not followed out of the chain when the successor is free |
| HeapCalls.FreeKeepsPayload | 程序员的自我修养/code/miniCRT/malloc.c:19-39 | free changes no payload byte of a block in use, unless it follows its link into that payload |
| HeapAnyOrder.AnyOrderRunTiled | 程序员的自我修养/code/miniCRT/malloc.c:19-76 | over every run of malloc, free and stores of the program into its blocks, the arena is tiled as long as every free was safe |
| HeapAnyOrder.FirstUnsafeFreeBreaksTiling | 程序员的自我修养/code/miniCRT/malloc.c:19-76 | and while every free was, a clear call leaves a tiling if and only if it is safe |
| HeapAnyOrder.AlignedIsClear | 程序员的自我修养/code/miniCRT/malloc.c:25-32 | when headers are multiples of 16 apart every back link is clear |
| HeapAnyOrder.AlignedRunTiledIff | 程序员的自我修养/code/miniCRT/malloc.c:19-76 | when all requests are multiples of 16, the first unsafe free is exactly the first call after which nothing tiles the arena, in every run |
| HeapExamples.UnsafeFreeIsReached | 程序员的自我修养/code/miniCRT/malloc.c:19-112 | eight aligned calls from the initial bytes, every free of a block in use, after which nothing tiles the arena |
| HeapExamples.OverlappedLinkBreaksTiling | 程序员的自我修养/code/miniCRT/malloc.c:19-112 | seven calls that are not aligned and end with a back link into the middle of a header, after which nothing tiles the arena either |
| MiniHeap.MiniHeap.constructor | 程序员的自我修养/code/miniCRT/malloc.c:91-112 | initialisation makes one free block of the arena |
| MiniHeap.MiniHeap.FindFit | 程序员的自我修养/code/miniCRT/malloc.c:45-73 | for every 32-bit size the list walk finds the first fit, or null if there is none |
| MiniHeap.MiniHeap.Look | 程序员的自我修养/code/miniCRT/malloc.c:48-72 | the 32-bit tests on one block |
| MiniHeap.MiniHeap.GrantAt | 程序员的自我修养/code/miniCRT/malloc.c:53-71 | store by store, for every 32-bit size |
| MiniHeap.MiniHeap.Commit | 程序员的自我修养/code/miniCRT/malloc.c:53-71 | the stores into the block found; below the wrap the chain they make tiles the arena |
| MiniHeap.MiniHeap.Malloc | 程序员的自我修养/code/miniCRT/malloc.c:41-76 | null and unchanged exactly when the size is 0 or no free block is accepted; else that block, and below the wrap it was free, holds the request, and nothing in use changed |
| MiniHeap.MiniHeap.MergePrev | 程序员的自我修养/code/miniCRT/malloc.c:25-32 | the left merge, load by load and store by store |
| MiniHeap.MiniHeap.MergeNext | 程序员的自我修养/code/miniCRT/malloc.c:34-38 | the right merge, load by load and store by store |
| MiniHeap.MiniHeap.Free | 程序员的自我修养/code/miniCRT/malloc.c:19-39 | for any back link the bytes after free; with a clear one some chain tiles the arena if and only if the free is safe; a block not in use is left alone |
| SloppyCounter.StepKeepsTotal | operating_systems_three_easy_pieces/code/sloppy_counter/main.c:27-37 | global plus untransferred locals is the total added, after every step |
| SloppyCounter.RunKeepsInv | operating_systems_three_easy_pieces/code/sloppy_counter/main.c:16-44 | that and the two levels of locking hold in every interleaving |
| SloppyCounter.GlobalLagsBounded | operating_systems_three_easy_pieces/code/sloppy_counter/main.c:27-37 | 0 <= total - global <= CPUs * (threshold - 1 + largest amount), always |
| SloppyCounter.QuietLag | operating_systems_three_easy_pieces/code/sloppy_counter/main.c:27-37 | <= CPUs * (threshold - 1) when no update holds a local lock |
| SloppyCounter.GetIsCloseToTotal | operating_systems_three_easy_pieces/code/sloppy_counter/main.c:39-44 | what get returns obeys the bound at the moment it is read |
| SloppyCounter.GlobalGrowsByThreshold | operating_systems_three_easy_pieces/code/sloppy_counter/main.c:27-37 | in every run the global counter changes only by the transfer of a local one that has reached the threshold |
| SloppyCounter.UpdateRuns | operating_systems_three_easy_pieces/code/sloppy_counter/main.c:27-37 | undisturbed, an update adds to the local counter, and empties it into the global one exactly when it has reached the threshold |
| SloppyCounter.GetRuns | operating_systems_three_easy_pieces/code/sloppy_counter/main.c:39-44 | undisturbed, a get reads the global counter and changes nothing |
| SloppyCounter.NoDeadlock | operating_systems_three_easy_pieces/code/sloppy_counter/main.c:27-44 | while some thread is inside a call, some thread inside a call can go on |
| FourSquares.Plain | the_probability_lifesaver/code/four_square_sum/violent_solution.py:4-12 | lists every a >= b >= c >= d with the given sum of squares exactly once, in lexicographic order |
| FourSquares.Pruned | the_probability_lifesaver/code/four_square_sum/better_solution.py:4-12 | so does the pruned search |
| FourSquares.PrunedB | the_probability_lifesaver/code/four_square_sum/better_solution.py:7-11 | for one a, nothing is pruned away |
| FourSquares.PrunedC | the_probability_lifesaver/code/four_square_sum/better_solution.py:8-11 | for one a and b |
| FourSquares.PrunedD | the_probability_lifesaver/code/four_square_sum/better_solution.py:9-11 | for one a, b and c |
| FourSquares.ListingUnique | the_probability_lifesaver/code/four_square_sum/better_solution.py:4-12 | there is only one such list |
| FourSquares.Compare | the_probability_lifesaver/code/four_square_sum/better_solution.py:4-12 | both searches return the same sequence for every number |
| NumberText.ItoaRoundTrip | 程序员的自我修养/code/miniCRT/string.c:33-65 | reading the text back gives the number, in every radix from 2 to 36, without a leading zero, with a minus sign exactly before negative numbers |
| NumberText.DigitTable | 程序员的自我修养/code/miniCRT/string.c:35 | each digit is the character at its place in the source's table |
| NumberText.DecimalFits | 程序员的自我修养/code/miniCRT/printf.c:44-46 | 32-bit decimal text with its terminator fits the 16-byte buffer |
| NumberText.LowFirstReversed | 程序员的自我修养/code/miniCRT/string.c:52-63 | the digits in the order written, reversed, are the positional text |
| NumberText.ReverseInPlace | 程序员的自我修养/code/miniCRT/string.c:58-63 | the swaps reverse the range and touch nothing outside |
| NumberText.WriteDigits | 程序员的自我修养/code/miniCRT/string.c:52-56 | writes the digits, least significant first, and touches nothing else |
| NumberText.WriteText | 程序员的自我修养/code/miniCRT/string.c:52-63 | the buffer holds the positional text of a positive number, terminated |
| NumberText.Itoa | 程序员的自我修养/code/miniCRT/string.c:33-65 | rejected inputs leave the buffer alone; others leave sign, text, terminator and the rest of the buffer unchanged |
| Printf.ParseOfRender | 程序员的自我修养/code/miniCRT/printf.c:27-74 | the scanner's reading of a format inverts its spelling |
| Printf.RenderOfParse | 程序员的自我修养/code/miniCRT/printf.c:27-74 | and every format has exactly one reading |
| Printf.DirectivesParse | 程序员的自我修养/code/miniCRT/printf.c:27-74 | text without a percent sign is itself; %d, %s and %% are the three conversions, any other character stands for itself, a percent sign at the end for nothing |
| Printf.DirectivesExpand | 程序员的自我修养/code/miniCRT/printf.c:27-74 | and what each of them comes out as |
| Printf.EmitsExpansionIff | 程序员的自我修养/code/miniCRT/printf.c:22-76 | the scanner reaches the end of the format if and only if its own characters are ASCII; what it wrote is a prefix of the expansion, and all of it at the end |
| Printf.WritesExpansionIff | 程序员的自我修养/code/miniCRT/printf.c:22-76 | the whole expansion is written if and only if nothing behind the first non-ASCII character of the format would produce output |
| Printf.Strlen | 程序员的自我修养/code/miniCRT/string.c:17-23 | the index of the first terminator |
| Printf.DecimalText | 程序员的自我修养/code/miniCRT/printf.c:44-48 | %d goes through itoa and the buffer unharmed |
| Printf.Vfprintf | 程序员的自我修养/code/miniCRT/printf.c:22-76 | the expansion comes out with its length as the result if and only if the format is ASCII; otherwise EOF after a prefix, which is all of it exactly if nothing was lost |
| Printf.Scan | 程序员的自我修养/code/miniCRT/printf.c:27-74 | the two-state loop writes what the directives emit |
| Arithmetic.ScanSpelled | programming_language_pragmatics/code/calc_ll/main.c:50-53 | scanning a number's spelling gives the number back and stops behind it |
| Calculator.ReadsExpr | programming_language_pragmatics/code/calc_ll/main.c:42-104 | every sentence of the grammar is read to its end with its left-associative value, or fails exactly on a zero divisor |
| Calculator.ExprIsSentence | programming_language_pragmatics/code/calc_ll/main.c:42-104 | whatever is accepted starts with a sentence, and the result is its value |
| CalculatorLaws.ReadsPrintedNumber | programming_language_pragmatics/code/calc_ll/main.c:50-53 | both calculators read back every integer that is printed in decimal, also behind a plus sign |
| CalculatorLaws.TruncDivLaw | programming_language_pragmatics/code/calc_ll/main.c:72-75 | what division leaves over is smaller than the divisor and has the sign of the dividend |
| CalculatorLaws.TermGroupsLeft | programming_language_pragmatics/code/calc_ll/main.c:61-82 | one more * or / applies to the value of the whole term before it, and fails exactly on a zero divisor or a part without value |
| CalculatorLaws.ExprGroupsLeft | programming_language_pragmatics/code/calc_ll/main.c:84-104 | one more + or - applies to the value of the whole expression before it |
| CalculatorLaws.ParenthesesKeepValue | programming_language_pragmatics/code/calc_ll/main.c:45-49 | an expression in parentheses is a factor with its value |
| Calculator.Calculator.Match | programming_language_pragmatics/code/calc_ll/main.c:31-39 | advances past the expected character or fails |
| Calculator.Calculator.Factor | programming_language_pragmatics/code/calc_ll/main.c:42-59 | reads what the factor function reads |
| Calculator.Calculator.Term | programming_language_pragmatics/code/calc_ll/main.c:61-82 | its accumulating loop computes the term function |
| Calculator.Calculator.Expression | programming_language_pragmatics/code/calc_ll/main.c:84-104 | its accumulating loop computes the expression function |
| TailCalculator.FoldIsProduct | programming_language_pragmatics/code/calc_ll_1/main.c:63-79 | multiplying by the tail's product is the left-associative chain of multiplications and divisions |
| TailCalculator.FoldIsSum | programming_language_pragmatics/code/calc_ll_1/main.c:81-98 | adding the tail's sum is the left-associative chain of additions and subtractions |
| TailCalculator.ReadsFlatExpr | programming_language_pragmatics/code/calc_ll_1/main.c:43-98 | every parenthesis-free sentence before a newline is read with its left-associative real value |
| TailCalculator.NoParentheses | programming_language_pragmatics/code/calc_ll_1/main.c:46-49 | an opening parenthesis always ends in an error |
| TailCalculator.AcceptsOnlyFlat | programming_language_pragmatics/code/calc_ll_1/main.c:43-98 | of the inputs made of integer lexemes only such sentences are accepted, with their values |
| TailCalculator.CalculatorsAgree | programming_language_pragmatics/code/calc_ll_1/main.c:43-98 | both calculators give the same number where no integer division has a remainder |
| TailCalculator.TailCalculator.Factor | programming_language_pragmatics/code/calc_ll_1/main.c:43-61 | reads what the factor function reads |
| TailCalculator.TailCalculator.FactorTail | programming_language_pragmatics/code/calc_ll_1/main.c:63-75 | the tail production, from left to right |
| TailCalculator.TailCalculator.Term | programming_language_pragmatics/code/calc_ll_1/main.c:77-79 | factor times tail, from left to right |
| TailCalculator.TailCalculator.TermTail | programming_language_pragmatics/code/calc_ll_1/main.c:81-94 | the tail production, from left to right |
| TailCalculator.TailCalculator.Expression | programming_language_pragmatics/code/calc_ll_1/main.c:96-98 | term plus tail, from left to right |
| Postfix.TranslatesSums | compilers_principles/code/postfix/Parser.java:10-33 | every infix sum of digits becomes the post-order of its left-associative tree |
| Postfix.WritesLongestSum | compilers_principles/code/postfix/Parser.java:10-33 | what is written is the post-order of the longest sum the input starts with, and the error comes at an operator without a digit |
| Postfix.AcceptsIff | compilers_principles/code/postfix/Parser.java:10-33 | accepted if and only if the input is a sum followed by no operator |
| Postfix.RunPostOrder | compilers_principles/code/postfix/Parser.java:10-33 | the stack machine evaluates the post-order of every tree to its value |
| Postfix.PostOrderUnique | compilers_principles/code/postfix/Parser.java:10-33 | the tree can be recovered from its postfix form |
| Postfix.TranslationKeepsMeaning | compilers_principles/code/postfix/Parser.java:10-33 | the output run on the stack machine leaves exactly the left-associative value of the input |
| Postfix.Parser.Match | compilers_principles/code/postfix/Parser.java:30-33 | advances past the expected character or fails |
| Postfix.Parser.Term | compilers_principles/code/postfix/Parser.java:23-28 | copies one digit, or fails and writes nothing |
| Postfix.Parser.Expr | compilers_principles/code/postfix/Parser.java:10-21 | the loop writes and consumes what the translation function does |
| ShortCircuit.Sequence | compilers_principles/code/front_end_all/src/inter/And.java:10-15 | if two abstract fragments meet the jumping contract, one after the other with the closing label meets it, for all t and f |
| ShortCircuit.AndCorrect | compilers_principles/code/front_end_all/src/inter/And.java:10-15 | the code for && goes to t or f, or falls through for 0, making the tests of short-circuit evaluation only |
| ShortCircuit.OrCorrect | compilers_principles/code/front_end_all/src/inter/Or.java:10-15 | the same for the dual operator |
| ShortCircuit.ConstCorrect | compilers_principles/code/front_end_all/src/inter/Constant.java:21-27 | the same for true and false |
| ShortCircuit.TestCorrect | compilers_principles/code/front_end_all/src/inter/Expr.java:23-36 | the same for a comparison, in all four cases of t and f |
| ShortCircuit.JumpCorrect | compilers_principles/code/front_end_all/src/inter/And.java:10-15 | the same for every nesting, anywhere in any program with distinct labels |
| ShortCircuit.JumpLabelsFresh | compilers_principles/code/front_end_all/src/inter/Node.java:14-24 | the labels placed were all drawn for this code and each is placed once |
| ShortCircuit.EvalIsTruth | compilers_principles/code/front_end_all/src/inter/And.java:10-15 | the value that the jumping code realises is that of the truth tables |
| ShortCircuit.RightOnlyIfNeeded | compilers_principles/code/front_end_all/src/inter/And.java:10-15 | a right operand is tried exactly when the left one leaves the value open |
| Statements.GenLabelsFresh | compilers_principles/code/front_end_all/src/inter/Node.java:14-24 | the same for every statement |
| CodeGeneration.SetLogical | compilers_principles/code/front_end_all/src/inter/Logical.java:22-33 | the temporary receives, and the assignment stores, the value of the expression |
| CodeGeneration.SeqCorrect | compilers_principles/code/front_end_all/src/inter/Seq.java:11-22 | the code of a sequence does what the sequence means |
| CodeGeneration.IfCorrect | compilers_principles/code/front_end_all/src/inter/If.java:17-22 | the code of if does what it means |
| CodeGeneration.ElseCorrect | compilers_principles/code/front_end_all/src/inter/Else.java:16-25 | the code of if-else does what it means |
| CodeGeneration.WhileCorrect | compilers_principles/code/front_end_all/src/inter/While.java:22-30 | the code of while does what it means, with break and continue |
| CodeGeneration.DoCorrect | compilers_principles/code/front_end_all/src/inter/Do.java:22-29 | the code of do does what it means, where continue restarts the body |
| CodeGeneration.GenCorrect | compilers_principles/code/front_end_all/src/inter/Stmt.java:9-13 | every statement's code, behind its begin label, produces the statement's events and ends at or before after, or at the loop's labels |
| CodeGeneration.GenBusy | compilers_principles/code/front_end_all/src/inter/While.java:22-30 | a statement cut off after n rounds has the machine at the same events, inside the code, after at least n steps |
| CodeGeneration.ProgramLabelsUnique | compilers_principles/code/front_end_all/src/parser/Parser.java:35-42 | no label is defined twice in a whole program |
| CodeGeneration.ProgramRuns | compilers_principles/code/front_end_all/src/parser/Parser.java:35-42 | a terminating program's code halts with the same events in the same order |
| CodeGeneration.HaltsIffTerminates | compilers_principles/code/front_end_all/src/parser/Parser.java:35-42 | the code halts if and only if the program terminates |
| CodeGeneration.DivergingRunsAgree | compilers_principles/code/front_end_all/src/parser/Parser.java:35-42 | a program that never ends and its code go through the same events, each as far as the other |
| CodeGeneration.RetestAgrees | compilers_principles/code/front_end_all/src/inter/Continue.java:13-15 | without a continue in a do loop, the code's meaning is the usual one |
| CodeGeneration.ContinueInDoLoops | compilers_principles/code/front_end_all/src/inter/Do.java:22-29 | a program that should end at once, and whose code never halts |
| CodeGeneration.ContinueMayBeHarmless | compilers_principles/code/front_end_all/src/inter/Do.java:22-29 | a program with such a continue that ends exactly when it should, with the same events, under every oracle |
| StatementLaws.ElseBranches | compilers_principles/code/front_end_all/src/inter/Else.java:16-25 | a negated condition exchanges the branches, a true one takes the first; if is if-else with nothing to do |
| StatementLaws.AssignmentStoresTruth | compilers_principles/code/front_end_all/src/inter/Set.java:25-27 | a boolean assignment stores the truth of its expression, once, after the tests |
| StatementLaws.WhileUnrolls | compilers_principles/code/front_end_all/src/inter/While.java:22-30 | a while loop ends with an outcome if and only if the conditional body followed by the loop does, when no break or continue belongs to it |
| StatementLaws.BreakLeaves | compilers_principles/code/front_end_all/src/inter/Break.java:11-13 | a body that ends in break runs at most once |
| StatementLaws.ContinueSkips | compilers_principles/code/front_end_all/src/inter/Continue.java:13-15 | what follows a continue in a while body is never run, whatever comes before it |
| StatementLaws.DoIsBodyThenWhile | compilers_principles/code/front_end_all/src/inter/Do.java:22-29 | a do loop ends with an outcome if and only if its body followed by the while loop does |
| StatementLaws.BreakLeavesDo | compilers_principles/code/front_end_all/src/inter/Do.java:22-29 | a body that ends in break runs once, without a test |
| FrontEnd.Emitter.NewLabel | compilers_principles/code/front_end_all/src/inter/Node.java:16-20 | labels are numbered from one and never repeated |
| FrontEnd.Emitter.EmitTest | compilers_principles/code/front_end_all/src/inter/Expr.java:27-36 | the conditional jumps for each of the four cases of t and f |
| FrontEnd.Emitter.Jumping | compilers_principles/code/front_end_all/src/inter/And.java:10-15 | drawing labels and printing as it goes yields the code that JumpCorrect is about |
| FrontEnd.Emitter.GenLogical | compilers_principles/code/front_end_all/src/inter/Logical.java:22-33 | the code that computes a boolean into a temporary |
| FrontEnd.Emitter.GenSet | compilers_principles/code/front_end_all/src/inter/Set.java:25-27 | the code of a boolean assignment |
| FrontEnd.Emitter.GenSeq | compilers_principles/code/front_end_all/src/inter/Seq.java:11-22 | printing as it goes yields the code that SeqCorrect is about |
| FrontEnd.Emitter.GenGuarded | compilers_principles/code/front_end_all/src/inter/If.java:18-21 | the condition, the body's label and the body |
| FrontEnd.Emitter.GenIf | compilers_principles/code/front_end_all/src/inter/If.java:17-22 | likewise for if |
| FrontEnd.Emitter.GenElse | compilers_principles/code/front_end_all/src/inter/Else.java:16-25 | likewise for if-else |
| FrontEnd.Emitter.GenWhile | compilers_principles/code/front_end_all/src/inter/While.java:22-30 | likewise for while |
| FrontEnd.Emitter.GenDo | compilers_principles/code/front_end_all/src/inter/Do.java:22-29 | likewise for do |
| FrontEnd.Emitter.GenStmt | compilers_principles/code/front_end_all/src/inter/Stmt.java:9-13 | likewise for every statement, break and continue included |
| FrontEnd.Emitter.GenProgram | compilers_principles/code/front_end_all/src/parser/Parser.java:35-42 | the program printed is the one HaltsIffTerminates is about |

## Left out

The drivers:

- Faults while copying to or from user space, fasync, poll, /proc output and device registration. A signal is a process
  that may return early from any wait or lock.
- Opening the pipe again while it is in use, which resets both pointers and may change the size; runs of the pipe are
  between two opens. Its counters of readers and writers are left out with it.
- Unlocked checks of the pipe's and the blocking device's wait conditions are single steps; torn reads are not modelled.
- Operations on a bare scull device are taken one at a time: read and write fetch the geometry before they take the lock.
- The list of items is linked nodes; the pointer arrays and quanta hang off them as values. Every allocated block has an
  identity, so freeing is exact. Offsets and sizes are unbounded; truncation to int is not modelled.
- ScullDevice.Device.Write: requires a positive geometry, because the driver divides by it. So does Device.Read.
- PipeRing.Pipe.constructor: takes a size of at least one; the one-slot gap makes a size of one a pipe that is always full.
- The cloned device (one per terminal) of the access-control drivers.

The thread pool, scheduler and counter:

- Failures of pthread calls and of allocation, and tasks that do not return.
- Destruction begins when no submission is in progress, not even one that still waits for the mutex; nothing is submitted
  afterwards, and destroy is called once. The source guards against none of this.
- ThreadPool.JoinsCanBeSatisfied: a finished destruction is reachable, and WorkersAreDoneSoon bounds the steps on the way;
  that the threads are given those steps is up to the real scheduler.
- Scheduler.Kernel.Schedule: requires a process with positive ticks or priority; without one the source loops forever.
- Nested interrupts (k_reenter other than 0), the global tick count, and milli_delay.
- Scheduler.Kernel.constructor: the process table is initialised elsewhere in the kernel, with equal ticks and priority.
- The integer width of the sloppy counter's fields.

The small C runtime:

- MiniHeap.MiniHeap.Malloc: for a request whose size + 32 wraps around it promises which block is chosen and which bytes
  are stored, and no longer that the arena is tiled.
- HeapAnyOrder.FirstUnsafeFreeBreaksTiling: one way for a back link into the middle of a header; whether the arena survives
  then depends on the values of the bytes that are overwritten. AlignedRunTiledIff has no such exception.
- HeapExamples.OverlappedLinkBreaksTiling: takes a program that leaves the last four bytes of its 104 as they were.
- HeapRuns.LifoRunRestores: is about headers; that bytes follow them is MallocRefines and FreeRefines.
- The brk system call. Pointers are 32 bits wide.
- NumberText.Itoa: excludes INT_MIN, whose negation overflows, and a null buffer.
- Printf.Vfprintf: requires arguments of the kinds the directives ask for, C strings without a terminator inside, and
  writes that succeed. It returns an unbounded length.
- strcmp and the raw stream functions.

The translators:

- Calculator.Calculator.Factor: values are unbounded, and a sign without digits is an error here, while scanf would leave
  the value undefined. A division by zero ends the calculation.
- TailCalculator.TailCalculator.Factor: reads integer lexemes only, although scanf's %lf reads more; values are exact
  reals, so rounding and infinities are not modelled. Operands are evaluated from left to right, which C leaves open.
- Postfix.Parser.Term: takes ASCII digits only; Character.isDigit accepts others.
- FourSquares.Plain: uses the exact integer square root, which int(math.sqrt(n)) is only for numbers of moderate size.
- Code for the operands of comparisons, for arithmetic and for arrays: a comparison is an abstract test that may depend
  on everything that happened before, and other assignments are single events.
- The fields in which a loop keeps its labels for break and continue are passed down as parameters here.
- CodeGeneration.RetestAgrees: is one direction only. A continue in a do loop can be harmless even when it is reached
  (`ContinueMayBeHarmless`), so an exact condition would have to decide when two programs are equivalent.

Also left out: the timer list (its insertion does not keep the order its comment describes), the process simulator (it
may run several processes at once), the single-slot producer and consumer (it waits with `if`, so two consumers break it),
and the numeric, plotting, socket and signal programs, which keep no state of their own between calls.
