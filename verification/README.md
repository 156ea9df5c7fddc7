# Gino in Dafny

Gino turns a sequential loop into parallel tasks in three ways. HELIX runs consecutive
iterations on different cores and protects every loop-carried value by a sequential
segment; DOALL deals chunks of independent iterations to tasks; DSWP cuts the loop body
into pipeline stages that talk through queues. This project models the loops, protocols
and graph algorithms that Gino emits or runs, and proves that the parallel executions mean
the same as the sequential loop.

| file | content |
|---|---|
| `Arith`, `Digraph` | arithmetic of quotients and remainders; paths and cycles in finite graphs |
| `HelixMachine`, `HelixOrder`, `HelixRuns` | cores, locks, segments and cells as a transition system; its invariant; what holds of every run |
| `HelixLoop`, `HelixCounted`, `HelixPrologueTask`, `HelixPrologue` | sequential loops, and the two tasks HELIX makes of them, without and with a loop-is-over flag |
| `HelixDispatcher`, `HelixCritical` | set-up of the lock arrays; the second mode, with a single array, that the compiler never calls |
| `HelixCfg`, `HelixRegions`, `HelixEntries`, `HelixFrontier`, `HelixExitsOnce`, `HelixPlacement`, `HelixSignals` | entries and exits of a segment, and how their placement gives the protocol what it needs |
| `HelixSpill` | where a spilled variable is loaded |
| `DoallChunks`, `DoallTask`, `DoallReduction` | chunking, guarded headers, periodic variables, reductions |
| `DoallRuntime`, `DoallDispatch` | idle cores and argument blocks; concurrent dispatches |
| `DswpBody`, `DswpPipeline`, `DswpDeterminism` | the original loop body; the code of the stages and its runs; what every run computes |
| `DswpStages`, `DswpBuild` | stages, cloned SCCs and queues; from them to a pipeline that computes the loop |
| `HeuristicLatency`, `MergePartition`, `MinMaxMerge` | the DSWP partitioning heuristic |
| `InlinerGraph`, `InlinerOrder`, `InlinerRecursion` | the inliner's depth order |
| `PlannerSavings` | the planner's estimate and the greedy parallelizer |

How the code is read:

- A HELIX task is its sequence of waits, accesses, signals and flag operations. A wait is
  the call guarded by ssState, so a second wait for the same segment in an iteration does
  nothing. A signal is an unlock: it opens a lock that may be open already. Memory is
  sequentially consistent, and a loop-carried cell is touched only inside its segment.
- Induction variables and iteration numbers do not overflow; the chunk size is at least
  one and the step is not zero, as in the source.
- PHI nodes lie before the rest of their block; a signal placed after an exit that is a
  conditional branch is a signal on each of its outgoing ways.
- The comment at `src/core/helix/src/HELIX_sequentialSegment.cpp:185-189` says that no other
  exit is reached from an exit. The code only checks that no earlier exit reaches a new
  one; `HelixExitsOnce` says exactly when that is enough.
- The comment at `src/core/inliner/src/Inliner.cpp:711-715` takes all functions left over to be
  part of recursive chains. `InlinerRecursion` shows which are not.
- The intention stated at `src/core/helix/src/HELIX_parallelization.cpp:129-136`, that spill
  loads in exit blocks are moved into the loop when a store invalidates them, is met by
  the code except for exits to which a store's block branches directly (`HelixSpill`).
- `src/core/helix/src/HELIX.cpp:48` looks up the dispatcher's entry point for one lock array,
  `src/core/helix/src/HELIX_linker.cpp:65` only ever calls the one for an array per core.
- In a DSWP body a branch inside an iteration decides which later instructions execute;
  values of blocks that do not execute are neither pushed nor popped. PHI nodes at the
  header read the values of the previous iteration.
- The call of `areQueuesAcyclical` at `src/core/dswp/src/DSWP.cpp:262` is commented out;
  `DswpStages` says exactly when what it would check holds.

## Model

| member | source | states |
|---|---|---|
| HelixOrder.StepKeepsInv | src/core/helix/src/HELIX_synchronization.cpp:106-197 | every operation of every core keeps: cores are where the sequential execution of their iteration is; each segment's token is in one place; a lock that will still be waited for is open exactly when its turn has come; each cell holds the sequential value; the flag is set exactly after the exiting iteration set it |
| HelixOrder.LockKept | src/core/helix/src/HELIX_synchronization.cpp:207-224 | extra signals (flag check failed, exit block) never open a lock whose turn has not come |
| HelixOrder.SignalIsDue | src/core/runtime/Parallelizer_utils.cpp:642-650 | a signal of the core in instance i reaches exactly the core whose next wait is for instance i+1 |
| HelixOrder.CellKept | src/core/helix/src/HELIX_synchronization.cpp:106-188 | the cell of a segment is the sequential one while a core is inside and between instances |
| HelixOrder.FlagValue | src/core/helix/src/HELIX_synchronization.cpp:240-275 | a core that checks the flag inside the prologue reads `set` exactly if its iteration comes after the exiting one |
| HelixRuns.RunKeepsInv | src/core/helix/src/HELIX_synchronization.cpp:90-363 | the invariant holds in every state of every run |
| HelixRuns.EntersInOrder | src/core/runtime/Parallelizer_utils.cpp:569-620 | a core let into segment s in iteration i finds exactly the instances before i complete, nobody else inside, and the sequential value in the cell |
| HelixRuns.SeesSequentialValues | src/core/helix/src/HELIX_synchronization.cpp:106-157 | inside a segment local state and cell are those of the sequential loop |
| HelixRuns.OneToken | src/core/runtime/Parallelizer_utils.cpp:569-728 | when every signal ends a wait, a segment has one token: one core inside and all locks closed, or nobody inside and one open lock, that of the core whose turn it is |
| HelixRuns.Progress | src/core/helix/src/HELIX_synchronization.cpp:207-224 | in every reachable state in which a core has not returned some core can step |
| HelixRuns.RunsAreBounded | src/core/helix/src/HELIX_synchronization.cpp:207-224 | every run has at most as many steps as all iterations of all cores have operations |
| HelixRuns.RunCanContinue | src/core/runtime/Parallelizer_utils.cpp:730-735 | every run ends with all cores returned or can be continued, within the bound |
| HelixRuns.AllInstancesDone | src/core/helix/src/HELIX_synchronization.cpp:217-224 | when all cores have returned, every instance of a segment up to the last one waited for has been signalled |
| HelixRuns.EndsSequentially | src/core/helix/src/HELIX_synchronization.cpp:90-363 | when all cores have returned the cells are those of the sequential execution, for every interleaving |
| HelixLoop.SetsFollowPath | src/core/helix/src/HELIX_synchronization.cpp:75-157 | ssState and the signals of an iteration are determined by the path it takes |
| HelixCounted.CountedIsDisciplined | src/core/helix/src/HELIX_synchronization.cpp:207-224 | body paths that enter, use and leave each segment, with the exit block's waits (last segment first) and signals, form a task the invariant is proved for |
| HelixCounted.RefinesSequentialLoop | src/core/helix/src/HELIX_synchronization.cpp:207-224 | N iterations on n cores end with the memory of the sequential loop, and each segment was waited for and signalled N+n times |
| HelixCounted.InstancesSeeSequentialValues | src/core/helix/src/HELIX_synchronization.cpp:106-188 | each instance of a segment starts from, and continues with, the values of the sequential loop at its iteration |
| HelixCounted.LiveOutsAreFinal | src/core/helix/src/HELIX_synchronization.cpp:211-224 | a core behind the waits of its exit block sees the final value of every cell |
| HelixCounted.EveryCoreReturns | src/core/runtime/Parallelizer_utils.cpp:730-735 | no run gets stuck and all runs are bounded, so the join returns |
| HelixPrologueTask.PrologueIsDisciplined | src/core/helix/src/HELIX_synchronization.cpp:277-363 | header wait, flag check, failed check that signals every segment, exit block that sets the flag and signals the prologue twice: all of it meets what the invariant needs |
| HelixPrologue.RefinesSequentialLoop | src/core/helix/src/HELIX_synchronization.cpp:199-275 | the memory at the end is that of the sequential loop including its exiting iteration; the prologue ran once more per remaining core, every other segment did not |
| HelixPrologue.NoBodyAfterExit | src/core/helix/src/HELIX_synchronization.cpp:240-275 | no core runs the body of an iteration after the exiting one, and none fails the check at or before it |
| HelixPrologue.InstancesSeeSequentialValues | src/core/helix/src/HELIX_synchronization.cpp:309-363 | as for counted loops, in every iteration up to the exiting one |
| HelixPrologue.LiveOutsAreFinal | src/core/helix/src/HELIX_synchronization.cpp:211-224 | the exiting core sees the final cells behind the waits of its exit block |
| HelixPrologue.NextCorePassesHeader | src/core/helix/src/HELIX_synchronization.cpp:332-361 | the exiting core signals the prologue right after it has set the flag: from then on the next core can pass its header wait, while the exiting core is still in its exit block |
| HelixPrologue.EveryCoreReturns | src/core/helix/src/HELIX_synchronization.cpp:262-275 | every core leaves: by the exit, or by a failed check |
| HelixDispatcher.Dispatcher.constructor | src/core/runtime/Parallelizer_utils.cpp:565-720 | one lock array per core or one for all; only array 0 starts open; core i waits on array i and signals array i+1, the last one array 0 |
| HelixDispatcher.Dispatcher.TryWait | src/core/runtime/Parallelizer_utils.cpp:808-836 | an attempt succeeds exactly if the lock was open, closes that lock and changes nothing else |
| HelixDispatcher.Dispatcher.Signal | src/core/runtime/Parallelizer_utils.cpp:838-868 | opens the lock of the future array whatever its state and changes nothing else |
| HelixDispatcher.StartsInInitialState | src/core/runtime/Parallelizer_utils.cpp:586-720 | what the dispatcher sets up is the initial state of the machine the runs are about |
| HelixDispatcher.CarryOut | src/core/runtime/Parallelizer_utils.cpp:808-868 | carrying out a core's next operation on the dispatcher's arrays goes through exactly when the machine lets the core step, and leaves the locks of the machine's next state |
| HelixDispatcher.Ring | src/core/runtime/Parallelizer_utils.cpp:642-650 | with one array per core no two cores wait on or signal the same array, and each signals the one its successor waits on |
| HelixCritical.MutualExclusion | src/core/runtime/Parallelizer_utils.cpp:569-572 | second mode of the dispatcher, one array for all cores, which the compiler never calls: in every state of every run a lock is open exactly if nobody is inside the segment and never are two cores inside |
| HelixCritical.OnlyTheHolderWrites | src/core/runtime/Parallelizer_utils.cpp:569-572 | second mode: a cell changes only by an operation of the one core inside its segment |
| HelixCritical.NoDeadlock | src/core/runtime/Parallelizer_utils.cpp:569-572 | second mode: no run gets stuck if nested waits take segments in descending order; sufficient, not necessary |
| HelixCritical.CriticalSections | src/core/helix/src/HELIX_synchronization.cpp:207-224 | second mode: both for the task of a counted loop, whose exit block waits for all segments in that order, under the same condition on its body |
| HelixCritical.AscendingWaitsCanDeadlock | src/core/helix/src/HELIX_synchronization.cpp:217-224 | second mode, so not code that is generated: without a condition on the order there is a stuck run, of a body that nests its waits in ascending order against the descending exit block |
| HelixCfg.ComputeReachability | src/core/helix/src/HELIX_sequentialSegment.cpp:428-475 | the data-flow analysis with the header edge cut computes, for every instruction, exactly what can execute after it in the same iteration |
| HelixCfg.ComputeBeforeInstructionMap | src/core/helix/src/HELIX_sequentialSegment.cpp:379-426 | exactly what other instruction can execute before it in the same iteration |
| HelixRegions.Anchor | src/core/helix/src/HELIX_sequentialSegment.cpp:367-377 | the place chosen never separates PHI nodes from the start of their block |
| HelixFrontier.SequentialSegment.FindEntries | src/core/helix/src/HELIX_sequentialSegment.cpp:199-247 | every way from the header to the segment passes an entry, nothing of the segment precedes an entry, and the entries are exactly those of one walk over the front: the instructions nearest to the segment, backwards through instructions that fail a test, that lie outside sub-loops and that nothing of the segment precedes, each entered unless an entry found before dominates it |
| HelixEntries.EntriesAreFront | src/core/helix/src/HELIX_sequentialSegment.cpp:199-247 | whatever the order, each entry of the search is the place of an instruction of the front, and the place of each instruction of the front is an entry or dominated by one |
| HelixEntries.OwnEntry | src/core/helix/src/HELIX_sequentialSegment.cpp:219-230 | an instruction of the segment that passes the tests is entered at its own place, unless another place of the front dominates it |
| HelixEntries.SingleEntry | src/core/helix/src/HELIX_sequentialSegment.cpp:199-247 | a segment of one instruction outside sub-loops is entered there and nowhere else |
| HelixEntries.EveryOrderEntersAllIff | src/core/helix/src/HELIX_sequentialSegment.cpp:172-182 | the entries do not depend on the order of the search exactly if no place of the front dominates another |
| HelixFrontier.SequentialSegment.HeaderIsEntry | src/core/helix/src/HELIX_sequentialSegment.cpp:219-221 | the search cannot run out of the loop: the header always passes the three tests |
| HelixFrontier.SequentialSegment.FindExits | src/core/helix/src/HELIX_sequentialSegment.cpp:249-298 | nothing of the segment executes after an exit; everything the search met was settled; without critical edges it only passes over what still reaches the segment |
| HelixFrontier.SequentialSegment.ExtendFrontier | src/core/helix/src/HELIX_sequentialSegment.cpp:300-358 | every untouched block becomes an exit or has one before it, and has an entry before it; entries and exits are those of one walk in some order, in which a block becomes an entry exactly if no entry dominates it and an exit exactly if no other exit reaches it |
| HelixFrontier.SequentialSegment.ExitOnPath | src/core/helix/src/HELIX_sequentialSegment.cpp:249-358 | without critical edges every complete iteration passes an exit |
| HelixFrontier.SequentialSegment.ExitIsCovered | src/core/helix/src/HELIX_sequentialSegment.cpp:199-358 | without critical edges every way to an exit passes an entry first |
| HelixFrontier.SequentialSegment.constructor | src/core/helix/src/HELIX_sequentialSegment.cpp:27-94 | the frontiers of a segment: coverage by entries, safety of exits, coverage by exits, entries before exits; entries and exits are what the two searches find, one walk over the untouched blocks in some order, and the returns; without critical edges no exit executes after another if no untouched block executes after another, and then the frontiers are well placed |
| HelixExitsOnce.SearchExitsAreApart | src/core/helix/src/HELIX_sequentialSegment.cpp:249-298 | the exits the forward search ends with never execute after one another, as the comment before it promises |
| HelixExitsOnce.SearchIsExact | src/core/helix/src/HELIX_sequentialSegment.cpp:249-298 | without critical edges the forward search ends with exactly the places where the segment ends: at its instructions, or right behind what lies between them, with nothing of the segment to follow |
| HelixExitsOnce.ApartIsAtMostOnce | src/core/helix/src/HELIX_sequentialSegment.cpp:185-199 | no way through an iteration passes two exits exactly if no exit reaches an exit |
| HelixExitsOnce.EveryOrderIsApartIff | src/core/helix/src/HELIX_sequentialSegment.cpp:300-358 | whatever the order of the unordered walk, no iteration passes two exits, exactly if no block that the segment neither reaches nor is reached from executes after another such block or again; a condition on loop and segment alone |
| HelixExitsOnce.SignalInSubLoop | src/core/helix/src/HELIX_sequentialSegment.cpp:344-358 | it does not always: a loop without critical edges and a segment for which the search ends with one exit, and an order of the walk that then puts one exit before a sub-loop and one inside it |
| HelixSignals.TwoSignalsBreakTheOrder | src/core/runtime/Parallelizer_utils.cpp:838-868 | why it matters: with two signals in an iteration a core can enter instance 3 when instance 2 has not run, and reads its value too early |
| HelixPlacement.PlaceAll | src/core/helix/src/HELIX_sequentialSegment.cpp:27-94 | the frontiers computed for all segments of a loop without critical edges are well placed if, for each segment, no two untouched blocks execute in one iteration |
| HelixPlacement.FrontiersSynchronise | src/core/helix/src/HELIX_synchronization.cpp:106-363 | at well placed frontiers, waits before the entries and signals after the exits of any number of segments give, on every complete iteration, the paths required above: accesses between wait and signal, one signal each, none forgotten |
| HelixPlacement.FrontiersSynchroniseExiting | src/core/helix/src/HELIX_synchronization.cpp:277-363 | with a sequential prologue, waited for at the header, a way to a branch of the prologue that leaves the loop follows the protocol and does not signal the prologue before it has left |
| HelixPlacement.PlacementRefinesSequentialLoop | src/core/helix/src/HELIX_synchronization.cpp:106-363 | from placement to memory: a counted loop synchronised at such frontiers ends with the memory of the sequential loop on any number of cores, under every interleaving |
| HelixPlacement.PlacementRefinesPrologueLoop | src/core/helix/src/HELIX_synchronization.cpp:277-363 | the same for a loop with a sequential prologue: the memory is that of the sequential loop, its exiting iteration included |
| HelixSpill.InvalidatedBlocks | src/core/helix/src/HELIX_spiller.cpp:280-343 | exactly the blocks that follow a store's block through a successor inside the loop |
| HelixSpill.HeaderIsValid | src/core/helix/src/HELIX_spiller.cpp:345-351 | the header is never invalidated, so the walk up the dominator tree stops at or before it |
| HelixSpill.ValidBlockToLoadIn | src/core/helix/src/HELIX_spiller.cpp:352-364 | the nearest dominator that is not invalidated |
| HelixSpill.Prune | src/core/helix/src/HELIX_spiller.cpp:400-418 | exactly the frontier blocks that no other frontier block dominates |
| HelixSpill.DefineFrontier | src/core/helix/src/HELIX_spiller.cpp:270-418 | every user and every loop exit has a frontier block above it; no frontier block dominates another; each is the nearest valid dominator of a user or exit; all its loads read the incoming value exactly if every valid exit that a store's block branches to lies below another block found by the search |
| HelixSpill.OneLoadForEachUser | src/core/helix/src/HELIX_spiller.cpp:467-489 | exactly one load reaches each user and each exit, as the source asserts |
| HelixSpill.LoadsReadIncomingIff | src/core/helix/src/HELIX_spiller.cpp:280-325 | a load in a frontier block reads the value with which the iteration began exactly if the block is not an exit to which a store's block branches directly |
| HelixSpill.AllLoadsReadIncomingIff | src/core/helix/src/HELIX_spiller.cpp:280-418 | all loads of a frontier read the value with which the iteration began exactly if no exit to which a store's block branches survives in it, which loop and users alone decide |
| HelixSpill.ExitLoadCanReadNextValue | src/core/helix/src/HELIX_spiller.cpp:294-325 | a loop in which the search has to accept such an exit block, so that the load reads the next iteration's value |
| DoallChunks.ExactCover | src/core/doall/src/DOALL_chunking.cpp:63-122 | if every index has an owner, all tasks together run each index below n exactly once |
| DoallChunks.NextIsOwn | src/core/doall/src/DOALL_chunking.cpp:87-122 | the step at a chunk end leads to the task's next own index and skips none |
| DoallChunks.ChunksOfOne | src/core/helix/src/HELIX_stepper.cpp:91-129 | HELIX cores are the case of chunks of one: iteration i belongs to core i mod n |
| DoallChunks.PastIff | src/core/doall/src/DOALL_chunking.cpp:266-282 | the exit test on the induction variable says exactly whether the index is past the trip count, rising or falling |
| DoallTask.ChunkedTask | src/core/doall/src/DOALL_chunking.cpp:63-282 | a task runs the bodies of exactly its own indices in order, leaves at its first own index past the end, and its periodic variables have the sequential value at every header, for periods within the bound below |
| DoallTask.GuardedTask | src/core/doall/src/DOALL_chunking.cpp:596-703 | with guards the headers of a task are exactly its own indices up to and including the trip count, for no others, also for an empty loop |
| DoallTask.HelixCore | src/core/helix/src/HELIX_stepper.cpp:91-129 | a HELIX core runs exactly the iterations congruent to its number, leaves at the first such index past the end, with sequential periodic values |
| DoallTask.PeriodicClosed | src/core/doall/src/DOALL_chunking.cpp:203-263 | initial value plus step times the place in the period, modulo 2^w, is the periodic recurrence |
| DoallTask.PeriodicMatches | src/core/helix/src/HELIX_stepper.cpp:525-583 | for periods up to half the range of their type the value computed from the injected 64-bit counter, with its sign extensions and signed remainder, is the sequential one |
| DoallTask.PeriodicMatchesIff | src/core/doall/src/DOALL_chunking.cpp:244-263 | that bound is exact: the emitted value is right for every variable and iteration exactly up to it |
| DoallTask.LargePeriod | src/core/doall/src/DOALL_chunking.cpp:244-263 | beyond the bound a period stands for a negative number and the variable starts again too early, in the iteration given |
| DoallTask.TasksCoverLoop | src/core/doall/src/DOALL_chunking.cpp:596-703 | over all tasks every body index runs once and every guarded header index once |
| DoallReduction.ReducingTask | src/core/doall/src/DOALL_chunking.cpp:448-586 | a task's private copy holds the contributions of its whole iterations, and of the last header exactly if that is its own |
| DoallReduction.ExitValue | src/core/doall/src/DOALL_chunking.cpp:531-557 | the exit block's selection between header PHI and producer is right |
| DoallReduction.CombinePartials | src/core/parallelization_technique/src/ParallelizationTechnique.cpp:253-300 | the private copies of the threads used are combined in turn with the initial value |
| DoallReduction.ReductionIsSequential | src/core/parallelization_technique/src/ParallelizationTechnique.cpp:253-300 | for any commutative monoid, task count and chunk size the combination equals the sequential result, the last header included |
| DoallReduction.ParallelReduction | src/core/parallelization_technique/src/ParallelizationTechnique.cpp:1318-1405 | the whole: tasks from the identity, selection, combination; equal to the sequential loop |
| DoallRuntime.GrantIsInRange | src/core/runtime/Parallelizer_utils.cpp:1123-1138 | at least one core, at most those asked for (or one) |
| DoallRuntime.GrantIs | src/core/runtime/Parallelizer_utils.cpp:1129-1133 | the grant for every counter and request |
| DoallRuntime.GrantRespectsIdleCores | src/core/runtime/Parallelizer_utils.cpp:1129-1133 | a grant stays within the idle cores exactly if the counter is not negative or at most one core is asked for; a negative counter grants everything |
| DoallRuntime.SameModulo | src/core/runtime/Parallelizer_utils.cpp:1134-1146 | the conversions between the signed counter and unsigned requests keep the value modulo 2^32 |
| DoallRuntime.NoelleRuntime.ReserveCores | src/core/runtime/Parallelizer_utils.cpp:1123-1138 | grants what is asked for if that many cores are idle, all idle ones if they are fewer, at least one; a negative counter reads as a huge number of idle cores; the new counter in 32 bits |
| DoallRuntime.NoelleRuntime.ReleaseCores | src/core/runtime/Parallelizer_utils.cpp:1140-1153 | the new counter, in 32 bits |
| DoallRuntime.NoelleRuntime.GetDOALLArgs | src/core/runtime/Parallelizer_utils.cpp:1057-1114 | first available block that is large enough, else a fresh one; all its end locks are held and its slots numbered |
| DoallRuntime.NoelleRuntime.ReleaseDOALLArgs | src/core/runtime/Parallelizer_utils.cpp:1116-1121 | only the block's availability changes, and the pool stays in order exactly if the block is quiet |
| DoallDispatch.StepKeepsInv | src/core/runtime/Parallelizer_utils.cpp:290-383 | every step of any number of concurrent dispatches and of their tasks keeps the pool invariant |
| DoallDispatch.BlocksAreNotShared | src/core/runtime/Parallelizer_utils.cpp:318-383 | no block serves two dispatches, and every available block is quiet: locks held, nothing running, slots numbered |
| DoallDispatch.ReturnsAfterAllTasks | src/core/runtime/Parallelizer_utils.cpp:324-377 | a dispatch returns only when each of its n task instances has run and returned exactly once with its own arguments, also on a larger block |
| DoallDispatch.NoDeadlock | src/core/runtime/Parallelizer_utils.cpp:366-369 | while a dispatch is under way something other than a new dispatch can happen |
| DoallDispatch.CoresAreConserved | src/core/runtime/Parallelizer_utils.cpp:1123-1153 | idle plus granted cores equals the maximum modulo 2^32 in every state of every run |
| DoallDispatch.AllCoresComeBack | src/core/runtime/Parallelizer_utils.cpp:374-375 | when all dispatches have returned the counter is the maximum |
| DoallDispatch.OversubscribedAfterTwo | src/core/runtime/Parallelizer_utils.cpp:1129-1133 | once two dispatches have taken all cores and the one core everybody gets, the third gets whatever it asks for |
| DswpPipeline.OpsAreInOrder | src/core/dswp/src/Queue.cpp:393-469 | the code of a stage holds, once each and in the order of the body, its own and its cloned instructions, its pops and pushes, and every branch that leaves the loop, and nothing else |
| DswpPipeline.CodeIsInProgramOrder | src/core/dswp/src/CFG.cpp:26-59 | instructions and branches that leave the loop stand in the code of a stage as in the program |
| DswpPipeline.PopStartsBlock | src/core/dswp/src/Queue.cpp:393-431 | a pop stands behind the PHI nodes of the producer's block and before everything that follows them |
| DswpPipeline.PushFollowsProduction | src/core/dswp/src/Queue.cpp:433-469 | between production and push stands nothing but other pushes of the value, or the remaining PHI nodes of the block if the value is one |
| DswpPipeline.ForwardFollowsPop | src/core/dswp/src/Queue.cpp:433-469 | a stage that pushes on what it popped does so before any further work |
| DswpDeterminism.StepKeepsInv | src/core/dswp/src/Queue.cpp:393-469 | every operation of every stage keeps: a stage has the original body's values for all it knows, those of this iteration where it has come past them; what was pushed into a queue is what was popped and then its contents; nobody is past the end of the loop |
| DswpDeterminism.InstructionsComputeSequentially | src/core/dswp/src/CFG.cpp:26-59 | whatever the schedule, an instruction computes in its stage what it computes in the original body in that iteration |
| DswpDeterminism.AllStagesDecideAlike | src/core/dswp/src/Queue.cpp:155-202 | whatever the schedule, a stage takes a branch that leaves the loop exactly when the original loop takes it in that iteration |
| DswpDeterminism.StagesComputeSequentially | src/core/dswp/src/Queue.cpp:393-469 | under every schedule a stage that starts iteration i has, for all it knows, the values of the original loop at that point |
| DswpDeterminism.NoDeadlock | src/core/dswp/src/Queue.cpp:393-469 | no schedule gets stuck before all stages have left |
| DswpDeterminism.RunsAreBounded | src/core/dswp/src/Queue.cpp:393-469 | if the loop ends, every schedule is bounded by the operations of all stages up to its last iteration |
| DswpDeterminism.EndsSequentially | src/core/dswp/src/Queue.cpp:155-202 | when all stages have left, the original loop ends too, each stage has the values with which it ends, at the branch where it is left, and all queues are empty |
| DswpStages.Dswp.constructor | src/core/dswp/src/Pipeline.cpp:26-76 | one stage per set of the partition, in order, and the stage of every SCC |
| DswpStages.Dswp.CloneAncestors | src/core/dswp/src/Pipeline.cpp:82-110 | the walk finds exactly the clonable SCCs a stage depends on, directly or not |
| DswpStages.Dswp.AddClonableSCCsToStages | src/core/dswp/src/Pipeline.cpp:78-111 | for every stage |
| DswpStages.Dswp.IsCompleteAndValidStageStructure | src/core/dswp/src/Pipeline.cpp:113-145 | true exactly if no SCC of a stage is in, or cloned in, an earlier one and every SCC that cannot be cloned is somewhere |
| DswpStages.Dswp.RegisterQueue | src/core/dswp/src/Queue.cpp:28-86 | the queue for this producer and these stages is found or created, has exactly its old consumers and this one, stays unique, and is filed with both stages; all other queues are as before |
| DswpStages.Dswp.UniqueAfter | src/core/dswp/src/Queue.cpp:40-62 | no two queues carry the same producer between the same stages |
| DswpStages.Dswp.CollectDataAndMemoryQueueInfo | src/core/dswp/src/Queue.cpp:256-309 | every data dependence that crosses into a stage, or into what is cloned there, gets a queue, and nothing else does; the consumers of a queue are exactly the targets of such dependences |
| DswpStages.Dswp.CollectTransitivelyControlledTasks | src/core/dswp/src/Queue.cpp:206-254 | exactly the other stages in which something depends on the branch, directly or not |
| DswpStages.Dswp.CollectControlQueueInfo | src/core/dswp/src/Queue.cpp:88-204 | the condition of every branch that is not cloned gets a queue to each stage that needs it, for a branch that leaves the loop to all others, with exactly these branches as consumers, and nothing else does |
| DswpStages.Dswp.AreQueuesAcyclical | src/core/dswp/src/Queue.cpp:311-341 | true exactly if every queue leads to a later stage |
| DswpStages.StagesAreSelfContained | src/core/dswp/src/Queue.cpp:256-309 | every data input of every SCC that runs in a stage is produced there, cloned there, or arrives through a queue |
| DswpStages.StagesAscend | src/core/dswp/src/Pipeline.cpp:44-57 | along dependence chains, through clonable SCCs too, stages do not go down |
| DswpStages.DataQueuesGoForward | src/core/dswp/src/Queue.cpp:311-341 | with a topological stage order every data queue leads to a strictly later stage |
| DswpStages.DeciderIsFirst | src/core/dswp/src/Queue.cpp:155-202 | if all queues lead forward, an exit condition is computed in the first stage |
| DswpStages.AllQueuesForwardIff | src/core/dswp/src/DSWP.cpp:260-262 | with a topological stage order all queues, of data and of conditions, lead forward exactly if the loop is left by decisions of the first stage |
| DswpStages.Assemble | src/core/dswp/src/DSWP.cpp:246-262 | stages, clones, data queues and control queues composed: queues exist where they are needed and only there, and the same exact condition for all of them leading forward |
| DswpBuild.PlanIsWired | src/core/dswp/src/CFG.cpp:26-59 | every stage gets all operands and conditions of what it runs, pops and pushes, from itself or through queues from earlier stages |
| DswpBuild.PipelineRunsOn | src/core/dswp/src/DSWP.cpp:291-355 | the pipeline generated from these structures gets stuck under no schedule, and if the loop ends every schedule is bounded |
| DswpBuild.PipelineComputesLoop | src/core/dswp/src/DSWP.cpp:291-355 | when all its stages have left, the loop ends, every instruction that is not cloned has in its stage the value with which it ends, and the queues are empty |
| DswpBuild.Parallelize | src/core/dswp/src/DSWP.cpp:246-262 | the compiler's steps end in such a plan, with all queues leading forward |
| HeuristicLatency.InvocationLatency.LatencyPerInvocation | src/core/heuristics/src/InvocationLatency.cpp:56-85 | the cost of the most expensive stage with its clones plus the queues, in 64 bits, whatever was memoised before |
| HeuristicLatency.LatencyIsUnique | src/core/heuristics/src/InvocationLatency.cpp:32-54 | the cost depends on the sets only, not on the order of the walk or the caches |
| HeuristicLatency.OneMoreQueue | src/core/heuristics/src/InvocationLatency.cpp:79-84 | one more value that crosses between stages costs one more queue |
| HeuristicLatency.StageCostCountsClones | src/core/heuristics/src/InvocationLatency.cpp:61-77 | the cost of a stage is that of all SCCs on its core, those cloned there included |
| MergePartition.MergedIsPartition | src/core/heuristics/src/PartitionCostAnalysis.cpp:96-98 | merging keeps a partition of the same SCCs and lowers the number of sets |
| MergePartition.MergedTogetherIff | src/core/heuristics/src/PartitionCostAnalysis.cpp:96-98 | after a merge two SCCs share a stage exactly if they did before or both were in merged stages |
| MergePartition.MergeKeepsStages | src/core/heuristics/src/PartitionCostAnalysis.cpp:90-98 | merging two dependent sets with everything between them keeps the stages acyclic |
| MinMaxMerge.MinMaxSizePartitionAnalysis.CheckIfShouldMerge | src/core/heuristics/src/MinMaxSizePartitionAnalysis.cpp:26-77 | after each check the candidate is the cheapest merge so far, the smallest of the equally cheap ones; none once there are no more sets than cores |
| MinMaxMerge.MinMaxSizePartitionAnalysis.TraverseAllPartitionSubsets | src/core/heuristics/src/PartitionCostAnalysis.cpp:54-81 | the walk from the roots checks every dependence of the partition |
| MinMaxMerge.MinMaxSizePartitionAnalysis.AllChecked | src/core/heuristics/src/PartitionCostAnalysis.cpp:54-81 | because an acyclic partition is reached from its roots |
| MinMaxMerge.MinMaxSizePartitionAnalysis.MergeCandidateSubsets | src/core/heuristics/src/PartitionCostAnalysis.cpp:90-103 | merges exactly if there are more sets than cores and a dependence; what it merges was the least candidate; the number of sets strictly drops |
| MinMaxMerge.MinMaxSizePartitionAnalysis.CandidateIsCheapest | src/core/heuristics/src/MinMaxSizePartitionAnalysis.cpp:26-77 | no merge of two dependent sets is cheaper than the one taken, and none as cheap has fewer instructions |
| MinMaxMerge.MinMaxSizePartitionAnalysis.MinMaxMergePartition | src/core/heuristics/src/Heuristics.cpp:60-69 | the result comes from rounds that each merge the least candidate and run only while there are more sets than cores and a dependence; it is a coarser partition of the same SCCs into acyclic stages |
| InlinerOrder.Inliner.CollectFnGraph | src/core/inliner/src/Inliner.cpp:572-609 | exactly the functions main can reach, each with what it calls, without repetition and in the order of first calls, and parents that mirror children |
| InlinerOrder.FirstsInOrder | src/core/inliner/src/Inliner.cpp:585-600 | first calls: every function called, once, in the order of first occurrence |
| InlinerOrder.Inliner.CollectInDepthOrderFns | src/core/inliner/src/Inliner.cpp:667-732 | terminates; indices and functions are mutual inverses on the reachable functions; every function that is no entrance comes after all its callers and got its index breadth first, at a call by a function with a lower index, in the order of these calls; the entrances are a function of the graph alone |
| InlinerOrder.Inliner.MarkEntrances | src/core/inliner/src/Inliner.cpp:716-727 | the functions left over get the next indices, in the order in which they were deferred first, and are recorded as entrances |
| InlinerOrder.Inliner.DeferredIsBorder | src/core/inliner/src/Inliner.cpp:711-728 | what is left over in a round is exactly what lies below a recursive chain and is called from outside |
| InlinerRecursion.EntrancesAreBelowCycles | src/core/inliner/src/Inliner.cpp:711-728 | every entrance is on or below a recursive chain that avoids main |
| InlinerRecursion.NoEntrancesIffNoCycles | src/core/inliner/src/Inliner.cpp:658-665 | there are no entrances exactly if no recursive chain avoids main |
| InlinerRecursion.TopologicalIffAcyclic | src/core/inliner/src/Inliner.cpp:658-665 | every caller precedes what it calls exactly if the reachable program has no recursion |
| InlinerRecursion.CyclesHaveEntrances | src/core/inliner/src/Inliner.cpp:711-728 | every recursive chain that avoids main contains an entrance |
| InlinerRecursion.EntranceWithoutRecursion | src/core/inliner/src/Inliner.cpp:711-715 | a call graph in which a function that calls nothing is recorded as an entrance and precedes a caller |
| InlinerRecursion.EntrancesAreRecursiveIff | src/core/inliner/src/Inliner.cpp:711-715 | all entrances are recursive exactly if in no round a function that is not recursive is called both from what lies below the remaining chains and from elsewhere |
| InlinerRecursion.OneCallerIsEnough | src/core/inliner/src/Inliner.cpp:711-715 | so they are if every function that is not recursive has one caller |
| PlannerSavings.Planner.Visit | src/core/parallelization_planner/src/LoopEvaluation.cpp:62-115 | the post-order visit gives every considered loop its value and leaves the rest of the map alone |
| PlannerSavings.Planner.EvaluateSavings | src/core/parallelization_planner/src/LoopEvaluation.cpp:52-126 | the result is the value of the root, in 64 bits |
| PlannerSavings.WrappedIsValueIff | src/core/parallelization_planner/src/LoopEvaluation.cpp:86-108 | the 64-bit result is the true value exactly if the true value fits |
| PlannerSavings.ValueIsUpperBound | src/core/parallelization_planner/src/LoopEvaluation.cpp:62-126 | no choice of non-nested visible loops saves more than the value |
| PlannerSavings.ValueIsAttained | src/core/parallelization_planner/src/LoopEvaluation.cpp:62-126 | some choice saves exactly the value |
| PlannerSavings.AllConsideredIsOptimal | src/core/parallelization_planner/src/LoopEvaluation.cpp:34-39 | with all loops considered the value is the maximum over all sets of pairwise non-nested loops |
| PlannerSavings.FilteredIsOptimalIff | src/core/parallelization_planner/src/LoopEvaluation.cpp:41-55 | with a filter it is the bound for all savings exactly if no considered loop lies inside one that is not considered |
| PlannerSavings.ParallelizeLoops | src/core/parallelizer/src/Parallelizer_loops.cpp:110-173 | a loop that could be parallelized is skipped exactly if it shares a basic block with one that comes before it in the order and is taken; the loops taken share none |
| PlannerSavings.GreedyWithinEstimate | src/core/parallelizer/src/Parallelizer_loops.cpp:110-173 | the loops taken are pairwise non-nested, so their total never exceeds the planner's value |

## Left out

- HelixCritical.NoDeadlock: the mode is never called; descending nested waits are sufficient, not necessary, as a single core, or a larger segment around every ascending nest, gets by without (so for HelixCritical.CriticalSections).
- HelixFrontier.SequentialSegment.constructor: terminators of blocks that return from the function are accepted as further exits; that an entry precedes them is not claimed, as no iteration that goes on passes them.
- HelixPlacement.PlacementRefinesPrologueLoop: the loop is left by branches of the prologue only, and a signal of another segment at such a branch is taken to come before the exit block's operations.
- DswpBuild.PlanIsWired: takes as given that every stage depends on every branch that can leave the loop, as all that executes again after it does; `DswpStages.AllQueuesForwardIff` needs no such premise.
- DswpDeterminism.EndsSequentially: instructions of inner loops, which execute several times in an iteration of the loop, are not modelled.
- DoallTask.ChunkedTask: claims the values of periodic variables for periods up to half the range of their type and iterations below 2^63 (so does DoallTask.HelixCore); the first bound is exact by `DoallTask.PeriodicMatchesIff`.
- DoallReduction.ParallelReduction: operators are exact and associative; floating-point rounding is not modelled.
- MinMaxMerge.MinMaxSizePartitionAnalysis.TraverseAllPartitionSubsets: the sets a merge takes in come from NOELLE's partition graph and are taken to be those on paths between the two ends.
- HelixSpill.DefineFrontier: the nearest common dominator used for PHI users is taken as the block of the user.
- PlannerSavings.ParallelizeLoops: whether a loop can be parallelized is given per loop and does not depend on what was done before.
- LLVM IR construction, NOELLE's dependence graphs, SCCs, dominator trees and environment builder: used through what the callers need from them.
- The VIRGIL thread pool, the lock-free queues and weak memory: tasks run eventually, queues are FIFO.
- Selection of the last iteration for live-outs that are not reduced, and the peeled last iteration of HELIX: they rest on NOELLE predicates that are not part of this model.
- Inner loops in the DSWP pipeline, memory synchronisation queues (the source asserts that there are none) and CFG trimming.
- Loop hoisting of the inliner, profiling thresholds, printers, pass registration and options.
- The helper threads that prefetch HELIX locks: they are not started.
