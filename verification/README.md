# The core of Vital, verified

Vital is a symbolic executor built on KLEE. It runs LLVM bitcode on expressions instead of
values, forks a state at every undecided branch, shares memory between states until one of
them writes, and chooses what to run next from a process tree, from distances to uncovered
code, and from seeds. This project models the parts of it on which everything else rests
and proves what they promise.

| file | what it models |
|---|---|
| Arithmetic, Exprs, Solvers | bit-vector expressions with their meaning under an assignment, meaning-preserving factories, and the solver as a sound oracle that may give no answer |
| ByteOrder, ObjectStates | an object's bytes: the concrete store, the caches, the update list, and their lazy flushing |
| AddressSpaces, MemoryRuns | copy-on-write address spaces, and whole runs of forks, binds, unbinds, writes and reads |
| Resolution, MemoryOps | which objects a symbolic pointer may lie in, and the load or store that forks over them |
| Merging | the merge of two states |
| Switching | the guards of a symbolic switch and the states it branches into |
| Distances, UncoveredDistances, DistanceLimits | the interprocedural distances to a return and to uncovered code, their sum over a call stack, and when they fit their fields |
| ProcessTree | the process tree, its searcher tags, the random path searcher, visits and rewards |
| PartialEvaluation, ExprReads, Seeds | partial evaluation under a seed, the reads of an expression, and the patching of a seed |
| ImpliedValues | the values of reads implied by the value of an expression |
| CallPaths | call-path nodes, their summaries and the call-site table |
| Unwinding | two-phase unwinding, after section 1.3 of the Itanium C++ ABI: Exception Handling |
| KTests | the test-file writer and reader |
| Varargs | the layout of variadic arguments, after section 3.5.7 of the System V AMD64 ABI |

The memory of a state is given twice: as the code keeps it, and as a reference in which every
fork copies every byte (`MemoryRuns.DeepStep`). The operations that change memory (a merge, a
load or store, a switch, a run) all carry a `Shadow`, the reference memory of every state,
and promise to stay in step with it.

## Findings

Some promises of the code hold only up to a bound, or not at all. Each is stated with the exact
condition.

- Copy on write uses a 32-bit key that grows with every fork. Isolation holds for every run in
  which no space takes part in 2^32 forks, its ancestors' counted (`MemoryRuns.Run`), so for every
  run with fewer than 2^32 forks in all (`MemoryRuns.FewForks`). For every number of forks from
  2^32 on there is a run that loses it (`MemoryRuns.FullTurn`).
- The branch that reaches one resolution does not compare against the cap, although the
  documentation promises one: with a cap of one the list has two entries or more if and only if
  two objects are possible (`Resolution.CapOfOne`).
- The distance to uncovered code inside a callee is read from the function's own statistics slot,
  which is not the slot of its first instruction and stays zero. So ways into callees are not
  seen (`UncoveredDistances.CalleeMissed`); the table is right for all ways if and only if every
  way from a call into a callee is matched by one no longer that stays out of the callees. With
  the slots shared it would always be right (`UncoveredDistances.ComputeUncovered`).
- The shortest path through a function is kept in 32 bits and compared with a 64-bit distance. A
  program of 31 functions and 124 instructions, each function calling the one below it twice, has
  none of fewer than 2^33 - 4 instructions through its topmost one, and the loop never ends on it:
  every round changes the table (`DistanceLimits.TowerNever`). The same holds for every program
  with an uncalled function that is too long while the others have limits below 2^32
  (`DistanceLimits.NeverQuiet`). With thirty functions the distances are exact
  (`DistanceLimits.TowerFits`), as they are for every program that has such limits for all
  functions (`DistanceLimits.LimitsFit`), recursive ones among them
  (`DistanceLimits.RecursiveFits`); in general the loop ends with nothing cut off if and only if
  the relaxation without widths stays within the fields (`Distances.ComputeReturns`).
- After it has fixed the bytes that a condition reads directly, the seed patcher accepts the seed
  if the evaluated condition may be true. The evaluator keeps a read whose index the seed does
  not determine, with the array free, so that a seed may be accepted unpatched under which the
  condition is impossible (`Seeds.SeedMissed`, `Seeds.PatchMissed`). If the seed determines every
  index, the test is exact (`Seeds.TestExact`) and the condition is possible under the patched
  seed (`Seeds.SeedInfo.PatchSeed`). If every index is determined or free, the test accepts no
  seed wrongly on any path if and only if keeping the free reads never makes the condition true
  where the seed makes it false (`Seeds.TestAlwaysRight`).
- An accepted seed may contradict the path it is carried along, although it fitted it before:
  only the bytes that the condition reads were fixed (`Seeds.PatchBroken`). It fits it still if
  the condition reads at constant places that the path does not tie to the other bytes, and a
  seed with which the path can take the condition is not changed at all (`Seeds.SeedInfo.PatchSeed`).
- An exception that a landing pad raises while it cleans up for another one makes the executor
  forget that one, even if the pad catches its own: the state fails when the pad resumes. After a
  pad has run, the cleanup goes on if and only if the pad raised nothing
  (`Unwinding.State.FinishPad`), and an exception reaches its handler if and only if no pad on
  the way raises anything (`Unwinding.State.Throw`, `Unwinding.State.ResumeAfterThrow`). A stack of
  three frames on which it happens is in `Unwinding.LoseException`.
- The summary of the root of the call paths is not reset. It is the sum over the tree if and only
  if it began as the root's own statistics, so after a second call only if there is nothing below
  the root (`CallPaths.CallPathManager.GetSummaryStatistics`, `CallPaths.SummarizeTwice`).
- An explicit alignment of a variadic argument holds for its offset. It holds for its address,
  whatever area is allocated, if and only if it divides the alignment of the area, which is eight
  bytes, or sixteen if a wide argument asks for nothing (`Varargs.AddressAligned`).
- Visit counts are 32-bit: a node's count dominates the sum of its children's as long as fewer
  than 2^32 rewards were propagated (`ProcessTree.VisitsDominate`). For every number from 2^32 on
  there is a run after which it does not (`ProcessTree.VisitsTurn`).
- The root pointer of the tree leads to a node of the tree if and only if a state is left.
  Removing the last state leaves it on a deleted node, and no searcher's tag is on it then
  (`ProcessTree.RootLive`).

## Model

| member | source | states |
|---|---|---|
| Exprs.EvalRange | vital-src/include/klee/Expr/Expr.h:96-130 | a well-formed expression has a positive width and never evaluates outside it |
| Exprs.Create | vital-src/lib/Expr/Expr.cpp:606-750 | a factory returns a well-formed node of the width and the meaning asked for, and folds constants |
| Solvers.Solver.MayBeTrue | vital-src/lib/Core/TimingSolver.cpp:75-82 | an answer is right: true exactly when some assignment of the constraints makes the expression true; a solver that answers gives one |
| Solvers.Solver.MustBeTrue | vital-src/lib/Core/TimingSolver.cpp:49-68 | an answer is true exactly when every assignment of the constraints makes the expression true |
| Solvers.Solver.MustBeFalse | vital-src/lib/Core/TimingSolver.cpp:70-73 | an answer is true exactly when no assignment of the constraints makes the expression true |
| Solvers.Solver.GetValue | vital-src/lib/Core/TimingSolver.cpp:93-113 | a value the expression really has under some assignment of the constraints |
| Solvers.Solver.Evaluate | vital-src/lib/Core/TimingSolver.cpp:27-47 | the three verdicts: always true, never true, or both possible |
| ByteOrder.LoadOfStore | vital-src/lib/Core/Memory.cpp:473-549 | round trip: a load of the width just stored, at the same offset, means the stored value, in both byte orders |
| ByteOrder.LoadFrame | vital-src/lib/Core/Memory.cpp:473-489 | a load depends on the bytes it covers and on nothing else |
| ByteOrder.StoreByteAtMeaning | vital-src/lib/Core/Memory.cpp:423-444 | storing a byte at a symbolic offset means, under each assignment, storing it at the concrete offset |
| ByteOrder.StoreAtMeaning | vital-src/lib/Core/Memory.cpp:491-516 | a multi-byte store at a symbolic offset means, under each assignment, the store at the concrete offset, and leaves all other bytes alone |
| ObjectStates.Rebuild | vital-src/lib/Core/Memory.cpp:148-197 | collecting the constant writes into a constant-array root keeps the meaning of the update list at every index |
| ObjectStates.ObjectState.constructor | vital-src/lib/Core/Memory.cpp:80-98 | a fresh object with the invariants, every byte of which evaluates to zero under every assignment |
| ObjectStates.ObjectState.Symbolic | vital-src/lib/Core/Memory.cpp:100-112 | an object whose bytes are the bytes of a symbolic array |
| ObjectStates.ObjectState.Copy | vital-src/lib/Core/Memory.cpp:114-132 | a copy with the same bytes that owns nothing yet |
| ObjectStates.ObjectState.MakeSymbolic | vital-src/lib/Core/Memory.cpp:225-235 | no byte is concrete, cached or unflushed any more |
| ObjectStates.ObjectState.GetUpdates | vital-src/lib/Core/Memory.cpp:148-197 | a root exists afterwards, and no byte has changed its meaning |
| ObjectStates.ObjectState.FlushRangeForRead | vital-src/lib/Core/Memory.cpp:265-285 | the range is flushed, the caches stay, and no byte has changed its meaning |
| ObjectStates.ObjectState.FlushRangeForWrite | vital-src/lib/Core/Memory.cpp:287-316 | the range is flushed and its caches dropped, and no byte has changed its meaning |
| ObjectStates.ObjectState.Read8 | vital-src/lib/Core/Memory.cpp:368-379 | a byte read at a constant offset means the byte there |
| ObjectStates.ObjectState.Read8At | vital-src/lib/Core/Memory.cpp:381-400 | a byte read at a symbolic offset means the byte at the offset, wherever it is in bounds |
| ObjectStates.ObjectState.Write8 | vital-src/lib/Core/Memory.cpp:402-409 | one byte changes to the constant, and the invariants stay |
| ObjectStates.ObjectState.Write8Expr | vital-src/lib/Core/Memory.cpp:411-421 | one byte changes to the expression, and the invariants stay |
| ObjectStates.ObjectState.Write8At | vital-src/lib/Core/Memory.cpp:423-444 | the bytes become those of a store at a symbolic offset, and the invariants stay |
| ObjectStates.ObjectState.Read | vital-src/lib/Core/Memory.cpp:473-489 | a multi-byte read at a constant offset means the load from the plain byte array |
| ObjectStates.ObjectState.ReadAt | vital-src/lib/Core/Memory.cpp:446-471 | a multi-byte read at any offset means the load from the plain byte array, wherever it is in bounds |
| ObjectStates.ObjectState.Write | vital-src/lib/Core/Memory.cpp:518-573 | the plain byte array becomes that of the store, through both byte orders and all access widths |
| ObjectStates.ObjectState.WriteAt | vital-src/lib/Core/Memory.cpp:491-516 | the plain byte array becomes that of the store at a symbolic offset |
| ObjectStates.ObjectState.MakeConcrete | vital-src/lib/Core/Memory.cpp:216-223 | all bytes become the stored constants |
| ObjectStates.ObjectState.Initialize | vital-src/lib/Core/Memory.cpp:237-248 | every byte evaluates to the given value under every assignment |
| ObjectStates.ObjectState.FlushToConcreteStore | vital-src/lib/Core/Memory.cpp:199-214 | the store gets a value each known symbolic byte can have, whenever the solver answers and the path is feasible; no byte's meaning changes |
| AddressSpaces.AddressSpace.Copy | vital-src/lib/Core/AddressSpace.h:58-70 | both the copy and the original get a new key, so that neither owns what it held |
| AddressSpaces.AddressSpace.BindObject | vital-src/lib/Core/AddressSpace.cpp:25-29 | the object is bound and owned by this space |
| AddressSpaces.AddressSpace.GetWriteable | vital-src/lib/Core/AddressSpace.cpp:40-53 | the bound object if it is owned, or else an owned copy with the same bytes |
| AddressSpaces.Fork | vital-src/lib/Core/AddressSpace.h:68-69 | a copy joins the family, and the family stays isolated |
| AddressSpaces.Bind | vital-src/lib/Core/AddressSpace.cpp:25-29 | binding keeps the family isolated |
| AddressSpaces.Unbind | vital-src/lib/Core/AddressSpace.cpp:31-33 | unbinding keeps the family isolated |
| AddressSpaces.Write | vital-src/lib/Core/AddressSpace.cpp:40-53 | a write changes the writer's bytes as a store does and no other space's bytes |
| AddressSpaces.Read | vital-src/lib/Core/Memory.cpp:265-285 | a read may flush a shared object, and no space can tell |
| MemoryRuns.DoFork | vital-src/lib/Core/AddressSpace.h:68-69 | a fork stays in step with a deep copy |
| MemoryRuns.DoBind | vital-src/lib/Core/AddressSpace.cpp:25-29 | a bind stays in step with the reference |
| MemoryRuns.DoUnbind | vital-src/lib/Core/AddressSpace.cpp:31-33 | an unbind stays in step with the reference |
| MemoryRuns.DoWrite | vital-src/lib/Core/AddressSpace.cpp:40-53 | a write stays in step with the reference |
| MemoryRuns.DoRead | vital-src/lib/Core/Memory.cpp:446-471 | a read gives what the reference holds and changes nothing any space can see |
| MemoryRuns.Run | vital-src/lib/Core/Executor.cpp:5226-5253 | over every legal run in which no lineage of a space reaches 2^32 forks or snapshots, each space and each read equals the deep-copy reference |
| MemoryRuns.FewForks | vital-src/lib/Core/AddressSpace.h:58-69 | a run with fewer than 2^32 forks in all has no such lineage |
| MemoryRuns.FullTurn | vital-src/lib/Core/AddressSpace.h:58-69 | for every number of forks from 2^32 on, a run in which a write by the parent shows up in a child |
| Resolution.BoundsCheckPointerMeaning | vital-src/lib/Core/Memory.h:121-135 | the one-byte check is true exactly when the pointer lies in the object, the base alone for an empty one |
| Resolution.BoundsCheckAccessMeaning | vital-src/lib/Core/Memory.h:124-144 | the access check is true exactly when all bytes of the access lie in the object |
| Resolution.ResolveAddress | vital-src/lib/Core/AddressSpace.cpp:57-75 | a constant address gives the object it lies in, and none exactly when there is none |
| Resolution.CheckPointerInObject | vital-src/lib/Core/AddressSpace.cpp:172-206 | the object is added exactly when the pointer may lie in it; complete only when it must; incomplete only for the cap or because the solver gave no answer |
| Resolution.SearchDown | vital-src/lib/Core/AddressSpace.cpp:245-268 | stopping the backward scan early misses no object; without a wall-clock limit and with a solver that answers it does not time out |
| Resolution.SearchUp | vital-src/lib/Core/AddressSpace.cpp:270-293 | stopping the forward scan early misses no object; without a wall-clock limit and with a solver that answers it does not time out |
| Resolution.Resolve | vital-src/lib/Core/AddressSpace.cpp:208-293 | when complete, the list holds without duplicates exactly the objects the pointer may lie in; a cap of two or more is never exceeded; it is incomplete only if the cap is reached, the wall-clock limit passes or the solver gives no answer |
| Resolution.ResolveOne | vital-src/lib/Core/AddressSpace.cpp:77-170 | an object the pointer may lie in, and none only when no object is possible; a solver that answers gives a result |
| Resolution.CapOfOne | vital-src/lib/Core/AddressSpace.cpp:172-206 | a complete list exceeds a cap of one if and only if two objects are possible |
| Resolution.CapOfOneExample | vital-src/lib/Core/AddressSpace.cpp:172-206 | a pointer and two objects for which the cap of one is exceeded |
| MemoryOps.Fork | vital-src/lib/Core/Executor.cpp:1054-1250 | a condition is decided, or one state takes it and a copy takes its negation; no timeout with a solver that answers |
| MemoryOps.Perform | vital-src/lib/Core/Executor.cpp:4653-4673 | a load gives what the object holds in the register, a store changes it and leaves every register alone, and a read-only object is an error |
| MemoryOps.StoreLands | vital-src/lib/Core/Executor.cpp:4653-4673 | on every assignment that lands in the object, its bytes mean those of the store at the concrete offset, and no other object has changed |
| MemoryOps.TryObject | vital-src/lib/Core/Executor.cpp:4689-4714 | the path is split into the accesses that lie in the object and the rest; registers change by loads on the object only; no timeout with a solver that answers |
| MemoryOps.CandidatesSuffice | vital-src/lib/Core/Executor.cpp:4679-4720 | although candidates come from a one-byte check, an access that misses all of them misses every object |
| MemoryOps.TryAll | vital-src/lib/Core/Executor.cpp:4686-4718 | after all candidates each assignment is in the state of its object or in the unbound state; a store and the unbound state keep the register; no timeout with a solver that answers |
| MemoryOps.ExecuteMemoryOperation | vital-src/lib/Core/Executor.cpp:4603-4753 | every assignment of the path ends in exactly one state: the access on the unique object that holds all its bytes, or the pointer error exactly when no object does; a store and the pointer error keep the register; a timeout only with a wall-clock limit or a solver that gives no answer |
| Merging.Conjunction | vital-src/lib/Core/ExecutionState.cpp:327-335 | the conjunction of a suffix is true exactly when each of its conditions is |
| Merging.MergedPath | vital-src/lib/Core/ExecutionState.cpp:251-379 | an assignment satisfies the common constraints and the disjunction if and only if it satisfied one of the two paths |
| Merging.ExecutionState.MergeStack | vital-src/lib/Core/ExecutionState.cpp:340-355 | each register present on both sides becomes a select between the two |
| Merging.MergeObject | vital-src/lib/Core/ExecutionState.cpp:357-372 | each byte of a mutated object becomes a select between the two |
| Merging.FindMutated | vital-src/lib/Core/ExecutionState.cpp:297-325 | the objects are the same on both sides, and the mutated ones are exactly those whose state differs |
| Merging.ExecutionState.Merge | vital-src/lib/Core/ExecutionState.cpp:221-382 | succeeds exactly on equal pc, symbolics, call frames and objects; a failure changes nothing; a success has the union of both paths and reads as A on A's assignments and as B on those that are only B's, in registers and in memory; call frames, and registers not set on both sides, are A's |
| Switching.TargetHit | vital-src/lib/Core/Executor.cpp:2402-2418 | a concrete switch goes to the block of the case that has the value |
| Switching.TargetMiss | vital-src/lib/Core/Executor.cpp:2402-2418 | and to the default block if no case has it |
| Switching.AddCase | vital-src/lib/Core/Executor.cpp:2438-2479 | one case: folded into the default, or excluded from it and or-ed into its block's guard, or dropped when infeasible; done whenever the solver answers |
| Switching.BuildGuards | vital-src/lib/Core/Executor.cpp:2420-2496 | on every assignment of the path exactly one guard is true, and its block is the one the concrete switch takes; each guard is possible; no block twice; done whenever the solver answers |
| Switching.ToUnique | vital-src/lib/Core/Executor.cpp:1336-1357 | the expression itself or the one constant it can be on the path; the constant whenever there is one and the solver answers |
| Switching.Branch | vital-src/lib/Core/Executor.cpp:900-996 | each resulting state is the parent with only its own condition added and with the parent's memory; one picked condition when forking is inhibited |
| Switching.ExecuteSwitch | vital-src/lib/Core/Executor.cpp:2402-2519 | each assignment of the path goes on in exactly one feasible state, at the block the concrete switch jumps to; each state keeps the constraints and the register of the one it comes from, no other state appears or changes; done whenever the solver answers |
| Distances.BestThrough | vital-src/lib/Core/StatsTracker.cpp:918-933 | the cheapest crossing of an instruction cut to 32 bits, with zero for none; exact if and only if no candidate that was kept is cut |
| Distances.BestNext | vital-src/lib/Core/StatsTracker.cpp:935-948 | the least of the current value and the values offered by the successors, with zero as infinity; exact if and only if no sum leaves 64 bits |
| Distances.StepSound | vital-src/lib/Core/StatsTracker.cpp:915-963 | a visit keeps every entry the length of a path and shrinks the table, or finds the instruction settled |
| Distances.Relax | vital-src/lib/Core/StatsTracker.cpp:915-963 | a visit does what the relaxation with fields does, and what the one without does if and only if no value it writes is cut |
| Distances.LowerBound | vital-src/lib/Core/StatsTracker.cpp:911-965 | in a settled table no path is shorter than its entry |
| Distances.ComputeReturns | vital-src/lib/Core/StatsTracker.cpp:877-965 | the loop ends with nothing cut off if and only if the relaxation without widths stays within the fields, and each entry then is zero if there is no path to a return and otherwise the length of the shortest interprocedural one, as are the shortest paths of the functions |
| DistanceLimits.LimitsFit | vital-src/lib/Core/StatsTracker.cpp:911-965 | limits below 2^32 for groups of functions, one for each number of functions of the group through which a way is known, each bounding the crossing costs of every function of the group at the number before, imply that nothing is cut off |
| DistanceLimits.RecursiveFits | vital-src/lib/Core/StatsTracker.cpp:911-965 | a function that calls itself or another through one call has such limits |
| DistanceLimits.TowerFits | vital-src/lib/Core/StatsTracker.cpp:911-965 | up to thirty functions that call each other twice fit |
| DistanceLimits.NeverQuiet | vital-src/lib/Core/StatsTracker.cpp:953-964 | if an uncalled function has no way of fewer than 2^32 instructions and the others are limited, every round changes the table |
| DistanceLimits.TowerNever | vital-src/lib/Core/StatsTracker.cpp:953-964 | a program of 31 functions and 124 instructions on which the loop never ends |
| UncoveredDistances.BestCallee | vital-src/lib/Core/StatsTracker.cpp:1000-1020 | the least of the current value and the values in the slots of the defined callees; exact if and only if no sum leaves 64 bits |
| UncoveredDistances.SearchStepSound | vital-src/lib/Core/StatsTracker.cpp:993-1044 | a visit keeps every entry the length of a way to uncovered code and shrinks the table, or finds the instruction settled |
| UncoveredDistances.RelaxSearch | vital-src/lib/Core/StatsTracker.cpp:993-1044 | a visit takes the least of the current value and what callees and successors offer, exactly if no value is cut |
| UncoveredDistances.ComputeUncovered | vital-src/lib/Core/StatsTracker.cpp:968-1045 | the loop ends with nothing cut off if and only if the search without widths stays within the fields, with exact distances then: for all ways when slots are shared, for ways outside callees with the real slots, and for all ways then if and only if no way into a callee is shorter than all that stay out |
| UncoveredDistances.GainReached | vital-src/lib/Core/StatsTracker.cpp:1011-1019 | that condition on the program and its coverage says of the computed table that no call would improve by entering a callee |
| UncoveredDistances.CalleeMissed | vital-src/lib/Module/InstructionInfoTable.cpp:183-188 | a caller whose callee is uncovered at distance two, for which any exact table of the real slots says zero |
| DistanceLimits.SmallSearchFits | vital-src/lib/Core/StatsTracker.cpp:993-1045 | if the functions are below their field and there are fewer than 2^32 identifiers, nothing is cut off |
| UncoveredDistances.LeastNext | vital-src/lib/Core/StatsTracker.cpp:808-828 | one more frame: the least way out is the frame's own distance or its return distance plus the least way from after its call |
| UncoveredDistances.StackDistances | vital-src/lib/Core/StatsTracker.cpp:1047-1067 | the result is the length of the shortest way to uncovered code from the program counter, where leaving a frame leads to the instruction after the call that made it, and each frame records that of the stack once it has returned, with zero for none; exact if and only if no sum leaves 64 bits, as for every stack whose height times the largest distance is below 2^64 |
| ProcessTree.PTree.constructor | vital-src/lib/Core/PTree.cpp:36-39 | a tree of one leaf with all invariants |
| ProcessTree.PTree.GetNextId | vital-src/lib/Core/PTree.h:70-77 | three searchers at most |
| ProcessTree.PTree.Attach | vital-src/lib/Core/PTree.cpp:41-72 | the node becomes inner, the running state goes right with its tag, the new one left without, and all invariants stay |
| ProcessTree.PTree.Remove | vital-src/lib/Core/PTree.cpp:74-119 | the leaf and the nodes that led to nothing else are gone; with compression the node left with one child is spliced out unless no node is left, so that every inner node always has two children; all invariants stay |
| ProcessTree.SpliceFull | vital-src/lib/Core/PTree.cpp:97-118 | splicing out the one node with a single child leaves a tree in which every inner node has two |
| ProcessTree.PTree.Splice | vital-src/lib/Core/PTree.cpp:97-118 | the only child takes the place of its parent, with its tag |
| ProcessTree.PTree.Backpropagate | vital-src/lib/Core/Executor.cpp:3868-3877 | exactly the nodes from the given one to the root get one visit and the reward; without compression the root has one visit per call |
| ProcessTree.RandomPathSearcher.AddState | vital-src/lib/Core/Searcher.cpp:355-373 | the tag goes up to the first pointer that has it, and all tags are right again |
| ProcessTree.RandomPathSearcher.RemoveState | vital-src/lib/Core/Searcher.cpp:376-391 | the tag comes off up to the first node that leads to another state, and all tags are right again |
| ProcessTree.RandomPathSearcher.Update | vital-src/lib/Core/Searcher.cpp:352-393 | the searcher owns what it owned and the added states, less the removed ones, and nothing but tags changes |
| ProcessTree.TagMeaning | vital-src/lib/Core/PTree.h:21-27 | a pointer carries a searcher's tag if and only if a state of the searcher is at or below the node it leads to |
| ProcessTree.RandomPathSearcher.SelectState | vital-src/lib/Core/Searcher.cpp:324-349 | the random descent ends at a state of the searcher, the only one whose turns from the root, left or right wherever both sides have a state of the searcher, are the bits of the drawn 32-bit words, each bit used once from the highest down |
| ProcessTree.EveryState | vital-src/lib/Core/Searcher.cpp:324-349 | every state of the searcher is selected by some draws |
| ProcessTree.RandomPathSearcher.Empty | vital-src/lib/Core/Searcher.cpp:395-397 | true exactly when the searcher owns no state |
| ProcessTree.RootLive | vital-src/lib/Core/PTree.cpp:74-119 | the root pointer leads to a node of the tree if and only if a state is left, and carries no tag otherwise |
| ProcessTree.RootVisits | vital-src/lib/Core/Executor.cpp:3868-3877 | no node has more visits or reward than the root |
| ProcessTree.VisitsDominate | vital-src/lib/Core/PTree.h:40-50 | below 2^32 rewards a node's 32-bit count is at least the sum of its children's |
| ProcessTree.VisitsTurn | vital-src/lib/Core/PTree.h:40-50 | for every number of rewards from 2^32 on, a run after which the root's count is below the sum of its children's |
| PartialEvaluation.Evaluate | vital-src/lib/Expr/ExprEvaluator.cpp:14-107 | the evaluated expression means the same wherever the seed's bytes hold, is a constant if the seed determines it, and has exactly the meaning in which reads at known places are replaced and the others kept |
| PartialEvaluation.EvaluateRead | vital-src/lib/Expr/ExprEvaluator.cpp:14-37 | the same for a read at a known index: the byte the updates, the constants or the seed determine, or a read |
| PartialEvaluation.KnownMeaning | vital-src/lib/Expr/ExprEvaluator.cpp:14-68 | what the seed determines does not depend on the assignment |
| PartialEvaluation.ResolvedMeaning | vital-src/lib/Expr/ExprEvaluator.cpp:14-68 | where the seed determines every index, that meaning is the expression's own with the seed's bytes put over the assignment |
| PartialEvaluation.Substitutes | vital-src/lib/Expr/ExprEvaluator.cpp:14-107 | and so is the meaning of the evaluated expression |
| PartialEvaluation.SubstituteMeaning | vital-src/lib/Expr/ExprEvaluator.cpp:14-68 | the seed written over the arrays as updates gives an expression with the substituted meaning, whatever the indices are |
| PartialEvaluation.ConstIndicesResolved | vital-src/lib/Expr/ExprEvaluator.cpp:60-68 | constant indices of reads and updates are determined by every seed |
| ExprReads.FindReads | vital-src/lib/Expr/ExprUtil.cpp:19-69 | the result has each read that occurs in the expression, once, and nothing else; reads inside update lists if and only if these are searched |
| ExprReads.ReadsDecide | vital-src/lib/Expr/ExprUtil.cpp:19-69 | the bytes looked up by the reads found with update lists decide the value of any expression |
| Seeds.DirectReadsExact | vital-src/lib/Core/SeedInfo.cpp:69-84 | a place is read directly if and only if a path to a read of it, at a constant index and with any updates, avoids update lists |
| Seeds.FindDirectReads | vital-src/lib/Core/SeedInfo.cpp:69-84 | the places collected from the reads found are exactly those |
| Seeds.DirectReadsDecide | vital-src/lib/Core/SeedInfo.cpp:69-84 | the places a condition reads directly decide it, when its updates are constants and it has no other reads |
| Seeds.SeedInfo.PinByte | vital-src/lib/Core/SeedInfo.cpp:85-117 | a byte keeps its value if that is possible with what is required, and otherwise gets a possible one; done whenever the solver answers |
| Seeds.PinFixes | vital-src/lib/Core/SeedInfo.cpp:98-117 | a byte once fixed stays fixed under every later pin |
| Seeds.TestExact | vital-src/lib/Core/SeedInfo.cpp:119-126 | where the seed determines every index, the early test accepts exactly the seeds under which the condition is possible |
| Seeds.TestAccepts | vital-src/lib/Core/SeedInfo.cpp:119-126 | where every index is determined or free, the early test accepts exactly if some assignment of the path makes the condition true with the reads at undetermined places kept |
| Seeds.TestAlwaysRight | vital-src/lib/Core/SeedInfo.cpp:119-126 | where every index is determined or free, the test accepts no seed wrongly on any path if and only if the kept reads never make the condition true where the seed makes it false |
| Seeds.DirectEnough | vital-src/lib/Core/SeedInfo.cpp:86-126 | for a condition without other reads, fixing the direct ones is enough |
| Seeds.SeedInfo.PatchSeed | vital-src/lib/Core/SeedInfo.cpp:62-170 | the seed changes by the logged pins only, each possible and each change forced by the pins before it; the first are at the direct reads, and all bytes are pinned unless the test accepts; the condition is possible under the new seed if the seed determines every index, or if all bytes are pinned, when the path can take it with exactly these bytes; a seed with which the path can take it is not changed, and one that fits the path fits it still if the path does not tie the bytes read to the others; done whenever the solver answers |
| Seeds.PathKept | vital-src/lib/Core/SeedInfo.cpp:86-126 | if the path does not tie the bytes the condition reads to the others, a seed that fitted the path fits it still |
| Seeds.SeedKept | vital-src/lib/Core/SeedInfo.cpp:98-117 | a seed with which the path can take the condition is not changed |
| Seeds.PatchBroken | vital-src/lib/Core/SeedInfo.cpp:62-126 | a run of the patcher after which a seed that fitted its path contradicts it |
| Seeds.SeedMissed | vital-src/lib/Core/SeedInfo.cpp:119-126 | a seed and a condition with an undetermined index: the test accepts, and no assignment of the path makes the condition true under the seed |
| Seeds.PatchMissed | vital-src/lib/Core/SeedInfo.cpp:62-126 | a run of the patcher that leaves that seed as it was |
| ImpliedValues.ImpliedSound | vital-src/lib/Core/ImpliedValue.cpp:26-185 | every emitted pair holds under every assignment that gives the expression its value, and no assertion fails for a value it can have |
| ImpliedValues.ImpliedAlways | vital-src/lib/Core/ImpliedValue.cpp:40-157 | from reads under concatenation, extension, and addition, subtraction or xor with a constant, the value of every read is implied, whatever value is asked for |
| ImpliedValues.ImpliedComplete | vital-src/lib/Core/ImpliedValue.cpp:26-185 | if on the way to every read the value of each operation leaves its operands no choice, the value of every read is implied; for selections of constants, concatenation, extension, disjunction, conjunction of bits, and sums, differences, xor and equality with a constant |
| ImpliedValues.PairKnown | vital-src/lib/Core/ImpliedValue.cpp:128-150 | the value of a disjunction leaves its operands no choice exactly at zero, and that of a conjunction of bits exactly at one |
| ImpliedValues.EqualKnown | vital-src/lib/Core/ImpliedValue.cpp:159-180 | the value of a comparison with a constant leaves the operand no choice exactly if they are equal or single bits |
| CallPaths.CallPathManager.ComputeCallPath | vital-src/lib/Core/CallPathManager.cpp:65-76 | the node on the way up that has the pair, or else a new node |
| CallPaths.CallPathManager.GetCallPath | vital-src/lib/Core/CallPathManager.cpp:78-93 | a node with the pair, remembered as a child beside the others; a new one starts without statistics, count and children; no node gets a proper ancestor with its own pair |
| CallPaths.DepthBound | vital-src/lib/Core/CallPathManager.cpp:65-76 | a path is no deeper than the number of distinct pairs |
| CallPaths.CallPathManager.GetSummaryStatistics | vital-src/lib/Core/CallPathManager.cpp:48-63 | each summary below the root is the sum over its subtree, the root's exactly if it began as the root's own statistics, and each table entry counts every statistic below such a call exactly once, despite recursion |
| CallPaths.SummarizeTwice | vital-src/lib/Core/CallPathManager.cpp:48-63 | after a second call the root's summary is right if and only if nothing is below the root |
| Unwinding.State.UnwindToNextLandingpad | vital-src/lib/Core/Executor.cpp:1658-1765 | the search stops at the next pad that does more than clean up, passes over no such pad, and leaves the stack alone; the cleanup pops to the next pad above the handling frame |
| Unwinding.State.RaiseException | vital-src/lib/Core/SpecialFunctionHandler.cpp:462-487 | a search from the top, refused during a search |
| Unwinding.State.ReturnFromPersonality | vital-src/lib/Core/Executor.cpp:2228-2260 | a rejection goes on searching below, an acceptance starts the cleanup with that frame |
| Unwinding.State.EnterLandingPad | vital-src/lib/Core/Executor.cpp:3429-3467 | the selector is delivered in the handling frame only, and unwinding ends there |
| Unwinding.State.Resume | vital-src/lib/Core/Executor.cpp:3392-3427 | goes on cleaning up for the same exception, and fails otherwise |
| Unwinding.State.FinishPad | vital-src/lib/Core/Executor.cpp:3392-3427 | after a pad has run, the cleanup of the exception goes on if and only if the pad raised nothing, and the state fails at the resumption if the pad handled all it raised |
| Unwinding.State.RunPad | vital-src/lib/Core/SpecialFunctionHandler.cpp:462-487 | a pad that raises exceptions comes back if and only if each is handled inside it, and never with any unwinding information |
| Unwinding.State.Throw | vital-src/lib/Core/Executor.cpp:1658-1765 | a whole throw, from any state that is not in a search: the topmost accepting frame is found, the pads above it run in order with selector zero, and the handling frame stays and alone gets the selector, if and only if no pad on the way raises an exception of its own; otherwise exactly the pads down to the first that does are run; the missing-landingpad exit is never reached |
| Unwinding.State.ResumeAfterThrow | vital-src/lib/Core/Executor.cpp:3392-3427 | after any throw during a cleanup, handled or not, resuming the outer exception fails |
| Unwinding.ContainedExactly | vital-src/lib/Core/Executor.cpp:3429-3467 | a throw comes back to the pad that raised it exactly if a frame above the pad accepts it and no pad on the way raises anything |
| Unwinding.LostExample | vital-src/lib/Core/Executor.cpp:3392-3467 | a stack on which an exception is handled, and not if the one cleanup pad on the way throws and catches |
| Unwinding.LoseException | vital-src/lib/Core/Executor.cpp:3392-3467 | both runs on that stack |
| KTests.ToFile | vital-src/lib/Basic/KTest.cpp:178-220 | the writer succeeds exactly when no string and no object is empty, and writes the format |
| KTests.Reader.ReadString | vital-src/lib/Basic/KTest.cpp:42-53 | a length and as many bytes, failing on none |
| KTests.Reader.FromFile | vital-src/lib/Basic/KTest.cpp:94-176 | the reader follows the format: both magic words, versions up to three, the fields of version two |
| KTests.ValueOrder | vital-src/lib/Basic/KTest.cpp:25-40 | the bytes of a word are the digits of its value to base 256, the most significant first |
| KTests.WordValue | vital-src/lib/Basic/KTest.cpp:25-40 | a word that is written has the value it was written from, read in that order |
| KTests.EveryVersion | vital-src/lib/Basic/KTest.cpp:94-176 | under either header and for every version up to three, a file in the format of the version reads as its record to the last byte, with zero for the two fields that came with version two |
| KTests.RoundTrip | vital-src/lib/Basic/KTest.cpp:94-220 | what is written is read back equal, to the last byte |
| KTests.ParseStable | vital-src/lib/Basic/KTest.cpp:94-176 | what a file reads as does not depend on bytes after it |
| KTests.PrefixRejected | vital-src/lib/Basic/KTest.cpp:94-176 | every proper prefix of a written file is rejected |
| Varargs.Room | vital-src/lib/Core/Executor.cpp:2090-2097 | an argument takes the whole words that hold its bytes and no more with 64-bit words, and its bytes with 32-bit words |
| Varargs.Layout | vital-src/lib/Core/Executor.cpp:2050-2096 | each argument is at the first aligned place after the one before it, the area ends after the last, and 16-byte alignment is asked for exactly when a wide argument needs it |
| Varargs.LayoutSafe | vital-src/lib/Core/Executor.cpp:2050-2121 | offsets are aligned, slots are disjoint, and all lie inside the area, for both word sizes |
| Varargs.WholeWords | vital-src/lib/Core/Executor.cpp:2050-2096 | with 64-bit words every argument starts at a whole word, whatever powers of two are asked for |
| Varargs.AddressAligned | vital-src/lib/Core/Executor.cpp:2098-2103 | an argument's address is aligned if and only if the area's is, and an area known by its own alignment ensures it if and only if that is a multiple of the argument's |

## Left out

- Expression operators other than the nine in `Exprs.BinOp` (multiplication, division, shifts, signed comparison): no property here has a rule for them.
- The simplifications inside the expression factories: any factory that keeps well-formedness, width and meaning and folds constants is admitted.
- What follows a missing solver answer: an operation reports it and promises nothing more; the fallback that makes a pointer constant after a timeout is not modelled.
- The constraint manager's rewriting of constraints: a constraint set is a set of expressions, and adding one is set union.
- MemoryOps.ExecuteMemoryOperation: leaves out the array optimizer and the options that simplify indices, limit symbolic array sizes or make concrete reads symbolic; null-page and use-after-free reports are plain pointer errors.
- Merging.ExecutionState.Merge: variadic areas and the query meta data are not modelled.
- Concrete buffers are sequences that methods reassign, not arrays.
- The seed map of `branch`, fork inhibition by depth and time budgets, and statistics counters.
- Switching.ExecuteSwitch: the cases are given in the order of their values; sorting them is not modelled.
- Successor instructions and call targets are given; reading them off the basic blocks is not modelled.
- Distances.ComputeReturns: stops with a flag at the first value that does not fit its width; what the tracker computes from cut-off values is described only where the loop never ends (`DistanceLimits.NeverQuiet`).
- DistanceLimits.LimitsFit: goes one way; the exact condition is that of `Distances.ComputeReturns`. The limits of a group of mutually recursive functions grow with its size.
- ImpliedValues.ImpliedSound: the rule for `Or` passes a null pointer where zero is meant, and zero is modelled; the rule for `Ne` treats its expression as an equality, and the negated equality is modelled, which no program reaches because no factory builds `Ne`.
- ImpliedValues.ImpliedComplete: operations without a rule (extraction, comparison by order, a conjunction wider than a bit, and a constant on the right) count as leaving a choice. The two constants of a selection are compared by value and not by address, which agrees because the factory folds a selection of equal branches.
- ProcessTree.PTree.Remove: simulation states that share a node with a normal state are not modelled.
- ProcessTree.RandomPathSearcher.SelectState: the words it draws are a parameter; the random number generator is not modelled.
- Rewards are real numbers, without rounding.
- Unwinding.State.Throw: a landing pad raises exceptions one after the other, each from frames it has called, and otherwise leaves the stack as it found it; what a program does after an exception that nothing handles is not modelled.
- CallPaths.CallPathManager.GetSummaryStatistics: one statistic per record, and no wrap-around of the sums.
- Seeds.SeedInfo.PatchSeed: constant reads in the condition are within their arrays, as the seed's byte vectors demand. That the condition is possible, and that an accepted seed fits the path, is promised in one direction: an undetermined index, or a tie between bytes, may leave it so or not, with the values the solver picks.
- ExprReads.FindReads: an update list that was searched before is recognised by its contents and not by its address.
- KTests.ToFile: file-system errors and allocation failures are not modelled.
- KTests.Reader.ReadString: buffers have the size they need; the source asks for one byte more than the length in 32 bits, which is zero for a string of 2^32 - 1 bytes.
- Varargs.Layout: arguments passed by value, and sizes beyond 64 bits.
- `copyInConcrete`, external calls, the MCTS selection policy, option parsing, and all output.
