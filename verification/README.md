# SPIRV-Cross control flow, whole-program analyses and containers

A Dafny model of the hard logic of the SPIRV-Cross shader compiler that Maple vendors
under `Code/Maple/lib/SPIRV-Cross`, with proofs of what that logic is relied on for.
`dafny verify dfyconfig.toml` verifies everything.

## What is modelled

**The control-flow graph** (`Blocks`, `Paths`, `Search`, `Dominators`, `Cfg`,
`Reducibility`). The class `Cfg` follows the recursive depth-first search that numbers
blocks, drops back edges and adds implied edges from headers to merge blocks, and the
single pass that builds immediate dominators on the recorded edges. `Paths` defines
reachability and dominance by paths; `Search` states the invariant of the search over
values and shows that opening a block, recording an edge and finishing a block each keep
it; `Dominators` shows why one pass in reverse post-order is enough. `Valid()` of the
class says what is known after construction: `Completed` (the numbered blocks are the
reachable ones, the two orders are inverse, edges go strictly down and are recorded
exactly when they do, merge blocks are joined to their selection headers and get an
extra edge for it only where there is reason to, only the entry has no predecessor) and
`Exact` (the table is the table of immediate dominators). `Reducibility` puts the
dropped edges back and states exactly when that changes no dominator.

**What is built on it** (`DominatorBuilders`, `SubGraphs`, `LoopDominators`, `Walks`,
`Preservation`, `LoopVariables`, `StraightLine`): nearest common dominators of sets of
blocks, the test whether control flow rejoins between two blocks, the walk back to a loop
header, the callback walk, parameter preservation, loop variables, and the straight-line
tests with the continue-block classifier that rests on them.

**Combined image samplers** (`Inlining`, `SamplerParameters`, `SamplerRuns`,
`SamplerHandler`). `Inlining` gives a shader a reference meaning: run it call by call with
the actual arguments and note each image and sampler combined. The handler class walks the
program once with a stack of remapped parameters and summarises each function the first
time it is called. The two agree, list for list.

**The tracker of forwarded loads** (`Forwarding`): reads, writes and flushes, with the log
of what happened as the reference. **Specialization constants** (`SpecConstants`): the
evaluator on 32-bit words against a definition over integers and bits. **Unique names**
(`NameCaches`) and **buffer ranges** (`BufferRanges`).

**Containers** (`Memory`, `SmallVectors`, `ObjectPools`, `StringStreams`). Slots are raw,
moved from, or live, so constructing over an object, assigning to raw storage, freeing a
buffer that still holds objects, or freeing it twice is a proof failure. Each container
refines a plain value: a sequence, a set of live objects, a string.

`Sets` and `Arithmetic` hold the counting arguments and numbers several of these need.

## Hypotheses

- Blocks are closed under their targets, 0 is no block, and the entry is one (`Blocks.WellFormed`).
- The full-graph theorem needs nothing more for its exact form; `ReducibleIsExact` assumes that
  every dropped edge returns to a block that dominates its source, as section 2.11 (Structured
  Control Flow) of the SPIR-V Specification 1.5 asks of back edges.
- The straight-line tests terminate only if the walk meets its goal or a block that does not
  branch plainly. `ChainEnds` says this for one walk; `NoBareCycle` (every cycle of branches has
  a header or a conditional branch) gives it for all.
- Shaders are valid SPIR-V for the purpose: the call graph is acyclic and calls pass as many
  arguments as there are parameters (section 2.16.1 of the SPIR-V Specification 1.5), results
  have one definition which comes before their uses, and parameters belong to one function.
- The name caches hold fewer than 2^32 - 1 names, as the 32-bit counter would otherwise wrap.
- The dominator of a variable, where loop variables are decided, is 0 or a numbered block, as a
  dominator builder leaves it.
- Loop headers are registered under their continue blocks, and a block continues at most one
  loop (section 2.11 of the SPIR-V Specification 1.5).
- Member offsets do not decrease, where ranges are claimed to be disjoint or to tile.

## Where the code does less than its callers might expect

A store whose type is a pointer to physical storage is treated as a store to the aliased
variables only, even when it resolves to a variable that is not aliased. That happens when the
pointer was loaded from the variable, say from a member of a local structure: a load of the
structure forwarded before the store stays valid, although the store is registered against it.
`Forwarding.CountsAsWrite` is the exact condition under which a store does count,
`Forwarding.WriteStalesIff` and `Forwarding.Tracker.RegisterWrite` say that it is, and
`Forwarding.PhysicalWriteKeepsLoad` gives an instance.

`reserve` of a small vector guards the request against an overflow of the byte count, but then
allocates a doubled capacity, and `insert` before the end has no guard.
`SmallVectors.AllocationHoldsIff` gives the exact condition for both and
`SmallVectors.DoublingMayOverflow` an instance for the former. Moving a small vector onto itself empties it.

## Model

| member | source | states |
|---|---|---|
| `ControlFlow.Cfg.constructor` | Code/Maple/lib/SPIRV-Cross/spirv_cfg.cpp:26-32 | After construction the blocks numbered are exactly those reachable from the entry over terminator and merge targets, `postOrder` and `visitOrder` are inverse bijections ending with the entry, recorded edges go strictly down, finished merge blocks are joined to their selection headers by an edge exactly where there was reason for it, and every numbered block other than the entry has its exact immediate dominator in the recorded graph (`Valid`). The visit count is the number of numbered blocks and at most the number of blocks. |
| `ControlFlow.Cfg.BuildPostOrderVisitOrder` | Code/Maple/lib/SPIRV-Cross/spirv_cfg.cpp:201-208 | The whole search from the entry ends in a completed search state: `Search.Completed`, with all five of its parts. |
| `ControlFlow.Cfg.PostOrderVisit` | Code/Maple/lib/SPIRV-Cross/spirv_cfg.cpp:87-199 | A visit keeps the search invariant, forgets nothing, leaves no new block unfinished, and answers true exactly when the block is finished, that is, when the branch that led to it is not a back edge. It terminates because each visit opens a new block, and sees only blocks reachable from the one visited; of the blocks first seen with a loop header, none outside the reach of its merge block is numbered before that merge block. |
| `ControlFlow.Cfg.VisitTargets` | Code/Maple/lib/SPIRV-Cross/spirv_cfg.cpp:112-193 | All targets of the block are dealt with, the loop merge first: terminator and loop-merge edges to finished blocks are recorded, merge blocks joined, and what is first seen with a loop header but cannot be reached from its merge block is not numbered before that. |
| `ControlFlow.Cfg.VisitLoopMerge` | Code/Maple/lib/SPIRV-Cross/spirv_cfg.cpp:112-113 | The merge target of a loop header is visited first, and the implied edge is recorded when the target is finished. |
| `ControlFlow.Cfg.VisitBranchTargets` | Code/Maple/lib/SPIRV-Cross/spirv_cfg.cpp:116-142 | Every terminator target is visited and its edge recorded exactly when the target is finished. |
| `ControlFlow.Cfg.VisitCases` | Code/Maple/lib/SPIRV-Cross/spirv_cfg.cpp:130-135 | The same for every case of a switch. |
| `ControlFlow.Cfg.VisitSelectionMerge` | Code/Maple/lib/SPIRV-Cross/spirv_cfg.cpp:151-193 | The merge target of a selection header is visited; when it is finished it is joined to the header, by an extra edge only if that was needed, no other block is given an edge it need not have, and no finished block is left without a predecessor. |
| `ControlFlow.Cfg.JoinMerge` | Code/Maple/lib/SPIRV-Cross/spirv_cfg.cpp:153-192 | The fake edge to the merge block is recorded exactly when the block is not joined yet: when the header is no predecessor and there are fewer than two others, or the header is a switch with one recorded successor. |
| `Search.JoinIsNeeded` | Code/Maple/lib/SPIRV-Cross/spirv_cfg.cpp:153-192 | An edge recorded because the blocks were not joined gave the merge block its first or second predecessor, or a switch its second and last successor. |
| `Search.BranchNeeds` | Code/Maple/lib/SPIRV-Cross/spirv_cfg.cpp:210-219 | Later edges do not take that reason away. |
| `Search.JoinRule` | Code/Maple/lib/SPIRV-Cross/spirv_cfg.cpp:161-192 | The three cases of the rule, on the number of predecessors, its only member and the kind of header, come to that one condition. |
| `Search.MergeIsFirst` | Code/Maple/lib/SPIRV-Cross/spirv_cfg.cpp:108-113 | Because the merge block is visited first, what is first seen in the loop and cannot be reached from the merge block is numbered after it. |
| `ControlFlow.Cfg.Follow` | Code/Maple/lib/SPIRV-Cross/spirv_cfg.cpp:112-134 | One visit-and-add-branch step deals with the target and leaves every finished block with a predecessor. |
| `ControlFlow.Cfg.AddBranch` | Code/Maple/lib/SPIRV-Cross/spirv_cfg.cpp:210-219 | Both edge maps gain the edge once, keep mirroring each other, and lose nothing. |
| `Search.BranchKeeps` | Code/Maple/lib/SPIRV-Cross/spirv_cfg.cpp:210-219 | Recording an edge from an unfinished block to a finished one keeps the search invariant; in particular all recorded edges go from a later to an earlier finished block. |
| `Search.OpenKeeps` | Code/Maple/lib/SPIRV-Cross/spirv_cfg.cpp:97-98 | Marking an unseen block as being visited keeps the search invariant. |
| `Search.FinishKeeps` | Code/Maple/lib/SPIRV-Cross/spirv_cfg.cpp:195-198 | Numbering a block all of whose targets were dealt with keeps the search invariant. |
| `Search.NumbersAreReachable` | Code/Maple/lib/SPIRV-Cross/spirv_cfg.cpp:87-199 | The numbered blocks are exactly those with a path from the entry over terminator and merge targets. |
| `Search.EdgesAreExact` | Code/Maple/lib/SPIRV-Cross/spirv_cfg.cpp:87-219 | Recorded edges strictly lower the visit order, so the recorded graph is acyclic; a terminator or loop-merge edge is recorded if and only if its target has the lower order. |
| `Search.SearchCompletes` | Code/Maple/lib/SPIRV-Cross/spirv_cfg.cpp:201-208 | Once every seen block is finished the search is complete: reachability, inverse orders, exact edges, merge blocks joined by needed edges only, and a predecessor for every block but the entry, which has none. |
| `Search.ReachedByEdges` | Code/Maple/lib/SPIRV-Cross/spirv_cfg.cpp:201-208 | Every numbered block can be reached from the entry along recorded edges alone. |
| `ControlFlow.Cfg.FindCommonDominator` | Code/Maple/lib/SPIRV-Cross/spirv_cfg.cpp:34-44 | The two-finger walk terminates and returns the one block whose dominators are exactly the common dominators of the two blocks. |
| `Dominators.ClimbKeepsCommon` | Code/Maple/lib/SPIRV-Cross/spirv_cfg.cpp:38-41 | One climbing step neither loses nor gains a common dominator, because the block climbed from has the lower order. |
| `ControlFlow.Cfg.BuildImmediateDominators` | Code/Maple/lib/SPIRV-Cross/spirv_cfg.cpp:46-70 | One pass in reverse post-order makes the whole table exact and leaves edges and orders unchanged. |
| `ControlFlow.Cfg.SetImmediateDominator` | Code/Maple/lib/SPIRV-Cross/spirv_cfg.cpp:52-69 | One round of the pass makes the entry of one block exact, on top of exact entries for all blocks of higher order; the look-up of a missing predecessor list changes no edge. |
| `ControlFlow.Cfg.GatherPredecessors` | Code/Maple/lib/SPIRV-Cross/spirv_cfg.cpp:59-68 | Folding the predecessors of one block gives its immediate dominator; the assertion that each predecessor already has one holds in every round. |
| `Dominators.GatheredIsImmediate` | Code/Maple/lib/SPIRV-Cross/spirv_cfg.cpp:59-68 | A block whose dominators are the common dominators of all predecessors of b is the immediate dominator of b. |
| `Dominators.ExactIsUnique` | Code/Maple/lib/SPIRV-Cross/spirv_cfg.cpp:46-70 | There is only one exact table, so the computed one does not depend on the order of edges. |
| `Paths.DominatorEquation` | Code/Maple/lib/SPIRV-Cross/spirv_cfg.cpp:46-70 | Besides b itself, what dominates b is exactly what dominates all predecessors of b. |
| `Reducibility.DominatorsExactIff` | Code/Maple/lib/SPIRV-Cross/spirv_cfg.cpp:46-199 | The dominators found without back edges are those of the graph that has them if and only if every edge left out returns only to blocks whose strict dominators dominate its source. |
| `Reducibility.ReducibleIsExact` | Code/Maple/lib/SPIRV-Cross/spirv_cfg.cpp:46-199 | If every edge left out returns to a block that dominates its source (a reducible function), the table holds the immediate dominators of the full graph. |
| `Reducibility.PathMeetsDominators` | Code/Maple/lib/SPIRV-Cross/spirv_cfg.cpp:46-199 | Every path of the full graph, cycles included, meets all recorded-graph dominators of its end. |
| `Reducibility.HarmlessIsNecessary` | Code/Maple/lib/SPIRV-Cross/spirv_cfg.cpp:46-199 | If one edge left out bypasses a dominator of its target, the two graphs differ in their dominators. |
| `Reducibility.FullGraphFits` | Code/Maple/lib/SPIRV-Cross/spirv_cfg.cpp:87-199 | Putting edges back reaches no further block. |
| `DominatorBuilders.DominatorBuilder.AddBlock` | Code/Maple/lib/SPIRV-Cross/spirv_cfg.cpp:331-347 | After any sequence of blocks the dominator is 0 when none is known to the graph, else the block whose dominators are exactly the common dominators of the known ones. |
| `DominatorBuilders.DominatorIsUnique` | Code/Maple/lib/SPIRV-Cross/spirv_cfg.cpp:331-347 | That block depends on the set of blocks fed only, not on order or repetition. |
| `DominatorBuilders.DominatesAll` | Code/Maple/lib/SPIRV-Cross/spirv_cfg.cpp:331-347 | It dominates every known block fed, and whatever dominates them all dominates it. |
| `DominatorBuilders.DominatorBuilder.LiftContinueBlockDominator` | Code/Maple/lib/SPIRV-Cross/spirv_cfg.cpp:349-396 | The result still dominates every known block fed, and it is replaced by the entry exactly when a terminator target of the old result has a higher visit order. |
| `SubGraphs.NodeTerminatesControlFlow` | Code/Maple/lib/SPIRV-Cross/spirv_cfg.cpp:271-324 | The climb terminates, answers true exactly when merge or plain-branch steps up the dominator tree lead from `to` to `from`, and then `from` dominates `to`. |
| `SubGraphs.ClimbStep` | Code/Maple/lib/SPIRV-Cross/spirv_cfg.cpp:284-320 | One round either shows that no climb exists or moves to the immediate dominator, which has a higher visit order. |
| `SubGraphs.PredecessorsGiveImmediate` | Code/Maple/lib/SPIRV-Cross/spirv_cfg.cpp:288-294 | The dominator of all predecessors of a block equals its stored immediate dominator, and is 0 exactly for the entry and unknown blocks. |
| `SubGraphs.ClimbDominates` | Code/Maple/lib/SPIRV-Cross/spirv_cfg.cpp:271-324 | Whatever such a climb reaches dominates the block it started from. |
| `SubGraphs.DominatorOfAll` | Code/Maple/lib/SPIRV-Cross/spirv_cfg.cpp:288-292 | A builder fed with a list of blocks holds their nearest common dominator. |
| `SubGraphs.CheckRejoins` | Code/Maple/lib/SPIRV-Cross/spirv_cfg.cpp:296-320 | The step is taken exactly when the dominator heads the construct merging at the block, branches plainly to it, or has another arm that only leaves the enclosing loop. |
| `LoopDominators.FindLoopDominator` | Code/Maple/lib/SPIRV-Cross/spirv_cfg.cpp:221-269 | The walk terminates. It follows the chosen predecessors to the first loop header not entered from its own merge block, and returns that, or no block when it comes to one without predecessors; from a header returned a recorded path leads into the loop and on to the block asked about. |
| `LoopDominators.ChoosePredecessor` | Code/Maple/lib/SPIRV-Cross/spirv_cfg.cpp:231-256 | The first predecessor that heads a construct merging here is taken, else the first one; the flag is set exactly for a loop header. |
| `Walks.Walker.WalkFrom` | Code/Maple/lib/SPIRV-Cross/spirv_cfg.hpp:84-96 | The walk adds exactly the blocks with a path over unseen blocks whose callbacks all ask to go on, and calls back exactly once on each of them. |
| `Walks.UnrestrictedIsReachability` | Code/Maple/lib/SPIRV-Cross/spirv_cfg.hpp:84-96 | Started with nothing seen and a callback that always goes on, the walk visits exactly the reachable blocks. |
| `Walks.WalkIsComplete` | Code/Maple/lib/SPIRV-Cross/spirv_cfg.hpp:84-96 | A set that is followed wherever the callback asks contains every block the walk should reach. |
| `Preservation.UnaccessedPathIff` | Code/Maple/lib/SPIRV-Cross/spirv_cross.cpp:2767-2783 | The recursive test is true if and only if some path from the block to a block without successors avoids the given set. |
| `Preservation.UnaccessedPathFound` | Code/Maple/lib/SPIRV-Cross/spirv_cross.cpp:2767-2783 | When the test is true there is such a path. |
| `Preservation.UnaccessedPathExists` | Code/Maple/lib/SPIRV-Cross/spirv_cross.cpp:2767-2783 | When there is such a path the test is true. |
| `Preservation.SomeWayOut` | Code/Maple/lib/SPIRV-Cross/spirv_cross.cpp:2822-2829 | With nothing to avoid there is always a way out, so an argument without complete writes is treated as the general rule would. |
| `Preservation.AnalyzeParameterPreservation` | Code/Maple/lib/SPIRV-Cross/spirv_cross.cpp:2785-2840 | Exactly the accessed, non-opaque pointer arguments for which some recorded path from the entry to an exit meets no completely writing block have a read count that is one more, modulo 2^32; nothing else about any argument changes. |
| `LoopVariables.AcceptLoopVariable` | Code/Maple/lib/SPIRV-Cross/spirv_cross.cpp:3574-3651 | A variable is accepted if and only if it has a dominator and one continue block, and for the loop header with that continue block a chain of only-ways-in and only-ways-out leads from the dominator to the header, it is accessed on that chain, and no block reachable from the merge block accesses it. |
| `LoopVariables.FollowInitChain` | Code/Maple/lib/SPIRV-Cross/spirv_cross.cpp:3605-3637 | The chain loop terminates and finds the chain, and an access on it, exactly when they exist. |
| `LoopVariables.AccessAfterMerge` | Code/Maple/lib/SPIRV-Cross/spirv_cross.cpp:3642-3651 | The walk from the merge block finds an access exactly when a reachable block has one. |
| `LoopVariables.ChainIsUnique` | Code/Maple/lib/SPIRV-Cross/spirv_cross.cpp:3614-3634 | There is at most one such chain. |
| `LoopVariables.HeaderRunsEndWithChain` | Code/Maple/lib/SPIRV-Cross/spirv_cross.cpp:3607-3613 | Every run from the entry to the header ends with the whole chain, so the last write on the chain is the value the loop starts with. |
| `LoopVariables.ChainDominatesHeader` | Code/Maple/lib/SPIRV-Cross/spirv_cross.cpp:3607-3613 | Every block of the chain dominates the header. |
| `StraightLine.ExecutionIsBranchless` | Code/Maple/lib/SPIRV-Cross/spirv_cross.cpp:1463-1476 | True if and only if plain branches through blocks without a merge lead from one block to the other. |
| `StraightLine.ExecutionIsNoop` | Code/Maple/lib/SPIRV-Cross/spirv_cross.cpp:1439-1461 | True if and only if moreover no block on the way has instructions and no step assigns a phi. |
| `StraightLine.FlushPhiRequired` | Code/Maple/lib/SPIRV-Cross/spirv_cross.cpp:4818-4825 | True if and only if some phi of the target has the source as its parent. |
| `StraightLine.EveryChainEnds` | Code/Maple/lib/SPIRV-Cross/spirv_cross.cpp:1463-1476 | If every cycle of branches contains a header or a conditional branch, the walk always ends. |
| `StraightLine.ChainIsShort` | Code/Maple/lib/SPIRV-Cross/spirv_cross.cpp:1463-1476 | Then no chain is longer than the number of blocks. |
| `StraightLine.NoopPreservesStore` | Code/Maple/lib/SPIRV-Cross/spirv_cross.cpp:1439-1461 | Whatever the instructions mean, running a no-op chain leaves every variable as it was. |
| `StraightLine.NoopReturnsUnchanged` | Code/Maple/lib/SPIRV-Cross/spirv_cross.cpp:1502-1503 | So a continue block classified by the no-op test gets back to its header with every variable unchanged. |
| `StraightLine.DoWhileArms` | Code/Maple/lib/SPIRV-Cross/spirv_cross.cpp:1508-1530 | After the instructions of a do-while block one arm is the loop header and the other gets to the merge block, and on either way every variable keeps its value. |
| `StraightLine.ClassifyContinueBlock` | Code/Maple/lib/SPIRV-Cross/spirv_cross.cpp:1483-1534 | Each of the answers while, for and do-while is given exactly under its condition, and complex in all other cases. |
| `SamplerHandler.BuildCombinedImageSamplers` | Code/Maple/lib/SPIRV-Cross/spirv_cross.cpp:2734-2745 | Discovery fails exactly when the inlined program contains something it cannot combine; otherwise its list has exactly one entry per distinct (image, sampler) pair of the inlined program, each called function has the parameter list its own inlined body asks for, and the entry and functions never called have none. |
| `SamplerHandler.CombinedImageSamplerHandler.TraverseFunction` | Code/Maple/lib/SPIRV-Cross/spirv_cross.cpp:1536-1579 | Traversing a function adds the pairs of its run under the bindings of the current frame, and leaves both stacks as they were. |
| `SamplerHandler.CombinedImageSamplerHandler.FollowCall` | Code/Maple/lib/SPIRV-Cross/spirv_cross.cpp:1552-1566 | A call is one step of the caller: its formals are bound to the root variables of its actuals, and afterwards the caller can go on. |
| `SamplerHandler.CombinedImageSamplerHandler.BeginCall` | Code/Maple/lib/SPIRV-Cross/spirv_cross.cpp:2284-2295 | On entry the top remapping sends each formal to the value its actual has in the run of the whole call stack. |
| `SamplerHandler.CombinedImageSamplerHandler.FinishCall` | Code/Maple/lib/SPIRV-Cross/spirv_cross.cpp:2297-2342 | On return both stacks are popped, the callee is done, and the caller has what inlining the call would give it. |
| `SamplerHandler.CombinedImageSamplerHandler.Handle` | Code/Maple/lib/SPIRV-Cross/spirv_cross.cpp:2508-2701 | One instruction has the effect on loads, pairs and parameter lists that the symbolic run of the function prescribes, and fails in the same cases. |
| `SamplerHandler.CombinedImageSamplerHandler.Combine` | Code/Maple/lib/SPIRV-Cross/spirv_cross.cpp:2604-2697 | A combination is entered, resolved, in the function list while the function is being summarised and, remapped, once in the global list. |
| `SamplerHandler.CombinedImageSamplerHandler.RegisterRead` | Code/Maple/lib/SPIRV-Cross/spirv_cross.cpp:2530-2534 | A load of a separate image or sampler is recorded with the variable the finished run will know for it. |
| `SamplerHandler.CombinedImageSamplerHandler.PushRemapParameters` | Code/Maple/lib/SPIRV-Cross/spirv_cross.cpp:2251-2260 | The pushed table binds the formals to the remapped actuals. |
| `SamplerHandler.CombinedImageSamplerHandler.EndFunctionScope` | Code/Maple/lib/SPIRV-Cross/spirv_cross.cpp:2297-2342 | Exactly one frame is popped, the callee is marked done, and a caller still being summarised takes over the callee list seen through the actuals. |
| `SamplerHandler.CombinedImageSamplerHandler.RegisterCombinedImageSampler` | Code/Maple/lib/SPIRV-Cross/spirv_cross.cpp:2344-2425 | A pair with a parameter in it is listed once by argument index, and a pair of globals is not listed. |
| `SamplerHandler.CalledAreDone` | Code/Maple/lib/SPIRV-Cross/spirv_cross.cpp:2313-2315 | Every function called, directly or not, has been summarised when the traversal ends. |
| `Inlining.SubstRun` | Code/Maple/lib/SPIRV-Cross/spirv_cross.cpp:1536-1579 | Running a function with substituted arguments gives the substituted result. |
| `SamplerRuns.ActualIsSubstituted` | Code/Maple/lib/SPIRV-Cross/spirv_cross.cpp:2251-2282 | The run of a function under actual arguments is its symbolic run with the actuals substituted. |
| `SamplerRuns.OperandAgrees` | Code/Maple/lib/SPIRV-Cross/spirv_cross.cpp:2267-2282 | The backing variable of an operand, as recorded so far, is what the symbolic run resolves it to. |
| `SamplerRuns.RunSettled` | Code/Maple/lib/SPIRV-Cross/spirv_cross.cpp:2327-2335 | Ids that reach a list are variables or stand for themselves, so resolving them again changes nothing. |
| `SamplerParameters.ListsCompose` | Code/Maple/lib/SPIRV-Cross/spirv_cross.cpp:2323-2339 | Handing a callee list on to the caller adds exactly what inlining the call would add. |
| `SamplerParameters.AddPairsIsExact` | Code/Maple/lib/SPIRV-Cross/spirv_cross.cpp:2636-2697 | The global list holds each pair once and no other. |
| `SamplerParameters.ParameterListIsExact` | Code/Maple/lib/SPIRV-Cross/spirv_cross.cpp:2361-2382 | A function list holds exactly the encodings of the pairs in which a parameter takes part. |
| `Forwarding.Tracker.ForwardedLoadIsCurrent` | Code/Maple/lib/SPIRV-Cross/spirv_cross.cpp:301-434 | A forwarded load of a mutable variable that is not invalid has seen no write since that resolves to its variable (except as in `WriteFlushesTarget`) nor, when that is aliased, to any aliased variable. |
| `Forwarding.Tracker.RegisterRead` | Code/Maple/lib/SPIRV-Cross/spirv_cross.cpp:301-319 | The read is logged with the variable its chain goes back to over the log of earlier reads, recorded for the expression, and counted for a parameter; the dependee lists hold exactly the fresh loads and the invalid set exactly the stale ones. |
| `Forwarding.Tracker.RegisterWrite` | Code/Maple/lib/SPIRV-Cross/spirv_cross.cpp:321-392 | The write is logged with the variable its chain goes back to over the log of reads; it invalidates exactly the expressions with a fresh load of a variable it flushes, in particular a still valid load from the variable it resolves to exactly if it counts as a write to that; and it asks for another compilation exactly on the first write to a parameter other than through a pointer it holds. |
| `Forwarding.Tracker.FlushForWrite` | Code/Maple/lib/SPIRV-Cross/spirv_cross.cpp:338-388 | The variables flushed are exactly those whose loads the write can have changed by the rules for aliasing and variable pointers. |
| `Forwarding.Tracker.FlushDependees` | Code/Maple/lib/SPIRV-Cross/spirv_cross.cpp:394-399 | Flushing a variable invalidates exactly its fresh loads and forgets them. |
| `Forwarding.Tracker.FlushAllActiveVariables` | Code/Maple/lib/SPIRV-Cross/spirv_cross.cpp:422-434 | Keeps the invariant for a flush of everything in scope. |
| `Forwarding.Tracker.FlushAllAliasedVariables` | Code/Maple/lib/SPIRV-Cross/spirv_cross.cpp:401-405 | Keeps the invariant for a flush of the aliased variables. |
| `Forwarding.Tracker.FlushAllAtomicCapableVariables` | Code/Maple/lib/SPIRV-Cross/spirv_cross.cpp:407-412 | Keeps the invariant for a flush of global and aliased variables. |
| `Forwarding.Tracker.FlushControlDependentExpressions` | Code/Maple/lib/SPIRV-Cross/spirv_cross.cpp:414-420 | Exactly the expressions the block lists become invalid in addition, the list is emptied, and the invariant is kept. |
| `Forwarding.Tracker.IsForwardable` | Code/Maple/lib/SPIRV-Cross/spirv_cross.cpp:301-434 | An expression that is not invalid has no load behind it that was flushed since, and the other way round unless it was invalidated by name. |
| `Forwarding.ReadIsKnown` | Code/Maple/lib/SPIRV-Cross/spirv_cross.cpp:259-313 | After a read through a chain that goes back to a variable, the expression goes back to that variable, and nothing else changes. |
| `Forwarding.LoadThroughChain` | Code/Maple/lib/SPIRV-Cross/spirv_cross.cpp:259-371 | A load through an access chain into a variable goes stale with a write to the variable itself. |
| `Forwarding.FreshAfter` | Code/Maple/lib/SPIRV-Cross/spirv_cross.cpp:301-434 | A load is fresh after an event exactly if the event makes it, or it was fresh and the event does not flush its variable. |
| `Forwarding.StaleAfter` | Code/Maple/lib/SPIRV-Cross/spirv_cross.cpp:301-434 | An expression is stale after an event exactly if it was, or the event flushes the variable of a fresh load of it, or names it. |
| `Forwarding.WriteFlushesTarget` | Code/Maple/lib/SPIRV-Cross/spirv_cross.cpp:338-371 | A write resolving to v makes loads of v stale if and only if it is not a physical-storage store, or v is aliased, or v holds a pointer and is in scope (`CountsAsWrite`). |
| `Forwarding.WriteStalesIff` | Code/Maple/lib/SPIRV-Cross/spirv_cross.cpp:301-392 | A still valid expression loaded once, from v, is invalidated by a write resolving to v if and only if the write counts as one. |
| `Forwarding.OnlyLoadIsStaleIff` | Code/Maple/lib/SPIRV-Cross/spirv_cross.cpp:301-434 | Over any run, an expression loaded once is stale if and only if its variable was flushed since or it was named. |
| `Forwarding.Tracker.OnlyLoadIsValidIff` | Code/Maple/lib/SPIRV-Cross/spirv_cross.cpp:301-434 | For the tracker: such an expression is not invalid if and only if nothing has flushed its variable since and nothing has named it. |
| `Forwarding.AliasedWriteFlushesAliased` | Code/Maple/lib/SPIRV-Cross/spirv_cross.cpp:368-369 | A write resolving to an aliased variable makes loads of every aliased variable stale. |
| `Forwarding.PhysicalWriteKeepsLoad` | Code/Maple/lib/SPIRV-Cross/spirv_cross.cpp:368-371 | A concrete store through a physical pointer that was loaded from a local structure, after which the load of the structure stays valid although the store resolves to it. |
| `SpecConstants.EvaluationMeans` | Code/Maple/lib/SPIRV-Cross/spirv_cross.cpp:1655-1787 | On every acyclic expression the evaluator returns a value exactly when the mathematical reading of the expression has that value; an unsupported operation, whatever its operands, has none. |
| `SpecConstants.BinaryMeets` | Code/Maple/lib/SPIRV-Cross/spirv_cross.cpp:1685-1704 | For every binary operation and all words the result is the one its definition over integers or bits determines, and there is none otherwise. |
| `SpecConstants.UnaryMeets` | Code/Maple/lib/SPIRV-Cross/spirv_cross.cpp:1711-1721 | The same for logical not, bitwise not and negation. |
| `SpecConstants.SignedQuotientMeets` | Code/Maple/lib/SPIRV-Cross/spirv_cross.cpp:1772-1780 | Signed division is the quotient whose remainder has the sign of the dividend and a magnitude below that of the divisor; a zero divisor is an error. |
| `SpecConstants.SignedRemainderMeets` | Code/Maple/lib/SPIRV-Cross/spirv_cross.cpp:1737-1745 | The signed remainder has the sign of the dividend. |
| `SpecConstants.SignedModuloMeets` | Code/Maple/lib/SPIRV-Cross/spirv_cross.cpp:1747-1760 | The signed modulo has the sign of the divisor, a magnitude below it, and differs from the dividend by a multiple of it. |
| `SpecConstants.BitwiseMeets` | Code/Maple/lib/SPIRV-Cross/spirv_cross.cpp:1688-1692 | A bitwise result is the one word with the prescribed bits. |
| `SpecConstants.BinaryOutcomes` | Code/Maple/lib/SPIRV-Cross/spirv_cross.cpp:1683-1784 | A binary operation fails exactly for a zero divisor, is undefined exactly for a shift by 32 or more and for the least number divided by -1, and otherwise has a value. |
| `SpecConstants.UnaryOutcomes` | Code/Maple/lib/SPIRV-Cross/spirv_cross.cpp:1711-1721 | A unary operation never fails, and is undefined only for the negation of the least number. |
| `SpecConstants.ZeroDivisorIsError` | Code/Maple/lib/SPIRV-Cross/spirv_cross.cpp:1727-1780 | A division whose divisor expression is zero is an error. |
| `SpecConstants.BooleansStayBoolean` | Code/Maple/lib/SPIRV-Cross/spirv_cross.cpp:1692-1713 | Boolean expressions over 0/1 constants evaluate to 0 or 1. |
| `NameCaches.UpdateNameCache` | Code/Maple/lib/SPIRV-Cross/spirv_cross.cpp:952-1003 | The loop terminates; the result was in neither cache, is the name itself when that was free and else the first free candidate, is the only name added to the primary cache, and has no double underscore unless the input has. |
| `NameCaches.UpdateAll` | Code/Maple/lib/SPIRV-Cross/spirv_cross.cpp:952-1008 | A run of calls leaves empty names alone; the other results are pairwise different, none was taken before, and they are all that is added. |
| `NameCaches.CandidateInjective` | Code/Maple/lib/SPIRV-Cross/spirv_cross.cpp:1000 | Different counters give different candidates. |
| `NameCaches.CandidateKeepsUnderscores` | Code/Maple/lib/SPIRV-Cross/spirv_cross.cpp:982-1000 | Appending a counter introduces no double underscore. |
| `NameCaches.TakenIsShort` | Code/Maple/lib/SPIRV-Cross/spirv_cross.cpp:997-1001 | At most as many candidates are taken as there are names in the caches. |
| `NameCaches.DecimalValue` | Code/Maple/lib/SPIRV-Cross/spirv_cross.cpp:1000 | The numeral of a number has that value. |
| `NameCaches.DecimalInjective` | Code/Maple/lib/SPIRV-Cross/spirv_cross.cpp:1000 | Decimal numerals are different for different numbers. |
| `BufferRanges.GetActiveBufferRanges` | Code/Maple/lib/SPIRV-Cross/spirv_cross.cpp:1910-1916 | One range per accessed member and no other, each with the index and offset of its member and, for the last one, the size its layout gives it, or an error exactly when an accessed member lacks what its range needs. |
| `BufferRanges.BufferAccessHandler.Handle` | Code/Maple/lib/SPIRV-Cross/spirv_cross.cpp:1880-1907 | A first access adds the range of its member, a repeated one changes nothing. |
| `BufferRanges.MemberSizeMeets` | Code/Maple/lib/SPIRV-Cross/spirv_cross.cpp:1797-1862 | The computed size of a member is where the last of its parts ends: array elements a stride apart, column vectors in column-major and row vectors in row-major layout a matrix stride apart, vector components one after the other, the last member of a nested struct; arrays and matrices modulo 2^32. There is no size exactly when a decoration is missing or the type is opaque. |
| `BufferRanges.StructSizeMeets` | Code/Maple/lib/SPIRV-Cross/spirv_cross.cpp:1631-1640 | The declared size of a struct is the offset of its last member plus the size of that. |
| `BufferRanges.VectorsEndAt` | Code/Maple/lib/SPIRV-Cross/spirv_cross.cpp:1849-1859 | The last vector of a matrix ends at the stride times the number of columns or rows. |
| `BufferRanges.AccessRangeEnds` | Code/Maple/lib/SPIRV-Cross/spirv_cross.cpp:1896-1904 | With offsets in order a range ends where the next member starts, or at the declared size, in spite of 32-bit subtraction. |
| `BufferRanges.RangesInside` | Code/Maple/lib/SPIRV-Cross/spirv_cross.cpp:1896-1906 | Every range lies between the first offset and the declared size. |
| `BufferRanges.RangesDisjoint` | Code/Maple/lib/SPIRV-Cross/spirv_cross.cpp:1896-1906 | Ranges of different members do not overlap. |
| `BufferRanges.AllRangesTile` | Code/Maple/lib/SPIRV-Cross/spirv_cross.cpp:1631-1640 | When every member is accessed, each byte from the first offset to the declared size is in exactly one range, and no other byte is in any. |
| `SmallVectors.SmallVector.constructor` | Code/Maple/lib/SPIRV-Cross/spirv_cross_containers.hpp:200-204 | A new vector is empty and points to its inline storage, if it has any. |
| `SmallVectors.SmallVector.Reserve` | Code/Maple/lib/SPIRV-Cross/spirv_cross_containers.hpp:317-363 | The request is met exactly when it does not exceed the two limits; contents are unchanged, a smaller request moves nothing, a larger one doubles the capacity as often as needed, and the number of slots never exceeds the largest `size_t` (for bytes see `AllocationHoldsIff`). |
| `SmallVectors.Doubled` | Code/Maple/lib/SPIRV-Cross/spirv_cross_containers.hpp:328-338 | The capacity after doubling holds the request and is below twice the request unless no doubling was needed, so for a request within the limits it cannot overflow. |
| `SmallVectors.AllocationHoldsIff` | Code/Maple/lib/SPIRV-Cross/spirv_cross_containers.hpp:317-345 | The byte count computed for an allocation is exact if and only if the number of slots is at most the largest `size_t` divided by the element size; `reserve` applies that guard to the request, not to the doubled capacity. |
| `SmallVectors.HalfRequestsHold` | Code/Maple/lib/SPIRV-Cross/spirv_cross_containers.hpp:317-345 | For requests up to half of the guard the byte count is exact. |
| `SmallVectors.DoublingMayOverflow` | Code/Maple/lib/SPIRV-Cross/spirv_cross_containers.hpp:317-345 | A concrete request, 2^60 + 1 elements of 12 bytes with inline capacity 8, that passes both guards and whose byte count wraps below what the request needs. |
| `SmallVectors.SmallVector.MoveTo` | Code/Maple/lib/SPIRV-Cross/spirv_cross_containers.hpp:340-361 | Moving to a new buffer keeps the contents, leaves the old slots destroyed and frees an old heap buffer. |
| `SmallVectors.SmallVector.PushBack` | Code/Maple/lib/SPIRV-Cross/spirv_cross_containers.hpp:287-315 | The element is appended, or nothing changes. |
| `SmallVectors.SmallVector.Insert` | Code/Maple/lib/SPIRV-Cross/spirv_cross_containers.hpp:365-464 | In all three cases the result is old[..pos] + values + old[pos..]. |
| `SmallVectors.SmallVector.InsertAtEnd` | Code/Maple/lib/SPIRV-Cross/spirv_cross_containers.hpp:368-374 | The case after the last element: the values are appended exactly when the request can be met. |
| `SmallVectors.SmallVector.InsertReallocating` | Code/Maple/lib/SPIRV-Cross/spirv_cross_containers.hpp:379-431 | The case of a new buffer of exactly the needed size. |
| `SmallVectors.SmallVector.InsertInPlace` | Code/Maple/lib/SPIRV-Cross/spirv_cross_containers.hpp:435-459 | The case with room: the tail moves up and the gap is filled in the same buffer. |
| `SmallVectors.MoveTailUp` | Code/Maple/lib/SPIRV-Cross/spirv_cross_containers.hpp:437-447 | The tail is constructed in raw slots and assigned in others, exactly shifted, and each slot of the gap is left in the state the copy needs. |
| `SmallVectors.FillGap` | Code/Maple/lib/SPIRV-Cross/spirv_cross_containers.hpp:450-459 | New values are assigned over objects and constructed in raw slots. |
| `SmallVectors.MoveDown` | Code/Maple/lib/SPIRV-Cross/spirv_cross_containers.hpp:471-488 | The elements after a range are assigned over it in order; the slots given up still hold objects. |
| `SmallVectors.SmallVector.Erase` | Code/Maple/lib/SPIRV-Cross/spirv_cross_containers.hpp:471-476 | The element is removed and exactly the last slot destroyed. |
| `SmallVectors.SmallVector.EraseRange` | Code/Maple/lib/SPIRV-Cross/spirv_cross_containers.hpp:478-490 | The range is removed and the freed slots destroyed. |
| `SmallVectors.SmallVector.Resize` | Code/Maple/lib/SPIRV-Cross/spirv_cross_containers.hpp:492-507 | A shorter vector is a prefix of the old one; a longer one is extended by default values. |
| `SmallVectors.SmallVector.PopBack` | Code/Maple/lib/SPIRV-Cross/spirv_cross_containers.hpp:301-307 | The last element is removed; an empty vector stays empty. |
| `SmallVectors.SmallVector.MoveFrom` | Code/Maple/lib/SPIRV-Cross/spirv_cross_containers.hpp:220-248 | It succeeds exactly for a vector that has a heap buffer or fits the limits of `reserve`; then the contents, and a heap buffer, change owner and the source is empty and valid; where no buffer is taken over, an own one with enough room is kept; no buffer is leaked or freed twice; assigning a vector to itself empties it. |
| `SmallVectors.SmallVector.MoveInline` | Code/Maple/lib/SPIRV-Cross/spirv_cross_containers.hpp:235-246 | Elements in inline storage are moved one by one, exactly when room for them can be reserved. |
| `SmallVectors.SmallVector.Pilfer` | Code/Maple/lib/SPIRV-Cross/spirv_cross_containers.hpp:223-234 | Taking over the heap buffer frees the own one and leaves the source without storage. |
| `SmallVectors.SmallVector.CopyFrom` | Code/Maple/lib/SPIRV-Cross/spirv_cross_containers.hpp:255-266 | The contents are copied, exactly within the limits of `reserve`, and the source is unchanged; copying a vector to itself changes nothing. |
| `SmallVectors.SmallVector.Clear` | Code/Maple/lib/SPIRV-Cross/spirv_cross_containers.hpp:280-285 | Every element is destroyed, the buffer is kept. |
| `SmallVectors.SmallVector.Destroy` | Code/Maple/lib/SPIRV-Cross/spirv_cross_containers.hpp:273-278 | Every element is destroyed and the heap buffer, if any, freed. |
| `ObjectPools.ObjectPool.Allocate` | Code/Maple/lib/SPIRV-Cross/spirv_cross_containers.hpp:550-570 | The slot handed out was not live, and exactly it becomes live; vacant and live slots stay disjoint and together are all slots. |
| `ObjectPools.ObjectPool.Grow` | Code/Maple/lib/SPIRV-Cross/spirv_cross_containers.hpp:553-564 | A block of twice the size of the last is added, all of it vacant. |
| `ObjectPools.ObjectPool.TakeVacant` | Code/Maple/lib/SPIRV-Cross/spirv_cross_containers.hpp:566-569 | The slot vacated last is taken; no live object is touched. |
| `ObjectPools.ObjectPool.Free` | Code/Maple/lib/SPIRV-Cross/spirv_cross_containers.hpp:572-576 | Exactly the given object stops being live and its slot becomes vacant. |
| `ObjectPools.ObjectPool.SlotsConserved` | Code/Maple/lib/SPIRV-Cross/spirv_cross_containers.hpp:541-602 | Over any run the numbers of vacant and live slots add up to start * (2^k - 1) for k blocks. |
| `ObjectPools.PoolCount` | Code/Maple/lib/SPIRV-Cross/spirv_cross_containers.hpp:553-564 | k blocks have one slot set of exactly the next block size less the first. |
| `ObjectPools.BlockSizeIsShift` | Code/Maple/lib/SPIRV-Cross/spirv_cross_containers.hpp:555 | The size of block k is the start size times 2^k. |
| `StringStreams.StringStream.Append` | Code/Maple/lib/SPIRV-Cross/spirv_cross_containers.hpp:703-731 | The text is appended; a chunk is allocated, recorded and live exactly when the text does not fit in the current one. |
| `StringStreams.StringStream.Fill` | Code/Maple/lib/SPIRV-Cross/spirv_cross_containers.hpp:726-730 | Text that fits goes to the end of the current chunk and changes nothing before it. |
| `StringStreams.StringStream.StartChunk` | Code/Maple/lib/SPIRV-Cross/spirv_cross_containers.hpp:716-724 | The full chunk is saved and the rest goes to a new chunk of the block size, or of its own size if that is larger. |
| `StringStreams.StringStream.Str` | Code/Maple/lib/SPIRV-Cross/spirv_cross_containers.hpp:663-676 | The result is the concatenation of everything appended since the last reset. |
| `StringStreams.StringStream.Reset` | Code/Maple/lib/SPIRV-Cross/spirv_cross_containers.hpp:678-690 | Every heap chunk is freed once, the stack buffer never, and the stream is empty. |

## Left out

- `SmallVectors.SmallVector.Insert`: the inserted range is a value, so a range that lies inside the vector itself is not modelled. The loop that would grow the target capacity, and the choice of the inline buffer, cannot be reached in the reallocating case; they are replaced by the assertion that says so.
- `SmallVectors.SmallVector.EraseRange`: its second call of `resize` is written out as the destruction of the freed slots. Assigning an object to itself, which an empty range before the end makes happen, is taken to keep the object.
- `SmallVectors.SmallVector.MoveFrom`: the two vectors are assumed to share no storage, unless they are the same vector.
- `SmallVectors.SmallVector.Reserve`: buffers are counted in slots, so a byte count that wraps, as in `SmallVectors.DoublingMayOverflow`, does not shrink the buffer of the model.
- `ObjectPools.ObjectPool.Allocate`: the block size is assumed to fit in 32 bits; `clear` of the pool, which drops all blocks, is not modelled.
- `ControlFlow.Cfg.PostOrderVisit`: the single function of the source is split into one method for each kind of target. The order in which the targets of a terminator are tried is that of the source, but no property depends on it.
- `LoopDominators.FindLoopDominator`: it is not claimed that the header returned dominates the block; the walk takes the first predecessor.
- `LoopVariables.AcceptLoopVariable`: the choice of potential loop variables before it, and sorting the list of accepted ones, are not modelled.
- `StraightLine.ExecutionIsBranchless`: on a cycle of plain branches that misses the goal the original does not terminate; the model requires that the walk ends.
- `Forwarding.Tracker.RegisterRead`: read counts are natural numbers that do not wrap at 2^32.
- `SamplerHandler.CombinedImageSamplerHandler.TraverseFunction`: the blocks of a function are one list of instructions, in the order they are traversed.
- `SamplerHandler.CombinedImageSamplerHandler.Handle`: instructions that are too short are not modelled; whether the image behind a fetch is sampled is given with the instruction.
- `SamplerHandler.CombinedImageSamplerHandler.RegisterCombinedImageSampler`: fresh ids, depth flags, names, types and relaxed precision of the combined parameters are not modelled.
- `SpecConstants.EvaluationMeans`: operands are evaluated from left to right, an order C++ leaves open; negating or dividing the least number by -1 and shifts by 32 or more have no value.
- `BufferRanges.BufferAccessHandler.Handle`: recognising the access chains into one buffer among the instructions of a program is not modelled, nor is the size of a struct with a runtime array.
- Memory exhaustion is not modelled: every allocation succeeds.
- The bodies that find which blocks access which variables, and the text emission that uses the results, are not modelled.
- Comparison samplers, lookup tables local to a function and interlocks are not modelled: their traversals are heuristic or stop early.
- Editor windows, rendering, script bindings, the message queue of the application and the C interface of SPIRV-Cross would only add easy members or calls into code that is not here.
