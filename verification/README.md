# Argot's analysis engines, modelled and proved

Argot is a set of static analyses for Go programs in SSA form. This project models the
parts of it that need no knowledge of the SSA library: its lattices, worklists, fixpoint
loops and searches, over opaque blocks, instructions and nodes. Each loop is a Dafny
method with the source's own branches; its contract ties the result to a specification,
and lemmas say what that specification means.

| files | what they model |
|---|---|
| `EscapeLattice`, `EscapeGraphs` | the escape graph: rows of flagged edges as objects, the status order Local < Escaped < Leaked, closing after every update, merge as a join |
| `LoadNodes`, `NodeBounds` | subnodes and load nodes, the history check, and why it keeps graphs finite |
| `MonotoneFramework`, `BlockFixpoint` | the block worklist of one function: what it keeps with any transfer, and the least solution for a monotone one over a lattice of finite height |
| `WholeProgram`, `ProgramFixpoint`, `ProgramRuns`, `ProgramWorklist` | the worklist of summaries over all functions: its steps, what they gain, whole runs, when these end and with what, and the code |
| `SummarySimplifier` | pruning of a summary by a greatest fixpoint, and when that is monotone |
| `EscapePrograms`, `PrunedPrograms` | the parts put together: escape graphs in the blocks, pruned summaries, and whether the analysis then settles |
| `DeferStacks`, `DeferPaths`, `DeferAnalysis` | sorted sets of defer stacks and their fixpoint, against the defer stacks of control-flow paths |
| `NodeTraces`, `CallContexts` | trees of call traces with string keys, and the enumeration of calling contexts |
| `BacktraceSteps`, `BacktraceRuns`, `Backtrace` | the backwards search that cuts off lassos |
| `Blocks`, `BlockPaths` | path checks and path finding between basic blocks, and the conditions along a path |
| `DependencyCycles` | dependency graphs and their cycle search |
| `GoColours` | numbering of go statements and colouring of the call graph |
| `AbstractValues`, `FlowTable` | sets of marks as objects, one per access path, and the table of abstract values |
| `Decimal`, `SummaryNodes` | printing and parsing of summary nodes |
| `Paths`, `DistinctSeqs`, `Options` | reachability in finite graphs; sequences without repetition; optional values |

Opaque things (nodes, blocks, instructions, marks, package paths) are numbers. The order
in which Go visits a map is arbitrary, so loops over maps take any element, or take a
sequence in any order as input; no contract depends on that order.

Where the code differs from what it says about itself, the model follows the code:

- The result of `FindPathBetweenBlocks` lists the last block twice, so a condition is
  recorded for going from that block to itself (`BlockPaths.FindIntraProceduralPath` says
  exactly when that condition is spurious). The search is depth first, not breadth first.
- A colour set need not contain 0: if all go statements are numbered, a function that only
  go statements start does not get it. A go statement without a number, or whose number
  wrapped, counts as 0 (`GoColours.ZeroIsGoFree` says exactly when 0 means what it should).
- `Cycles` starts only at entries nothing depends on, and a search leaves marks that can
  make a later one wrong (`DependencyCycles.AddKeepsCleared`, `DependencyCycles.StaleAnswer`).
- A merge of a value without access paths into one with them does not report the first
  mark it puts at the root (`AbstractValues.MergeInto`).
- The comment on `GetPos` multiplies by the number of instructions; the code multiplies
  by the number of values.
- Pruning a summary is not monotone: a variable that leaks loses its internal edges
  (`SummarySimplifier.SimplifiedNotMonotone`), so that a greater graph can have a summary
  that is not greater; `SummarySimplifier.SimplifiedMonotoneIff` says exactly for which
  graphs the order is kept.
  That is enough to keep the analysis from settling although every instruction is monotone
  (`PrunedPrograms.SelfUndoingNeverEnds`, for an instruction that leaks an edge if the
  callee's summary shows it; whether a call in Go code can act so is not part of this
  model). With monotone instructions after which no further node leaks it settles
  (`PrunedPrograms.FixedLeaksEnd`).
- `MergeNodeStatus` on a node that is not in the graph gives it a status and no row of
  edges, so the graph is no longer well formed. `Merge` and the initial graph of a function
  (analysis/escape/escape.go:1135 and 1156) add the node first; `Call`
  (analysis/escape/graph.go:1070) does not, and `CallUnknown` need not, as the pointees it
  raises are nodes of a well-formed graph.

## Model

| member | source | states |
|---|---|---|
| EscapeLattice.Antisymmetric | analysis/escape/graph.go:1092-1143 | Two well-formed graphs that are below each other in the `LessEqual` order have the same edges and statuses, so they match. |
| EscapeLattice.IntrinsicByKind | analysis/escape/graph.go:91-104 | Parameter and load nodes have escaped by themselves, global and unknown ones have leaked, and all others are local. |
| EscapeLattice.OutsideSpreads | analysis/escape/graph.go:91-104 | In a closed graph everything that a global or unknown node leads to has leaked, and everything that a parameter or load node leads to has escaped at least. |
| EscapeLattice.StatusAlongPath | analysis/escape/graph.go:594-622 | In a closed graph statuses never go down along a path of edges. |
| EscapeLattice.CloseIsLeast | analysis/escape/graph.go:594-622 | Giving each node the highest status among the nodes that reach it is the least closed graph above a well-formed one. |
| EscapeLattice.RaisedIsLeast | analysis/escape/graph.go:626-642 | Raising a node and all it reaches is the least closed graph above the old one in which the node has at least the given status. |
| EscapeLattice.WithNodeIsLeast | analysis/escape/graph.go:461-475 | Adding a node with its intrinsic status is the least closed graph above the old one that has the node. |
| EscapeLattice.WithEdgeIsLeast | analysis/escape/graph.go:447-458 | Adding an edge with flags and repairing statuses gives the least closed graph above the old one that has the edge with those flags. |
| EscapeLattice.JoinIsLub | analysis/escape/graph.go:765-773 | The join of two closed graphs is closed, above both, and below every closed graph above both. |
| EscapeLattice.JoinUnique | analysis/escape/graph.go:765-773 | It is the only such graph. |
| EscapeLattice.JoinCommutes | analysis/escape/graph.go:765-773 | Merging in either order gives the same graph. |
| EscapeLattice.JoinAssociates | analysis/escape/graph.go:765-773 | Merging three graphs does not depend on how they are grouped. |
| EscapeLattice.JoinIdempotent | analysis/escape/graph.go:765-773 | Merging a graph with itself or with the empty graph changes nothing. |
| EscapeLattice.JoinMono | analysis/escape/graph.go:765-773 | Merging greater graphs gives a greater graph. |
| EscapeLattice.PointwiseIsJoinIffClosed | analysis/escape/graph.go:765-773 | The pointwise maximum of two closed graphs is their join if and only if it is closed itself. |
| EscapeLattice.PointwiseIsNotAlwaysJoin | analysis/escape/graph.go:765-773 | There are two closed graphs whose pointwise maximum is not their join. |
| EscapeGraphs.EscapeGraph.Clone | analysis/escape/graph.go:143-159 | A new graph with the same edges and statuses, in rows of its own that are all new objects. |
| EscapeGraphs.RowsApart | analysis/escape/graph.go:143-159 | A row of edges belongs to one node of one graph, so writing into a graph changes no other. |
| EscapeGraphs.EscapeGraph.AddNode | analysis/escape/graph.go:461-475 | The graph becomes the least one with the node, which is escaped if it is a parameter or load, leaked if global or unknown, and else local; reports whether the node was new. |
| EscapeGraphs.EscapeGraph.ComputeEdgeClosure | analysis/escape/graph.go:594-622 | Repairs a graph in which only edges out of one node may be open: afterwards that is so again, the other end of the edge is at least as high as the node, and whatever changed was lower, is reachable from that end and now has the node's status. Nodes reached only through the node's other edges can stay below. The loop ends on cyclic graphs because status headroom shrinks. |
| EscapeGraphs.EscapeGraph.MergeNodeStatus | analysis/escape/graph.go:626-642 | For a node of the graph the result is the least closed graph with the node raised; for any other node the result is not well formed. |
| EscapeGraphs.EscapeGraph.AddEdge | analysis/escape/graph.go:447-458 | The edge gets the flags, in the row of its source, and statuses are repaired; the result is closed and well formed exactly if there were flags or the edge was there before. New rows are new objects. |
| EscapeGraphs.EscapeGraph.Edges | analysis/escape/graph.go:220-258 | Exactly the edges with a flag in the mask between the given ends, either of which may be left open. |
| EscapeGraphs.EscapeGraph.Matches | analysis/escape/graph.go:1092-1103 | True exactly if the two graphs have the same edges and statuses. |
| EscapeGraphs.EscapeGraph.LessEqual | analysis/escape/graph.go:1106-1130 | True exactly if every flagged edge of the first is in the second and every status of the first is at most that of the second. |
| EscapeGraphs.EscapeGraph.Merge | analysis/escape/graph.go:765-773 | Leaves the join of the two graphs, whatever order edges and nodes are visited in, also when both are the same graph. |
| EscapeGraphs.EscapeGraph.ReachableFrom | analysis/escape/graph.go:163-178 | The search marks exactly the nodes reachable from a root. |
| EscapeGraphs.EscapeGraph.CloneReachable | analysis/escape/graph.go:162-203 | A new closed graph in rows of its own: the restriction of the old one to the nodes reachable from the roots. |
| EscapeGraphs.RestrictedIsGood | analysis/escape/graph.go:162-203 | Restricting a closed graph to a set of nodes that no edge leaves keeps it closed and below the original. |
| EscapeGraphs.ReachablePartIs | analysis/escape/graph.go:162-203 | The reachable part has exactly the nodes that a path from a root leads to, with their statuses, and all edges between them. |
| EscapeGraphs.EscapeGraph.CallUnknown | analysis/escape/graph.go:1079-1089 | The least closed graph above the old one in which everything the arguments point to is leaked and every result has an internal edge to the unknown return node. |
| LoadNodes.LoadsBounded | analysis/escape/graph.go:657-719 | Where each load node has an operation not on the history of its base, a history has at most as many load nodes as there are operations on it. |
| LoadNodes.HistoryBounded | analysis/escape/graph.go:657-719 | Every group of nodes that the operations below can build has that bound on every history. |
| LoadNodes.HistoryIsReach | analysis/escape/graph.go:657-673 | The history of a node holds exactly the nodes that links from subnodes to parents and from load nodes to their bases lead to. |
| LoadNodes.NodeGroup.AddParamOp | analysis/escape/escape.go:1120-1152 | Gives the pointee of a parameter its one operation; the group stays valid. |
| LoadNodes.NodeGroup.SubnodeOf | analysis/escape/graph.go:492-546 | One subnode for each base and reason, of the kind of the base, found again if it is there, and linked to the base by a subnode edge either way; nothing happens and there is no result (a panic) exactly if an implementation of an implementation is asked for. |
| LoadNodes.NodeGroup.GetHistoryNodeOfOp | analysis/escape/graph.go:657-673 | The walk over parents and load bases ends and finds the last node on the history that has the operation, or nothing if none has. |
| LoadNodes.NodeGroup.EnsureLoadNode | analysis/escape/graph.go:679-719 | Nothing happens for a local base; otherwise the returned node is on the base's history or its one load child and has the operation, which is the given one for a concrete type and the one shared by all loads of that type for an abstract type; no other node gains an operation, the graph is closed with an external edge to the node, and a new load node is made only for an operation absent from the whole history. |
| NodeBounds.PlaceIsNode | analysis/escape/graph.go:492-719 | A node is determined by the root it hangs on and the subnode and load steps that lead to it. |
| NodeBounds.StepsBounded | analysis/escape/graph.go:657-719 | With at most k subnode steps in a row, a node is at most (loads on its history) times (k + 1) plus k steps from its root. |
| NodeBounds.NodesBounded | analysis/escape/graph.go:657-719 | Over finitely many roots, operations and reasons and with at most k subnode steps in a row, every group of nodes that can be built has no more nodes than a bound that depends on these alone. |
| MonotoneFramework.ConsistentSteps | analysis/escape/escape.go:1310-1314 | With any transfer, recomputing the first block and scheduling its successors if its graph is new keeps every unscheduled block on its equation and forgets no reachable block. |
| MonotoneFramework.ConsistentIsSolved | analysis/escape/escape.go:1278-1316 | With any transfer, when the worklist is empty exactly the reachable blocks have a graph, and each has the one that its equation gives. |
| MonotoneFramework.MergeOfIsMerge | analysis/escape/escape.go:1209-1215 | The merge of the predecessors that have a graph is their least upper bound, whatever their order. |
| MonotoneFramework.BlockOutFlows | analysis/escape/escape.go:1203-1245 | The value that a block's equation gives is the one reached from the merge of its predecessors, or from the initial value if it has none, by the transfers of its instructions, one after the other. |
| MonotoneFramework.SolutionIsDataflow | analysis/escape/escape.go:1278-1316 | The equations hold on the reachable blocks if and only if exactly these have a value and each value flows through its block in that way. |
| MonotoneFramework.EdgesAreListed | analysis/escape/escape.go:1310-1313 | The successors scheduled are those listed for the block, which are those that list it as a predecessor. |
| MonotoneFramework.ConvergingStarts | analysis/escape/escape.go:1162-1165 | The state with only the entry block scheduled, or nothing if there are no blocks, satisfies the invariant of the worklist loop. |
| MonotoneFramework.ConvergingSteps | analysis/escape/escape.go:1310-1314 | Recomputing the first block and scheduling its successors if it changed keeps the invariant, and grows a graph or shortens the worklist. |
| MonotoneFramework.ConvergedIsLeast | analysis/escape/escape.go:1278-1316 | With an empty worklist the block graphs are the least solution of the block equations, on exactly the blocks reachable from the entry. |
| MonotoneFramework.LeastSolutionUnique | analysis/escape/escape.go:1278-1316 | There is only one least solution, so the visiting order does not matter. |
| BlockFixpoint.EscLaws | analysis/escape/escape.go:1203-1251 | Closed escape graphs over a finite set of nodes, with merge as join, satisfy the laws of the framework, including finite height. |
| BlockFixpoint.EscLatticeFits | analysis/escape/escape.go:1203-1251 | The lattice of closed escape graphs over a finite set of nodes, with merge as join and the empty graph at the bottom, is one the worklist below can run on. |
| BlockFixpoint.FunctionState.MergePreds | analysis/escape/escape.go:1204-1216 | The least closed graph above the end graphs of all predecessors that have one, or the initial graph for a block without predecessors. |
| BlockFixpoint.FunctionState.ProcessBlock | analysis/escape/escape.go:1203-1251 | Stores the transfer of the merged predecessors as the block's graph, in a graph of its own, leaves other blocks alone, and reports a change exactly if there is one. |
| BlockFixpoint.FunctionState.AddToBlockWorklist | analysis/escape/escape.go:1254-1264 | The block is appended unless it is there; the rest of the worklist keeps its order. |
| BlockFixpoint.FunctionState.StartsConsistent | analysis/escape/escape.go:1162-1180 | A new state satisfies the invariant of the loop for any transfer, and also the one for every lattice that the transfer is monotone on. |
| BlockFixpoint.FunctionState.ProcessFirst | analysis/escape/escape.go:1283-1314 | Takes the first block off the worklist, recomputes its graph and schedules its successors exactly if the graph is new; keeps the invariant for any transfer that keeps graphs closed. |
| BlockFixpoint.FunctionState.RunForwardIterative | analysis/escape/escape.go:1278-1316 | For a monotone transfer the loop ends, also for a function without blocks; without error the worklist is empty, the block graphs are the least solution, and each is what flows through its block from the merge of all its predecessors; an error means some block's graph has too many edges. |
| WholeProgram.QuietIsSolved | analysis/escape/escape.go:1498-1529 | With an empty worklist and the invariant, every summary, block graph and recorded use agrees with the final summaries. |
| WholeProgram.BlockStepKeeps | analysis/escape/escape.go:1195-1251 | Processing a block, which records the summaries it uses, keeps the invariant of the whole program, also when a function calls itself. |
| WholeProgram.SummaryStepKeeps | analysis/escape/escape.go:1509-1528 | Replacing a summary and scheduling every block and function that used a different one keeps the invariant. |
| WholeProgram.InitialKeeps | analysis/escape/escape.go:1440-1496 | The state with every function scheduled, and its entry block if it has blocks, satisfies the invariant. |
| ProgramFixpoint.BlockStepRises | analysis/escape/escape.go:1203-1251 | With a monotone transfer, processing a block only raises its graph, keeps every graph and summary below its equation and below every solution, and leaves less to gain unless nothing changed. |
| ProgramFixpoint.SummaryRises | analysis/escape/escape.go:1426-1434 | With a monotone summary, summarizing again does the same for the summary. |
| ProgramFixpoint.QuietIsLeast | analysis/escape/escape.go:1498-1529 | With an empty worklist, the graphs and summaries of a monotone program are the least solution of its equations. |
| ProgramFixpoint.LeastSolvedUnique | analysis/escape/escape.go:1458-1497 | There is one least solution, so the order of the worklist and of the blocks does not matter. |
| ProgramRuns.RunIsSafe | analysis/escape/escape.go:1498-1529 | In every run of every program, whether or not it is monotone or the run ends, the invariant holds throughout, and whenever the worklist is empty every summary, block graph and recorded use agrees with the final summaries. |
| ProgramRuns.RunGoesOn | analysis/escape/escape.go:1498-1529 | No run of any program gets stuck: unless the worklist is empty there is a next step. |
| ProgramRuns.MoveClimbs | analysis/escape/escape.go:1498-1529 | Every step of a monotone program keeps graphs and summaries below their equations and below every solution, and gains something or, with nothing gained, leaves less to do. |
| ProgramRuns.RunEnds | analysis/escape/escape.go:1498-1529 | No run of a monotone program over a lattice of finite height goes on for ever, whatever order functions and blocks are scheduled in. |
| ProgramRuns.RunIsLeast | analysis/escape/escape.go:1498-1529 | Whenever the worklist is empty in a run of a monotone program, graphs and summaries are the least solution of its equations. |
| ProgramWorklist.ProcessBlock | analysis/escape/escape.go:1203-1314 | Takes the first block off a function's worklist, records the summaries it uses, recomputes its graph, and schedules its successors exactly if the graph is new; nothing else changes. |
| ProgramWorklist.RecordUses | analysis/escape/escape.go:1195-1197 | Each call site of a block maps to the summary its callee has at that moment; earlier records stay. |
| ProgramWorklist.ScheduleFunction | analysis/escape/escape.go:1511-1526 | A function already waiting changes nothing; any other is inserted right before the functions of its component that stand at the end of the list, and all else keeps its order. |
| ProgramWorklist.RescheduleUses | analysis/escape/escape.go:1507-1528 | After a changed summary exactly the blocks that used another one, and their functions, are scheduled; the invariant holds again for all functions. |
| ProgramWorklist.ProgramState.Resummarize | analysis/escape/escape.go:1380-1435 | Processes a function's blocks until none is scheduled, which ends for a monotone program, and replaces its summary by that of its blocks; blocks and summaries of other functions, their uses and the worklist stay; reports a change exactly if the summary differs from the one before. |
| ProgramWorklist.ProgramState.EscapeAnalysis | analysis/escape/escape.go:1440-1529 | For a monotone program over a lattice of finite height the loop ends, every recorded call site was last processed with the callee's final summary, every summary is that of its own solved blocks, and all are the least that are so. |
| SummarySimplifier.Candidates | analysis/escape/escape.go:1818-1842 | The candidates are exactly the load nodes of removable status without internal edges in or out and without subnode edges from a node of other status. |
| SummarySimplifier.RemoveNodesReachingNonCandidate | analysis/escape/escape.go:1851-1868 | Leaves exactly the candidates from which no node outside the candidates is reachable. |
| SummarySimplifier.RemovableIsGreatest | analysis/escape/escape.go:1851-1868 | The removed nodes are the greatest set of load nodes, escaped or leaked as subnodes, that no edge leaves, that no internal edge touches and whose parents have their status. |
| SummarySimplifier.RemoveNodesInSet | analysis/escape/escape.go:1871-1895 | Deletes the nodes and edges to them, then edges out of leaked nodes that are internal only; the graph stays closed. |
| SummarySimplifier.WithoutNodesIsGood | analysis/escape/escape.go:1871-1881 | Deleting nodes keeps the graph closed and every other node with its status. |
| SummarySimplifier.KeptPaths | analysis/escape/escape.go:1871-1881 | Between kept nodes exactly the same reachability remains. |
| SummarySimplifier.SimplifiedIs | analysis/escape/escape.go:1817-1895 | What is left are all other nodes with their statuses and all edges between them but those that are internal only and start in a leaked node. |
| SummarySimplifier.SimplifySummary | analysis/escape/escape.go:1817-1843 | Removes exactly the nodes that are candidates and reach only candidates; no edge leaves the removed set, and the result is well formed and closed. |
| SummarySimplifier.SimplifiedMonotoneIff | analysis/escape/escape.go:1817-1895 | Of two ordered closed graphs the pruned ones are ordered if and only if every subnode edge of the smaller into a node that the greater loses joins nodes of one status there, and every edge that the greater drops (internal only, out of a leaked node) starts in a node that has leaked in the smaller already. |
| SummarySimplifier.SimplifiedNotMonotone | analysis/escape/escape.go:1883-1895 | Two ordered graphs whose pruned graphs are not ordered. |
| EscapePrograms.EscProgramIsValid | analysis/escape/escape.go:1203-1251 | With blocks that merge, run their instructions over escape graphs and look at the summaries of the functions they call, a block's graph depends on its predecessors and these summaries alone, so that the results about all programs apply. |
| EscapePrograms.CalleesAreCalled | analysis/escape/escape.go:614-634 | The summaries a block looks at are those of exactly the functions called at its call sites. |
| EscapePrograms.EndGraphFlows | analysis/escape/escape.go:1203-1245 | A block's graph is what flows through the block from the merge of its predecessors with these summaries. |
| EscapePrograms.EndGraphMono | analysis/escape/escape.go:1203-1251 | With monotone instructions, greater predecessor graphs and callee summaries give a greater block graph. |
| EscapePrograms.ReturnGraphMono | analysis/escape/escape.go:1386-1400 | Greater block graphs give a greater merge of the returning blocks with their results bound, also if more blocks have a graph. |
| EscapePrograms.ReturnGraphHolds | analysis/escape/escape.go:1386-1400 | The merge holds the graph of every returning block with the results bound. |
| EscapePrograms.ReturnGraphBelow | analysis/escape/escape.go:1386-1400 | Whatever is above all these graphs and has the results bound is above the merge. |
| EscapePrograms.SummaryHolds | analysis/escape/escape.go:1410-1418 | A node of the summary is one of the merge with its status there and reachable from the roots; what is so and no load node is in the summary. |
| EscapePrograms.ReachablePartMono | analysis/escape/graph.go:162-203 | Of a greater graph a greater part is reachable from the roots. |
| EscapePrograms.EscProgramIsMonotone | analysis/escape/escape.go:1380-1435 | With monotone instructions and binding of results, the program with pruned summaries is monotone over every lattice of closed escape graphs that pruning stays in and whose graphs meet the condition of `SimplifiedMonotoneIff`. |
| PrunedPrograms.JoinLeaks | analysis/escape/graph.go:765-773 | In the join of two closed graphs whose leaked nodes are those of a given set, again exactly the nodes of that set leak. |
| PrunedPrograms.FixedLeaksAgree | analysis/escape/escape.go:1817-1895 | If in two ordered graphs the same nodes leak and subnodes are of their parents' kind, the condition of `SimplifiedMonotoneIff` holds. |
| PrunedPrograms.FixedLeaksSettle | analysis/escape/escape.go:1440-1529 | Over these graphs every program with monotone instructions and pruned summaries is valid and monotone. |
| PrunedPrograms.FixedLeaksEnd | analysis/escape/escape.go:1498-1529 | No run of such a program goes on for ever. |
| PrunedPrograms.FixedLeaksLeast | analysis/escape/escape.go:1498-1529 | Whenever the worklist is empty in such a run, graphs and pruned summaries are the least solution. |
| PrunedPrograms.SelfUndoingNeverEnds | analysis/escape/escape.go:1498-1529 | A valid program of one function that calls itself, with a monotone instruction and the pruning of the source, on which no run ever empties the worklist. |
| PrunedPrograms.SelfUndoingRuns | analysis/escape/escape.go:1498-1529 | That program has runs of every length. |
| DeferStacks.StackCompare | analysis/defers/defer.go:63-83 | The three-way comparison is the total order used everywhere else. |
| DeferStacks.CompareZero | analysis/defers/defer.go:63-83 | Stacks compare as equal only if they are equal. |
| DeferStacks.LessTrans | analysis/defers/defer.go:63-83 | The comparison is transitive. |
| DeferStacks.Trichotomy | analysis/defers/defer.go:63-83 | Of two stacks exactly one is less, or they are equal. |
| DeferStacks.LessIsLexicographic | analysis/defers/defer.go:63-83 | A stack is less exactly if it ends first or, at the first difference, has the earlier block, or the earlier instruction of the same block. |
| DeferStacks.SortedUnique | analysis/defers/defer.go:40-54 | A set of stacks has one strictly sorted slice. |
| DeferStacks.StackSetUnion | analysis/defers/defer.go:89-131 | The merge of two strictly sorted slices is strictly sorted and holds the union; `sameAsA` is true exactly if b is contained in a. |
| DeferStacks.DataflowTransfer | analysis/defers/defer.go:143-182 | The result is strictly sorted and holds the transferred stacks of the set; `repeated` is true exactly if a defer meets a stack that has it. |
| DeferStacks.StepSetHolds | analysis/defers/defer.go:143-182 | After a defer there are the stacks that had it and the others with it on top, after a RunDefers there is just the empty stack, and nothing else changes stacks. |
| DeferPaths.EntryIsFirstOccurrences | analysis/defers/defer.go:143-182 | Along any path the analysed stack at a block's entry is the real defer stack without its repeated occurrences. |
| DeferPaths.PendingExactly | analysis/defers/defer.go:143-182 | The real defer stack on a path holds exactly the defers that the path has executed with no RunDefers since. |
| DeferPaths.RealRunStep | analysis/defers/defer.go:143-182 | A defer goes on top of the real stack, a RunDefers empties it, and other instructions leave it. |
| DeferPaths.BoundedIffNoRepeat | analysis/defers/defer.go:257-260 | No path executes a defer twice without a RunDefers in between exactly if no transfer along a path repeats. |
| DeferPaths.EntryStays | analysis/defers/defer.go:213-243 | Analysed stacks are duplicate-free sequences of the function's instructions, of which there are finitely many. |
| DeferAnalysis.QuietIsExact | analysis/defers/defer.go:193-260 | When no block is marked changed, the recorded sets and the bounded flag are exact. |
| DeferAnalysis.VisitKeeps | analysis/defers/defer.go:215-236 | Visiting a marked block keeps the invariant, whichever block it is. |
| DeferAnalysis.VisitIsCloser | analysis/defers/defer.go:215-236 | Each visit of a marked block adds a stack to some block or unmarks one. |
| DeferAnalysis.PushToSuccessors | analysis/defers/defer.go:231-235 | Each successor's set becomes the union, and exactly the changed blocks are marked. |
| DeferAnalysis.AnalyzeFunction | analysis/defers/defer.go:187-266 | Ends for every control-flow graph and every block order; each reached RunDefers gets exactly the first-occurrence stacks of the paths to it, and the bounded flag is true exactly if no path pushes a defer that is pending. |
| DeferAnalysis.ExactUnique | analysis/defers/defer.go:213-243 | The exact result is unique, so it does not depend on the block order. |
| NodeTraces.KeyInjective | analysis/dataflow/trace.go:155-178 | Different traces have different keys. |
| NodeTraces.KeyOfExample | analysis/dataflow/trace.go:155-178 | An example of a key: identifiers from the root on, joined by dashes. |
| NodeTraces.NodeTree.Add | analysis/dataflow/trace.go:156-178 | Returns the child for the node, the one there is or a new one; children keep different nodes. |
| NodeTraces.NodeTree.Append | analysis/dataflow/trace.go:180-196 | Follows the rest of another trace that starts at this node's label, adding what is missing; nothing if it starts elsewhere. |
| NodeTraces.NodeTree.ToSlice | analysis/dataflow/trace.go:124-135 | The labels from the root to the node, in order. |
| NodeTraces.NodeTree.GetLassoHandle | analysis/dataflow/trace.go:142-153 | The nearest ancestor that prints like the node, exactly if there is one. |
| CallContexts.AllSeen | analysis/dataflow/callctx.go:58-81 | Once the queue is empty, every loop-free caller chain that does not stop earlier was queued. |
| CallContexts.ExploringExpands | analysis/dataflow/callctx.go:66-74 | Replacing a chain by its extensions not seen before keeps the invariant of the search. |
| CallContexts.KeysGrow | analysis/dataflow/callctx.go:71-74 | The inserted keys are those of exactly the chains queued, so de-duplication by key loses none. |
| CallContexts.IsRecursive | analysis/dataflow/callctx.go:94-102 | True exactly if the call is on the stack. |
| CallContexts.HasReachedContextLimit | analysis/dataflow/callctx.go:104-118 | True exactly if the limit is positive and the stack has at least that length. |
| CallContexts.ReverseCallStack | analysis/dataflow/callctx.go:120-129 | The stack with its labels in reverse order. |
| CallContexts.Expand | analysis/dataflow/callctx.go:66-76 | Makes exactly the extensions by a caller not on the chain whose key is new, each once. |
| CallContexts.GetAllCallingContexts | analysis/dataflow/callctx.go:31-92 | Ends, and returns without repetition exactly the sequences of calls, outermost first and down to the node, in which each call is a listed call site of the function the next one is in, none occurs twice, and the first is the only one from which an entry point or the length limit has been reached. |
| CallContexts.ContextReversed | analysis/dataflow/callctx.go:31-92 | A caller chain from the node up is one the search looks for exactly if it is such a sequence turned round. |
| BacktraceSteps.StateKeyInjective | analysis/dataflow/trace.go:35-38 | The key of a node with its call trace, closure trace and kind determines all four. |
| BacktraceSteps.KeyExample | analysis/dataflow/trace.go:35-38 | An example of a key: node, call trace, closure trace and kind in this order. |
| BacktraceSteps.TargetIs | analysis/backtrace/backtrace.go:439-510 | A step keeps, extends, shortens by one or drops the call trace, and independently the closure trace. |
| BacktraceSteps.BalancedKeeps | analysis/backtrace/backtrace.go:439-510 | Steps that enter calls and leave all of them again lead back to the trace from before. |
| BacktraceSteps.MovedIsGood | analysis/backtrace/backtrace.go:862-870 | A trace that is kept, extended by one, popped or dropped and passes the lasso check is free of repetition if it was before. |
| BacktraceSteps.GoodIsOne | analysis/backtrace/backtrace.go:853-870 | Every state that passes the checks is one of finitely many. |
| BacktraceRuns.AddStep | analysis/backtrace/backtrace.go:853-878 | A step that fails the tuple check, makes a lasso or leads to a state that was pushed before is skipped and any other is pushed, which keeps the invariant of the search. |
| BacktraceRuns.ExpandsUnlessDeep | analysis/backtrace/backtrace.go:299-303 | The steps from a node are followed exactly if it is no base case and the depth limit, if there is one, is not exceeded. |
| BacktraceRuns.VisitedMatches | analysis/backtrace/backtrace.go:264-303 | Every visited path follows steps that visits of the nodes before have found, and where these enter calls and leave them all, call and closure traces are those from before. |
| BacktraceRuns.VisitsExactly | analysis/backtrace/backtrace.go:299-303 | If the steps that pass the tuple check depend on the state alone and there is no depth limit, the search visits exactly the states reachable by steps without lasso. |
| Backtrace.FindTrace | analysis/backtrace/backtrace.go:907-916 | The nodes from the given one back to the entrypoint. |
| Backtrace.AddNext | analysis/backtrace/backtrace.go:827-879 | Pushes a child of the current node exactly if it is not a return of another tuple element than the argument before the current node came from, its key is new and neither trace is a lasso, and then records the key. |
| Backtrace.AddTrace | analysis/backtrace/backtrace.go:918-943 | Records a trace unless it ends at an unwanted (static) node or has been recorded before. |
| Backtrace.Visit | analysis/backtrace/backtrace.go:264-303 | Ends, whatever the steps found at each visit; no state is pushed twice, all pushed traces are free of repetition, every visited path is a chain of steps from the entrypoint along which calls and returns match, and the recorded traces are, each once, exactly the visited paths turned round of the visits that looked no further or that could and pushed nothing, but for unwanted ends. |
| Blocks.SearchingDecreases | analysis/lang/blocks.go:32-50 | Taking a visited block off the queue adds only blocks that are already waiting further back, which is why the search ends. |
| Blocks.SearchingDone | analysis/lang/blocks.go:32-50 | With an empty queue the target is not reachable. |
| Blocks.ReachIsControl | analysis/lang/blocks.go:32-50 | A block is reachable exactly if there is a sequence of blocks to it in which each is in the list of successors of the one before. |
| Blocks.Search | analysis/lang/blocks.go:30-50 | Ends, and finds the target exactly if control can get there, with or without right answers in the memo. |
| Blocks.HasPathTo | analysis/lang/blocks.go:21-56 | Reflexive and transitive reachability; only right answers are recorded and no other entry of the memo changes. |
| Blocks.HasPaths | analysis/lang/blocks.go:19-21 | Any series of questions sharing one memo gets the answers it would get without. |
| BlockPaths.BlockTree.PathToLeaf | analysis/lang/datastructs.go:60-71 | The path from the root to the block, with the block once more at the end. |
| BlockPaths.BlockPath.ToBlocks | analysis/lang/datastructs.go:51-57 | The blocks of the list in order. |
| BlockPaths.StackedStep | analysis/dataflow/path.go:228-243 | Every unvisited successor of a visited block stays above all copies of that block on the stack, so a block met again adds nothing. |
| BlockPaths.FindPathBetweenBlocks | analysis/dataflow/path.go:218-244 | Ends; returns nothing exactly if there is no path of at least one edge, and otherwise such a path with its last block once more. |
| BlockPaths.SimplePathCondition | analysis/dataflow/path.go:195-214 | The conditions of the branches along the list, in order; the first successor is compared before the second. |
| BlockPaths.BranchConditions | analysis/dataflow/path.go:195-214 | Going to the first successor of a branch records the condition as true, going to the second as false, and other blocks record nothing. |
| BlockPaths.ConditionsRun | analysis/dataflow/path.go:195-214 | The recorded conditions are a way for control to run along the path. |
| BlockPaths.ConditionsExact | analysis/dataflow/path.go:192-214 | They are the only way if and only if no branch on the path goes to the same block either way. |
| BlockPaths.FindIntraProceduralPath | analysis/dataflow/path.go:175-190 | Satisfiable exactly if the instructions share a function and a path exists; the conditions are those of the path if and only if its last block does not end in a branch to itself. |
| BlockPaths.SpuriousCondition | analysis/dataflow/path.go:175-214 | A loop of one block gets a condition that the path does not have. |
| DependencyCycles.DependencyGraph.Add | analysis/reachability/dependency_graph.go:52-73 | The graph gains its two nodes and the edge; both families of lists stay duplicate-free and each other's inverse. |
| DependencyCycles.DependencyGraph.FindCycles | analysis/reachability/dependency_graph.go:89-106 | Ends; true exactly if a cycle is reachable without the nodes that were done before the search; visited marks are restored, and what became done is closed under successors and free of cycles. |
| DependencyCycles.DependencyGraph.Cycles | analysis/reachability/dependency_graph.go:77-87 | True exactly if some entry nothing depends on reaches a cycle without the nodes that were done before. |
| DependencyCycles.CyclesExact | analysis/reachability/dependency_graph.go:75-87 | If the nodes done before are closed under successors and free of cycles, skipping them misses nothing. |
| DependencyCycles.AddKeepsCleared | analysis/reachability/dependency_graph.go:52-106 | Adding an edge keeps that so if and only if the edge was there, or its source is not done, or its target is done and does not reach the source. |
| DependencyCycles.StaleAnswer | analysis/reachability/dependency_graph.go:52-106 | An example where a search in between makes the next one miss a cycle. |
| GoColours.NumberGoCalls | analysis/concurrency/concurrency.go:52-67 | The statements are numbered from 1 in order, modulo 2 to the 32, with nothing at index 0. |
| GoColours.NumberedUnlessWrapped | analysis/concurrency/concurrency.go:30-32 | Looking up the number of every go statement gives it back if and only if there are fewer than 2 to the 32 of them. |
| GoColours.FollowEdge | analysis/concurrency/concurrency.go:86-109 | The callee gains the number of the go statement, or all colours of the caller; reports exactly whether it was new or changed. |
| GoColours.FollowingStep | analysis/concurrency/concurrency.go:76-114 | Following one edge and queueing a changed callee keeps every node that is not queued spread to all its callees. |
| GoColours.Colours | analysis/concurrency/concurrency.go:69-116 | Ends; a colour is on a node exactly if some walk from the root to the node has it as the number of its last go statement; the number is 0 for a walk without go statements, and for a go statement that has none. |
| GoColours.LastGoAfter | analysis/concurrency/concurrency.go:86-109 | After a go statement a walk has the number of that statement, 0 if it has none, and a call does not change it. |
| GoColours.EdgeIsWalk | analysis/concurrency/concurrency.go:86-109 | Every edge of the root that has a callee is a walk. |
| GoColours.ZeroIsGoFree | analysis/concurrency/concurrency.go:34-37 | The nodes with colour 0 are exactly those that some walk reaches without a go statement, if and only if every node that a go statement counting as 0 starts is reached so too. |
| GoColours.NumberedZeroIsGoFree | analysis/concurrency/concurrency.go:69-116 | If every go statement of the call graph has a number other than 0, a node has colour 0 exactly if some walk reaches it without a go statement. |
| GoColours.StartedOnlyByGo | analysis/concurrency/concurrency.go:34-37 | An example of a reachable node that does not get 0. |
| GoColours.UnnumberedCountsAsZero | analysis/concurrency/concurrency.go:95-100 | The same example with an unnumbered go statement: the node gets 0 although only a go statement starts it. |
| AbstractValues.UnionIsLub | analysis/dataflow/abstract_value.go:189-203 | Merging marks path by path is the least upper bound. |
| AbstractValues.AbstractValue.Add | analysis/dataflow/abstract_value.go:112-121 | The mark is added at its path, or at the root for a value without paths; nothing else changes. |
| AbstractValues.MergePaths | analysis/dataflow/abstract_value.go:189-203 | The union path by path, in place; a path that was missing gets a set of its own with a copy of the marks; reports exactly whether the value changed. |
| AbstractValues.SetsApart | analysis/dataflow/abstract_value.go:60-76 | A set of marks belongs to one path of one value: no two paths, of the same value or of different ones, share one. |
| AbstractValues.MergeAtRoot | analysis/dataflow/abstract_value.go:214-223 | The marks arrive at the root; a change is reported unless it is a single mark where there was no root entry. |
| AbstractValues.UnreportedIsChange | analysis/dataflow/abstract_value.go:214-218 | The unreported merge does change the value. |
| AbstractValues.MergeInto | analysis/dataflow/abstract_value.go:180-234 | The merged marks in all four combinations, nothing for nil; the value merged from keeps its marks and shares no set with the other; the flag is true exactly if the value changed, but for the one change that goes unreported. |
| AbstractValues.MergedMarks | analysis/dataflow/abstract_value.go:180-234 | Afterwards each path has the marks it had and those that arrive there: at their own path, or at the root if only one of the two values keeps paths. |
| FlowTable.PositionInjective | analysis/dataflow/flow_info.go:141-151 | If the table fits in 32 bits, different places have different positions. |
| FlowTable.InsideUnlessWrapped | analysis/dataflow/flow_info.go:130-151 | All positions lie inside the allocated slice if and only if the number of cells does not wrap around. |
| FlowTable.AssignIDs | analysis/dataflow/flow_info.go:76-109 | Each value gets, modulo 2 to the 32, the number of different values before its first occurrence; what is nil or ignored gets none; the count is that of the different values, modulo 2 to the 32. |
| FlowTable.NumberingUnlessWrapped | analysis/dataflow/flow_info.go:76-109 | The numbers are 0 up to the count, each given once, if and only if there are fewer than 2 to the 32 values. |
| FlowTable.InvertIDs | analysis/dataflow/flow_info.go:88-91 | The slice of values holds each value at its number; there is no result (a panic) exactly if some number lies outside. |
| FlowTable.FlowInformation.NewFlowInfo | analysis/dataflow/flow_info.go:75-134 | Fails (a panic) exactly if there are 2 to the 32 values or more; otherwise an empty table with both numberings, whose size wraps around, and which is valid exactly if neither the number of instructions nor the size does. |
| FlowTable.FlowInformation.GetPosInjective | analysis/dataflow/flow_info.go:141-151 | Positions of tracked instructions and values are in range and different, and the cell there is about that value. |
| FlowTable.FlowInformation.CellsApart | analysis/dataflow/flow_info.go:66-68 | No two places of the table share a cell or a set of marks. |
| FlowTable.FlowInformation.AddMark | analysis/dataflow/flow_info.go:239-256 | For a tracked place the cell has the mark afterwards at the path, further down or at the root (at the root for a value without paths); the result is false exactly if it had it there before, and then nothing changes, else the mark has been added at the path; every other cell keeps its marks. Otherwise nothing happens. Cells and sets stay unshared. |
| FlowTable.WithMarkHasMark | analysis/dataflow/flow_info.go:236-256 | Afterwards the cell has the mark at the path, and has lost nothing. |
| FlowTable.WithMarkTells | analysis/dataflow/abstract_value.go:237-247 | The same on the contents of one cell. |
| FlowTable.FlowInformation.MergeRow | analysis/dataflow/intra_procedural_monotone_analysis.go:234-247 | Each cell of the row becomes the union with the cell of the other row in its column, made if it was missing; all other cells keep their marks, no set of marks becomes shared; reports exactly whether the table changed. |
| FlowTable.GatheredStep | analysis/dataflow/intra_procedural_monotone_analysis.go:233-247 | After one more predecessor the cell is the least upper bound over one more row. |
| FlowTable.IntraAnalysisState.Pre | analysis/dataflow/intra_procedural_monotone_analysis.go:227-248 | Each cell of the current row becomes the least upper bound of what it was and the cells of all listed predecessors, every other row keeps its marks, no two cells share a set of marks, and the flag goes up exactly if the table changed. |
| Decimal.AtoiOfItoa | analysis/summaries/summary.go:350-356 | Reading the printed form of a machine integer gives it back. |
| Decimal.AtoiInRange | analysis/summaries/summary.go:350-356 | A printed integer is read exactly if it fits in 64 bits. |
| Decimal.DecimalExamples | analysis/summaries/summary.go:350-356 | Examples of numerals that are printed, read and refused. |
| SummaryNodes.Cut | analysis/summaries/summary.go:322-326 | Splits at the first occurrence of the character, exactly if there is one. |
| SummaryNodes.PrintedForm | analysis/summaries/summary.go:384-446 | How each kind of node is written, without and with an object path. |
| SummaryNodes.ReturnAlone | analysis/summaries/summary.go:358-362 | A return without an index is the first one. |
| SummaryNodes.NameRejected | analysis/summaries/summary.go:336-347 | A name between angle brackets that is not valid is refused as a bad name. |
| SummaryNodes.IndexRejected | analysis/summaries/summary.go:350-368 | What stands for an index and is no integer is refused as such. |
| SummaryNodes.OpenNameRejected | analysis/summaries/summary.go:336-356 | A name whose bracket is not closed is refused as no integer. |
| SummaryNodes.OthersRejected | analysis/summaries/summary.go:369-374 | What has none of the three forms is refused. |
| SummaryNodes.NameExamples | analysis/summaries/summary.go:340-346 | Examples of valid and invalid names. |
| SummaryNodes.ParsedIsCanonical | analysis/summaries/summary.go:320-374 | Every parsed node has a valid name and index 0, or no name, and an index in range. |
| SummaryNodes.PrintParse | analysis/summaries/summary.go:320-446 | Parsing the printed form gives the node back, with any object path, if and only if the node is of that shape. |
| SummaryNodes.ParsePrintParse | analysis/summaries/summary.go:320-446 | Printing what was parsed from any accepted string parses to the same node again. |
| SummaryNodes.PrintInjective | analysis/summaries/summary.go:384-446 | Different nodes of that shape print differently. |
| SummaryNodes.NestedPathRejected | analysis/summaries/summary.go:321-333 | A string with two opening parentheses is not accepted: an object path cannot be given twice. |
| SummaryNodes.NameLosesIndex | analysis/summaries/summary.go:411-422 | An argument printed by name comes back with index 0. |

## Left out

- Calls into the SSA, type-checker and pointer-analysis libraries, `transferFunction` case by case, `CompatibleTypes`, `Graphviz` and rationales: the transfer of an instruction is any monotone function on escape graphs.
- `EscapeGraph.Call`, `WeakAssign`, `LoadField`, `StoreField` and `AnalogousSubnode`: they depend on Go's type assignability or only call the operations modelled here.
- CloneReachable: nil roots are not modelled; they have no edges and no status in the source.
- RemoveNodesInSet: deleting several keys of one row, or of the graph, is one map difference.
- RunForwardIterative: termination and the least solution need a monotone transfer that keeps graphs within a finite set of nodes; the source does not check either. `NodeBounds` says when there are finitely many nodes, and `ConsistentIsSolved` what holds of an empty worklist with any transfer.
- EscapeAnalysis: ends for a monotone program; that the instructions of the source are monotone is not proved. With its pruning the program is monotone under the condition of `EscProgramIsMonotone`, and need not end otherwise (`SelfUndoingNeverEnds`). What holds whenever the worklist runs empty, monotone or not, is `RunIsSafe`.
- Resummarize: needs a monotone program in order to end, like `EscapeAnalysis`. The overflow path, which reports a change without changing the summary, and functions that are not summarized are not modelled.
- SummaryRises: says nothing of a summary that is not monotone; `SummaryStepKeeps` does.
- BlockStepKeeps: the call sites of a block are fixed, and the graph of a block depends on its predecessors and the compared summaries alone. In the source a call also reads the load operations of the callee's nodes (analysis/escape/graph.go:1059), which `Matches` does not compare, so a change of these alone schedules no user of the summary; they are not part of this model.
- EscProgram: the transfer of an instruction and the binding of results are given as functions on graphs.
- EscapeGraph values in `WholeProgram`, `ProgramFixpoint` and `ProgramWorklist`: summaries and block graphs are immutable values there, of any type.
- EnsureLoadNode: the abstract-type test is an input, and the type of a load node is not kept.
- Become: the transfer of an instruction is a function on values, so its result is written into new rows at once.
- SortStacks: stands for the library's sort and is specified as a sorted permutation.
- Raw status writes in `Resolve` (analysis/escape/dataflow_interface.go:92), which bypass the closing of statuses.
- NodesBounded: the bound on subnode steps in a row, which the source has from the finite depth of types, is an assumption.
- GetAllCallingContexts: takes the entry points and the call sites of each function as given, and a call graph must be present; the order of the results is not stated.
- NodeTree: the `Origin` field and the printing functions.
- Visit: what each visit finds is an input of the search, and so is which nodes are unwanted ends, so the flow rules of each kind of node, on-demand summaries, nodes whose summary is never built, how edges are recorded for arguments, panics and errors are not modelled; the traces of one entrypoint are collected for one search.
- HasPathTo: the test of the memo at the head of the loop and the recording are the same for every exit, so they are written once.
- Add: an entry's fields are kept in maps from its name, so the identity of entries behind pointers is not modelled.
- MarksAt: the list of marks with relative paths, of which only membership is used here.
- Pre: the predecessor map is an input; its special case for RunDefers is not modelled.
- AddNext: a return reached straight from an entrypoint, where the source reads the node before a root (analysis/backtrace/backtrace.go:846), passes the tuple check.
- FindPathBetweenBlocks: blocks are told apart by identity, as are successors in `SimplePathCondition`, where the source compares block indices.
- `AsPredicateTo` and the matching of predicates on values, `CountPathOccurrences`, `ComputeContexts`, `RunDFS` and the worklist of analysis/lang/visitors.go: the last has the shape of the block worklist here, the others would only add easy members.
- `compile`, `GetArgFlows` and `GetReturnFlows` of summaries.
- Timeouts, goroutines, logging, configuration, annotations, reports, rendering, AST refactoring, file and process I/O.
