# Verified model of the cognitive runtime's kernels

The runtime records what a host does as traces, plans work as graphs, retries events, keeps checkpoints, and lets
its governance and its schema evolve. This project models the kernels on which the rest stands and proves
what they keep:

- `Digraph`, `CycleSearch`, `ExecutionGraph`, `DependencyResolver`, `Orchestrator`, `PlanRuns`, `ActionNames`: plan
  graphs. Kahn's sort, a three-colour cycle search, batching by layers and a memoised longest path are four algorithms
  over one mutable graph, proved to agree with each other; order, names and actions of a run are settled by the plan.
- `RuntimeStates`: the state machine that follows the plans, and where any run of plans leaves it.
- `CausalGraph`, `CausalBuilder`, `CausalIntegrity`, `CausalHealth`, `CorrelationSubgraph`, `TraceStages`,
  `IntegrityLaws`: traces become chains of nodes; a search runs on arbitrary graphs; a validator accepts exactly the
  right builder outputs.
- `DeltaCheckpoint`, `CheckpointRuns`, `TraceWindow`: space-saving forms of the whole list, and exactly which parts of
  it come back.
- `QueueModel`, `EventQueue`, `RetriedEvents`: the retry queue with one consumer, as a step system and as a class that
  keeps to it, and what becomes of an event that always fails.
- `OrderedDict`, `IntelligenceStore`, `StoreHistory`: a bounded store whose lazy eviction refines a plain queue.
- `GridArithmetic`, `Governance`, `GovernanceRuns`, `GovernanceLaws`: the governance loop with decimal rounding.
- `Versions`, `EvolutionGraph`, `Migration`, `MigrationEngine`, `MigrationLaws`, `Ballots`, `ConflictResolver`,
  `ConflictOrder`, `NewestOrder`, `VersionWinners`, `Consensus`, `ConsensusOrder`, `ConsensusLaws`, `VoteLists`: version
  lineage, migration paths and votes on versions.
- `TimeRewind`, `ReplayLaws`, `EventOrder`: timelines, rewinding and replay.
- `GradientGuard`: hysteresis on the confidence gradient.
- `Common`, `Sorting`, `Lexicographic`: shared sequences, a stable sort, and the order of texts.

Objects that change in place are classes whose methods are tied to functions of the state; the laws are lemmas
about those functions, and what a function decides is also said without it, in the values that go in and come out.
Clocks, hashes, file writes and the outcome of work are inputs.

Where a promised property fails, the model keeps the code and states exactly when it holds:

- A blank key is never evicted, so the store can exceed its limit (`StoreHistory.ExceedsLimitIff`).
- The guard rejects some proposals for thresholds off the grid (`GovernanceRuns.AlwaysApprovedIff`).
- A delta cuts the three score histories at the length they had in the base. A full sliding window, as the engines
  keep it (20 and 10 scores), is therefore stale from the first delta on, and a growing history repeats scores from
  the second (`CheckpointRuns.ScoresExactIff`, with inputs in `CheckpointRuns.FirstDeltaCanBeStale` and
  `CheckpointRuns.SecondDeltaCanRepeat`). The confidence gradient is always the one of the base
  (`CheckpointRuns.PlainFields`), and removed fields of the runtime state come back (`CheckpointRuns.StateExactIff`).
- A restart forgets how many traces were saved, so the next delta repeats them all
  (`CheckpointRuns.SaveAfterRestart`, `CheckpointRuns.RestartRepeats`).
- The integrity check of the trace window hashes flat what was hashed in a chain, so it passes only for a window of
  one trace (`TraceWindows.FlatHashIsStoredIff`), and negative indexes below the length wrap twice
  (`TraceWindows.TraceWindow.GetItem`).
- A refused plan asks for a transition that is forbidden, so the runtime stays in planning, and if the next plan comes
  more than five seconds later no request can move it any more (`RuntimeStates.PlansEndAt`,
  `RuntimeStates.StuckIff`, `RuntimeStates.LateAfterRefusal`). A completed runtime never leaves that state by plans.
- The continuity score is full although some events are unhealthy once there are 20000 events for each of them, and
  zero for an empty graph, which is healthy (`CausalIntegrity.FullScoreIff`).
- A tie at the top makes the agreed version depend on the order of the proposals, and three equal versions do the
  same to the newest-version strategy (`ConsensusOrder.AgreementOrderFreeIff`, `NewestOrder.NewestOrderFreeIff`, with
  inputs in `ConsensusOrder.TieIsAmbiguous` and `NewestOrder.ThreeSpellingsTie`).
  The docstring of the consensus engine promises reproducible results from the same inputs; as a set of
  proposals that holds only outside these ties, which the reports always name (`ConsensusOrder.AmbiguityIsReported`).
- The builder of plan graphs never sets a rollback, so a plan with a file change or a command is always refused
  (`Orchestrator.CentralOrchestrator.HandleExecutionPlan`).

Preconditions that the code needs: `max_bases`, `max_active`, `max_archived_segments` and `max_retries` are at least
1, snapshots have fresh ids, clock readings are in order. The laws about whole queue runs are those of one consumer
that settles each event before the next; those about kept traces are about snapshots that only append.

## Model

| member | source | states |
|---|---|---|
| `ExecutionGraphs.ExecutionGraph.AddNode` | cognitive_runtime/execution/execution_graph.py:34-35 | a known id is replaced in its place, a new one goes to the end; edges stay |
| `ExecutionGraphs.ExecutionGraph.AddEdge` | cognitive_runtime/execution/execution_graph.py:37-41 | an edge is added exactly if both ends are known; otherwise an error and no change |
| `ExecutionGraphs.SortIds` | cognitive_runtime/execution/execution_graph.py:59-66 | the queue-driven loop: what is listed has all its sources listed before it, exactly the ids without unmet sources are listed, and in the order in which the last edge into each was followed |
| `ExecutionGraphs.SortVerdict` | cognitive_runtime/execution/execution_graph.py:68-71 | the list is complete if and only if the graph has no closed walk, and then it is a schedule of all nodes |
| `ExecutionGraphs.ExecutionGraph.TopologicalSort` | cognitive_runtime/execution/execution_graph.py:49-71 | succeeds exactly on acyclic graphs, with the one permutation of the nodes in which every edge points forward and what is freed first comes first |
| `ExecutionGraphs.StalledMeansCycle` | cognitive_runtime/execution/execution_graph.py:68-69 | whenever the sort stalls, what is left lies behind a cycle |
| `PlanRuns.OrderIsSettled` | cognitive_runtime/execution/execution_graph.py:57-66 | there is exactly one schedule in which whatever was freed first runs first, so the sort leaves nothing open |
| `PlanRuns.NoEdgesKeepOrder` | cognitive_runtime/execution/execution_graph.py:57-66 | without edges the nodes run in the order in which they were added |
| `PlanRuns.FanOut` | cognitive_runtime/execution/execution_graph.py:57-66 | of two nodes that wait for the same one, the one of the first dependency runs first |
| `ActionNames.ReportedNodes` | cognitive_runtime/execution/execution_graph.py:117-128 | a node is reported exactly if it changes a file or runs a command without a rollback, or has no positive timeout |
| `CycleSearch.CycleFinder.Run` | cognitive_runtime/execution/execution_graph.py:73-98 | the three-colour search reports nothing exactly on acyclic graphs, and only simple cycles otherwise |
| `CycleSearch.CycleFinder.Dfs` | cognitive_runtime/execution/execution_graph.py:82-92 | one search from an unseen node: finished nodes have finished successors, each report is a cycle along the current path |
| `ExecutionGraphs.ExecutionGraph.DetectCycles` | cognitive_runtime/execution/execution_graph.py:73-98 | no report if and only if no closed walk exists; every report is a real simple cycle |
| `ExecutionGraphs.ExecutionGraph.ValidatePlan` | cognitive_runtime/execution/execution_graph.py:117-129 | the error list in full: one report of the cycles, then every missing rollback and bad timeout in node order |
| `DependencyResolvers.PeelLayers` | cognitive_runtime/execution/dependency_resolver.py:22-33 | the peeling loop yields a layering on every graph, cyclic ones included |
| `DependencyResolvers.DependencyResolver.ParallelSafeBatches` | cognitive_runtime/execution/dependency_resolver.py:12-34 | on any graph the batches are disjoint and each batch is exactly what becomes free after the earlier ones |
| `DependencyResolvers.BatchIndexIsLongestWalk` | cognitive_runtime/execution/dependency_resolver.py:12-34 | a node is in batch k if and only if its longest incoming walk has k + 1 nodes |
| `DependencyResolvers.LeftOutIffDownstreamOfCycle` | cognitive_runtime/execution/dependency_resolver.py:24-27 | the nodes in no batch are exactly those on a cycle or reachable from one |
| `DependencyResolvers.LongestWalkCountsBatches` | cognitive_runtime/execution/dependency_resolver.py:12-70 | on an acyclic graph any longest walk has as many nodes as there are batches |
| `DependencyResolvers.PathMemo.Longest` | cognitive_runtime/execution/dependency_resolver.py:43-57 | a memo entry is the longest walk from its node together with a next node that realises it, the first such node of all, and entries are never changed |
| `DependencyResolvers.PathMemo.Follow` | cognitive_runtime/execution/dependency_resolver.py:66-70 | following the memo gives a real walk of the promised length, with the first choice at every step |
| `DependencyResolvers.DependencyResolver.CriticalPath` | cognitive_runtime/execution/dependency_resolver.py:36-70 | a real walk with the most nodes of all walks, as long as every layering has batches, and of these the first at every choice |
| `DependencyResolvers.FirstLongestIsSettled` | cognitive_runtime/execution/dependency_resolver.py:43-70 | among the longest walks the reported one is settled: it takes the first choice at its start and at every step |
| `Orchestrator.BuildExecutionGraph` | cognitive_runtime/core/orchestrator.py:127-152 | a graph is built exactly for plans that are acceptable, said without building anything, and it holds the nodes and edges of the plan, each node made from the last step with its id |
| `Orchestrator.ExecuteGraph` | cognitive_runtime/core/orchestrator.py:154-180 | succeeds exactly on acyclic graphs, marks every node, reports the order of the sort; otherwise no status changes |
| `Orchestrator.SpellingIsFree` | cognitive_runtime/core/orchestrator.py:139-139 | an action type is found in any spelling of its name, whatever the case of its letters |
| `ActionNames.NoTypeReads` | cognitive_runtime/core/orchestrator.py:139-139 | a step without an action type only reads |
| `ActionNames.ActionsAreNamed` | cognitive_runtime/core/orchestrator.py:139-139 | in plain text exactly the five names count, in any mixture of cases |
| `ActionNames.LastStepCounts` | cognitive_runtime/core/orchestrator.py:135-141 | the step that counts for an id is the last one that names it |
| `ActionNames.NamedInOrder` | cognitive_runtime/core/orchestrator.py:135-141 | with distinct ids the nodes stand in the order of the steps |
| `PlanRuns.UnnamedStep` | cognitive_runtime/core/orchestrator.py:137-137 | a step without an id, placed after a number of nodes, is called step- and the next number, as a reader of digits confirms |
| `PlanRuns.OneName` | cognitive_runtime/core/orchestrator.py:137-137 | each number has one such name |
| `Orchestrator.CentralOrchestrator.HandleExecutionPlan` | cognitive_runtime/core/orchestrator.py:65-98 | every accepted plan runs each id exactly once, after all its dependencies and in the order in which they free it; every other plan is refused; the runtime state takes the steps of that outcome |
| `PlanRuns.RunsAfter` | cognitive_runtime/core/orchestrator.py:143-145 | in every run the source of a dependency comes before its target |
| `PlanRuns.ChainRuns` | cognitive_runtime/core/orchestrator.py:127-152 | any number of steps without ids, each waiting for the one before by its number, are accepted, and the report lists step-1 to step-n in this order |
| `PlanRuns.TwoSteps` | cognitive_runtime/core/orchestrator.py:127-152 | two such steps: the report lists exactly step-1 and step-2 |
| `RuntimeStates.StateContext.Transition` | cognitive_runtime/state/state_context.py:50-90 | the state moves exactly if the target is another state, allowed from here, and the time limit has not passed; the recorded transitions always form a path of allowed moves from idle, each within its limit; a refusal says whether the move is forbidden, disallowed or too late |
| `RuntimeStates.MovesAre` | cognitive_runtime/state/runtime_state_machine.py:17-51 | the twelve moves there are, and the limits of 5, 30, 10 and 30 seconds |
| `RuntimeStates.StuckIff` | cognitive_runtime/state/state_context.py:50-64 | no sequence of later requests can move the machine if and only if the limit of its state has passed |
| `RuntimeStates.PlansEndAt` | cognitive_runtime/core/orchestrator.py:65-98 | where any run of plans leaves the machine: planning while all are refused, and from the first acceptable plan on wherever that plan got within the limits, for good |
| `RuntimeStates.PlansNeverFail` | cognitive_runtime/core/orchestrator.py:69-72 | no plan, refused or not, brings the machine to the failed state that a refusal asks for |
| `RuntimeStates.PlansCompleteIff` | cognitive_runtime/core/orchestrator.py:85-92 | the machine completes if and only if the first acceptable plan meets all limits, planning counted from the first plan of all |
| `RuntimeStates.LateAfterRefusal` | cognitive_runtime/state/runtime_state_machine.py:43-51 | a refused plan and six seconds: nothing moves the machine any more |
| `CausalGraphs.PathFinder.Dfs` | cognitive_runtime/contracts/causal_graph.py:98-112 | the backtracking search: the trail stays a simple path, and a failed search closes off all it visited |
| `CausalGraphs.PathToOutcome` | cognitive_runtime/contracts/causal_graph.py:91-115 | on any graph, cycles and dangling children included: a simple child path to an outcome if one is reachable, nothing exactly if none is |
| `CausalBuilder.AddTrace` | cognitive_runtime/contracts/causal_graph.py:146-309 | one trace adds the nodes and edges of its chain of two to five stages, new nodes at the end |
| `CausalBuilder.WireChildren` | cognitive_runtime/contracts/causal_graph.py:311-325 | the second pass gives every node the targets of its edges as children, once each |
| `CausalBuilder.Build` | cognitive_runtime/contracts/causal_graph.py:139-327 | for any traces parents, children and edges agree and the order is that of the traces; with unique events the graph is one chain for each trace and nothing else |
| `TraceStages.BlockedIff` | cognitive_runtime/contracts/causal_graph.py:184-187 | a trace has a blocked node exactly if preflight blocked it, or a verdict to block, defer or review ended in a P4 status |
| `TraceStages.NodesOfTrace` | cognitive_runtime/contracts/causal_graph.py:146-309 | which other nodes a trace has, by its preflight, verdict and execution |
| `TraceStages.ParentsOfTrace` | cognitive_runtime/contracts/causal_graph.py:146-309 | the parent of every node, by the same fields |
| `TraceStages.EdgesAreParents` | cognitive_runtime/contracts/causal_graph.py:146-309 | the edges are exactly the links to parents, and the type of an edge is that of the stage it leads to |
| `TraceStages.NodesInOrder` | cognitive_runtime/contracts/causal_graph.py:146-309 | the nodes stand trace by trace, and within a trace in the order of its stages |
| `TraceStages.DeferredTrace` | cognitive_runtime/contracts/causal_graph.py:184-236 | a deferred proposal becomes host, proposal, blocked and outcome, in one row |
| `CausalIntegrity.DetectOrphans` | cognitive_runtime/intelligence/causal_integrity_engine.py:112-131 | the issues are exactly those of the nodes with a parent and neither children nor edges |
| `CausalIntegrity.DetectMissingEdges` | cognitive_runtime/intelligence/causal_integrity_engine.py:133-175 | the issues are exactly the dead ends and the parent links without an edge |
| `CausalIntegrity.DetectCycles` | cognitive_runtime/intelligence/causal_integrity_engine.py:177-207 | an issue is reported if and only if the child links contain a closed walk |
| `CausalIntegrity.DetectImpossibleTransitions` | cognitive_runtime/intelligence/causal_integrity_engine.py:209-227 | the issues are exactly the edges between stages that may not follow each other |
| `CausalIntegrity.Validate` | cognitive_runtime/intelligence/causal_integrity_engine.py:67-110 | on any graph the issues are listed detector by detector and counted; healthy are exactly the events that no critical issue names; the score is their rounded share |
| `IntegrityLaws.OrphansAre` | cognitive_runtime/intelligence/causal_integrity_engine.py:112-131 | an orphan is reported for exactly the nodes that name a parent, have no children, and stand at no edge |
| `IntegrityLaws.MissingAre` | cognitive_runtime/intelligence/causal_integrity_engine.py:133-175 | a missing edge is reported for exactly the nodes without an edge from their parent and those at which the way stops |
| `IntegrityLaws.ImpossibleAre` | cognitive_runtime/intelligence/causal_integrity_engine.py:209-227 | an impossible transition is reported for exactly the edges that take none of the eight possible steps |
| `CausalIntegrity.EventsNamedAre` | cognitive_runtime/intelligence/causal_integrity_engine.py:84-91 | the unhealthy events are exactly those at impossible transitions and on reported cycles |
| `CausalIntegrity.FullScoreIff` | cognitive_runtime/intelligence/causal_integrity_engine.py:95-109 | the score is full if and only if there are 20000 events for each unhealthy one, and at least one event; in general it is the healthy share to four decimals |
| `CausalHealth.BuiltIsAcyclic` | cognitive_runtime/contracts/causal_graph.py:139-327 | stages only climb, so no built graph has a cycle |
| `CausalHealth.LegalIffComplete` | cognitive_runtime/intelligence/causal_integrity_engine.py:58-65 | a trace takes only valid transitions exactly if it is complete: blocked, or preflight, verdict and execution all present |
| `CausalHealth.IllegalEventsAreIncomplete` | cognitive_runtime/intelligence/causal_integrity_engine.py:209-227 | in a built graph the events with impossible transitions are exactly those with an incomplete trace |
| `CausalHealth.BuildAndValidate` | cognitive_runtime/intelligence/causal_integrity_engine.py:67-110 | building and validating any traces: no orphan, missing edge or cycle ever; healthy if and only if every trace was blocked as its status and verdict say, or passed preflight, got a verdict and was executed |
| `CausalHealth.HealthyEventsAreTraces` | cognitive_runtime/intelligence/causal_integrity_engine.py:81-91 | with unique events the healthy events are as many as the complete traces |
| `CausalHealth.PathFromHostIsChain` | cognitive_runtime/contracts/causal_graph.py:91-115 | from the host event of a trace there is one path to an outcome, and it is the whole chain |
| `CorrelationSubgraph.SubgraphOfBuilt` | cognitive_runtime/contracts/causal_graph.py:120-130 | the subgraph of a correlation is the graph built from the traces of that correlation |
| `IntegrityLaws.SubgraphKeeps` | cognitive_runtime/contracts/causal_graph.py:120-130 | on any graph: the nodes of the correlation, and every edge with one of them at an end, as often as before |
| `IntegrityLaws.SubgraphInOrder` | cognitive_runtime/contracts/causal_graph.py:120-130 | the nodes of a subgraph keep the order of the graph |
| `DeltaCheckpoint.DeltaCheckpointManager.SaveBase` | cognitive_runtime/recovery/delta_checkpoint.py:135-167 | a written base is what loading gives; a failed write changes nothing that loading sees, even when the file is cut off; the last max_bases bases stay with their files |
| `DeltaCheckpoint.DeltaCheckpointManager.SaveDelta` | cognitive_runtime/recovery/delta_checkpoint.py:169-205 | a written delta continues the loaded content by what is new since the last save |
| `DeltaCheckpoint.DeltaResumes` | cognitive_runtime/recovery/delta_checkpoint.py:177-192 | a delta names its snapshot and base, and its traces continue the history exactly where the last save ended |
| `DeltaCheckpoint.DeltaCheckpointManager.Save` | cognitive_runtime/recovery/delta_checkpoint.py:115-133 | a base exactly when none is there or the interval has passed, a delta otherwise; failures lose nothing; appended traces stay up to date |
| `DeltaCheckpoint.DeltaCheckpointManager.PruneOldBases` | cognitive_runtime/recovery/delta_checkpoint.py:315-332 | the oldest bases go and exactly the last max_bases stay, if there are as many, with their files |
| `DeltaCheckpoint.DeltaCheckpointManager.Accumulate` | cognitive_runtime/recovery/delta_checkpoint.py:251-281 | adding the deltas one by one gives the content that base and chain stand for |
| `DeltaCheckpoint.DeltaCheckpointManager.ApplyDeltas` | cognitive_runtime/recovery/delta_checkpoint.py:237-281 | a chain that is not 1..k raises the gap error, any other is accumulated in number order |
| `DeltaCheckpoint.DeltaCheckpointManager.LoadLatest` | cognitive_runtime/recovery/delta_checkpoint.py:207-217 | loading always finds the current content: REC-DELTA-001 never fires |
| `DeltaCheckpoint.DeltaCheckpointManager.VerifyDeltaChain` | cognitive_runtime/recovery/delta_checkpoint.py:283-291 | the chain check succeeds in every reachable state |
| `CheckpointRuns.SaveAllAndLoad` | cognitive_runtime/recovery/delta_checkpoint.py:115-281 | after any run of saves and write failures loading gives what was written since the last base, put together field by field |
| `CheckpointRuns.ChainStaysWithin` | cognitive_runtime/recovery/delta_checkpoint.py:129-133 | in every run, no save of a chain is a whole interval away from its base |
| `CheckpointRuns.BaseAtInterval` | cognitive_runtime/recovery/delta_checkpoint.py:129-133 | a save exactly one interval later is a base, one cycle earlier a delta |
| `CheckpointRuns.ChainEndsWithLastSave` | cognitive_runtime/recovery/delta_checkpoint.py:169-205 | the last snapshot of that chain is the last save that went through |
| `CheckpointRuns.PlainFields` | cognitive_runtime/recovery/delta_checkpoint.py:265-281 | counters and times are those of the last save; id, schema version and confidence gradient those of the base |
| `CheckpointRuns.TracesExactIff` | cognitive_runtime/recovery/delta_checkpoint.py:185-185 | the traces come out right after every save of a chain if and only if traces are only appended |
| `CheckpointRuns.RunKeepsTraces` | cognitive_runtime/recovery/delta_checkpoint.py:115-281 | over every run of one process loading has the traces and counters of the last save that went through |
| `CheckpointRuns.StateExactIff` | cognitive_runtime/recovery/delta_checkpoint.py:255-263 | the runtime state is the one last saved if and only if no field saved since the base is missing from it |
| `CheckpointRuns.JoinedExactIff` | cognitive_runtime/recovery/delta_checkpoint.py:252-261 | whatever the histories: loading gives the last one if and only if it is the base itself, or extends the base while none in between was longer than the base |
| `CheckpointRuns.ScoresExactIff` | cognitive_runtime/recovery/delta_checkpoint.py:186-188 | each of the three score histories of a load with that exact condition, over any chain |
| `CheckpointRuns.GrowingScores` | cognitive_runtime/recovery/delta_checkpoint.py:186-188 | histories that only grow come out right exactly while the save before still had the history of the base |
| `CheckpointRuns.FullWindowGoesStale` | cognitive_runtime/recovery/delta_checkpoint.py:186-188 | windows of fixed length never move after the base; loading is right exactly if the window is unchanged |
| `CheckpointRuns.FirstDeltaCanBeStale` | cognitive_runtime/recovery/delta_checkpoint.py:186-188 | a window that has moved on by one is wrong at the first delta |
| `CheckpointRuns.SecondDeltaCanRepeat` | cognitive_runtime/recovery/delta_checkpoint.py:186-188 | a growing history repeats a score at the second delta |
| `CheckpointRuns.SaveAfterRestart` | cognitive_runtime/recovery/delta_checkpoint.py:92-95 | the first delta after a restart stores all traces again, which is right if and only if none was there |
| `CheckpointRuns.RestartRepeats` | cognitive_runtime/recovery/delta_checkpoint.py:92-95 | one trace saved, a restart and a second save: loading gives three traces |
| `CheckpointRuns.SaveAfterClear` | cognitive_runtime/recovery/delta_checkpoint.py:296-313 | a cleared manager starts over with a base, and loading gives it back whole |
| `TraceWindows.TraceWindow.Append` | cognitive_runtime/runtime/trace_window.py:59-67 | appending loses nothing: the window stands for the history plus the new trace |
| `TraceWindows.TraceWindow.AllTraces` | cognitive_runtime/runtime/trace_window.py:124-131 | archive and active part together are the whole append history |
| `TraceWindows.TraceWindow.GetItem` | cognitive_runtime/runtime/trace_window.py:224-230 | indexing agrees with the list exactly outside one range of negative positions, where it wraps twice |
| `TraceWindows.TraceWindow.GetSlice` | cognitive_runtime/runtime/trace_window.py:210-223 | every slice with unit step agrees with the list, with any bounds |
| `TraceWindows.IndexesAre` | cognitive_runtime/runtime/trace_window.py:225-230 | what indexing a list means: from the front, from the end, and nothing beyond |
| `TraceWindows.SlicesAre` | cognitive_runtime/runtime/trace_window.py:211-224 | what a slice with unit step means, with present and absent bounds |
| `TraceWindows.SlicesBeyond` | cognitive_runtime/runtime/trace_window.py:211-224 | a bound beyond an end means that end, and nothing lies between bounds in the wrong order |
| `TraceWindows.CapacityIndependent` | cognitive_runtime/runtime/trace_window.py:43-130 | windows of different capacity with the same history have the same traces and the same rolling hash |
| `TraceWindows.HashTellsHistory` | cognitive_runtime/runtime/trace_window.py:116-119 | two histories of one length with the same hash agree on event, status and risk of every trace, unless two texts collide; and the other way round |
| `TraceWindows.EncodingTells` | cognitive_runtime/runtime/trace_window.py:118-118 | the hashed text of a trace tells its event, status and risk apart |
| `TraceWindows.ArchiveIsPast` | cognitive_runtime/runtime/trace_window.py:73-99 | the active part is the last max_active traces, the archive is everything before them |
| `TraceWindows.TraceWindow.VerifyIntegrity` | cognitive_runtime/runtime/trace_window.py:243-250 | for any hexadecimal digest the check passes for a window of one trace and otherwise only by a collision; for an empty window it fails |
| `TraceWindows.FlatHashIsStoredIff` | cognitive_runtime/runtime/trace_window.py:116-119 | the flat hash equals the chained one exactly for one trace, or if the two different texts collide |
| `EventQueues.EventQueue.Push` | cognitive_runtime/substrate/event_queue.py:127-141 | a new row with the next sequence number; a known id is refused by the table |
| `EventQueues.EventQueue.Pop` | cognitive_runtime/substrate/event_queue.py:143-166 | the pending row with the smallest sequence number starts processing, whatever else is being processed |
| `EventQueues.EventQueue.Ack` | cognitive_runtime/substrate/event_queue.py:168-181 | any known row is completed, an unknown id changes no row; for the row in hand this is the step of the model |
| `EventQueues.EventQueue.Nack` | cognitive_runtime/substrate/event_queue.py:183-207 | one retry more for any known row: back to pending, or dead and recorded once the retries are used up; an unknown id changes nothing |
| `EventQueues.EventQueue.MoveToDeadLetter` | cognitive_runtime/substrate/event_queue.py:213-220 | an id is recorded once; beyond the limit the oldest letters go |
| `EventQueues.EventQueue.PruneDeadLetter` | cognitive_runtime/substrate/event_queue.py:222-232 | at most 1000 letters stay, and nothing that stays is older than anything removed |
| `EventQueues.EventQueue.ReplayDeadLetter` | cognitive_runtime/substrate/event_queue.py:248-271 | a known dead letter is pushed under a fresh id and leaves the table; an unknown one changes nothing |
| `EventQueues.SubstrateLoop.ProcessEvent` | cognitive_runtime/substrate/substrate_loop.py:77-110 | whatever happens to an event, it is acknowledged or rejected |
| `EventQueues.SubstrateLoop.Turn` | cognitive_runtime/substrate/substrate_loop.py:56-73 | one turn takes and settles one event, or does nothing |
| `QueueModel.StepKeepsInvariant` | cognitive_runtime/substrate/event_queue.py:127-207 | every push, pop, ack and nack keeps the frontier: settled rows, then one active row, then untouched rows |
| `QueueModel.EveryRunIsOrderedAndAccounted` | cognitive_runtime/substrate/event_queue.py:127-207 | over every run: a row is taken only when all earlier ones are completed or dead, failed plus dead-lettered is the sum of retries, no row is taken more than max_retries times |
| `QueueModel.EventsStay` | cognitive_runtime/substrate/event_queue.py:196-205 | over every run a row keeps its id, its payload and its number |
| `QueueModel.PushedEventStays` | cognitive_runtime/substrate/event_queue.py:127-141 | whatever happens later, the row of a pushed event holds what was pushed, under the next number |
| `RetriedEvents.FailForGood` | cognitive_runtime/substrate/event_queue.py:183-232 | an event that is rejected every time is handed out with its payload each time, then recorded with it as a dead letter, and replayed with it |
| `QueueModel.SettledForGood` | cognitive_runtime/substrate/event_queue.py:168-207 | a completed or dead row never changes again |
| `QueueModel.DrainsWithinRemaining` | cognitive_runtime/substrate/substrate_loop.py:56-73 | without new pushes the queue is drained within as many turns as retries remain |
| `IntelligenceStores.FIFOEviction.SelectForEviction` | cognitive_runtime/intelligence/eviction/fifo_strategy.py:17-27 | the front of the list if it is still stored, else the oldest stored key and a rebuilt list |
| `IntelligenceStores.FIFOEviction.RecordAccess` | cognitive_runtime/intelligence/eviction/fifo_strategy.py:29-31 | a known key keeps its place, a new one goes to the end |
| `IntelligenceStores.BoundedDict.InsertNew` | cognitive_runtime/intelligence/intelligence_store.py:75-82 | with at most one stale key in the list, exactly the oldest entry makes room for the new one |
| `IntelligenceStores.IntelligenceStore.UpsertPattern` | cognitive_runtime/intelligence/intelligence_store.py:63-82 | a known signature counts one more, a new one is inserted |
| `IntelligenceStores.IntelligenceStore.UpsertFailure` | cognitive_runtime/intelligence/intelligence_store.py:84-106 | a known failure counts one more and adds its severities, a new one is inserted |
| `IntelligenceStores.IntelligenceStore.UpsertFingerprint` | cognitive_runtime/intelligence/intelligence_store.py:108-118 | a known context is left alone, a new one is inserted |
| `IntelligenceStores.MergeSeverities` | cognitive_runtime/intelligence/intelligence_store.py:87-89 | severities are added level by level |
| `StoreHistory.KeysAreLatestInsertions` | cognitive_runtime/intelligence/intelligence_store.py:63-82 | lazy eviction is a plain queue: after every run the keys are the latest insertions in order |
| `StoreHistory.SizeIsBounded` | cognitive_runtime/intelligence/intelligence_store.py:75-79 | no run of upserts with non-empty keys exceeds the limit |
| `StoreHistory.ExceedsLimitIff` | cognitive_runtime/intelligence/intelligence_store.py:78-79 | an upsert exceeds the limit if and only if a new key meets a full store whose oldest key is empty |
| `StoreHistory.BlankKeyDefeatsLimit` | cognitive_runtime/intelligence/intelligence_store.py:78-79 | a concrete run in which a store of one entry holds three |
| `StoreHistory.EntryIsFolded` | cognitive_runtime/intelligence/intelligence_store.py:63-106 | an entry is the one of its latest insertion with all later upserts of its key merged in |
| `StoreHistory.FrequencyCountsUpserts` | cognitive_runtime/intelligence/intelligence_store.py:64-71 | a frequency is the inserted one plus the upserts since the insertion |
| `StoreHistory.SeverityIsSummed` | cognitive_runtime/intelligence/intelligence_store.py:85-96 | a failure has the levels that any upsert since its insertion mentioned, each summed over all of them |
| `StoreHistory.FirstFingerprintStays` | cognitive_runtime/intelligence/intelligence_store.py:108-118 | the first fingerprint of a context stays, whatever comes after it |
| `Governance.Evaluate` | cognitive_runtime/governance_evolution/governance_policy_engine.py:16-36 | pressures and gaps are non-negative, and vanish exactly for readings that round to no gap; missing metrics read as perfect |
| `GovernanceLaws.EvaluateIs` | cognitive_runtime/governance_evolution/governance_policy_engine.py:16-36 | the four pressures and gaps in numbers |
| `GovernanceLaws.MissingIsPerfect` | cognitive_runtime/governance_evolution/governance_policy_engine.py:16-20 | a metric that is missing counts as 1 |
| `Governance.AdaptWeights` | cognitive_runtime/governance_evolution/governance_evolution_engine.py:59-73 | the in-place pass and the renormalisation give the adapted weights |
| `GovernanceLaws.NudgeIs` | cognitive_runtime/governance_evolution/governance_evolution_engine.py:59-73 | from a pressure of a tenth on a weight moves by a tenth, below in proportion to the pressure |
| `GovernanceLaws.UnevenWeights` | cognitive_runtime/governance_evolution/governance_evolution_engine.py:59-73 | weights of 0.95 and 0.05 come to 0.9479 and 0.0521: the cap makes the smaller one gain |
| `Governance.AdaptThresholds` | cognitive_runtime/governance_evolution/governance_evolution_engine.py:75-82 | each threshold moves by its own clamped step |
| `GovernanceLaws.ClampIs` | cognitive_runtime/governance_evolution/governance_evolution_engine.py:84-89 | a value goes up by a tenth, at most to 1, for a pressure above one half, and down by a tenth otherwise |
| `GovernanceLaws.ClampIsNearest` | cognitive_runtime/governance_evolution/governance_evolution_engine.py:84-89 | in general it goes to the nearest grid point of that |
| `GovernanceLaws.ThresholdsMove` | cognitive_runtime/governance_evolution/governance_evolution_engine.py:75-82 | every named threshold keeps its name and moves by itself |
| `Governance.Evolve` | cognitive_runtime/governance_evolution/governance_evolution_engine.py:27-57 | frozen when unstable, fragmented or calm; otherwise every part moves |
| `Governance.AdaptiveGovernanceLoop.Tick` | cognitive_runtime/governance_evolution/adaptive_governance_loop.py:44-63 | commits the proposal exactly when the guard approves it, else keeps the state and says so |
| `GovernanceLaws.ApprovesMeans` | cognitive_runtime/governance_evolution/governance_guard.py:21-49 | what the guard approves, in numbers |
| `GovernanceLaws.TickIs` | cognitive_runtime/governance_evolution/adaptive_governance_loop.py:44-63 | one tick in numbers: when the state stands still, and where its three thresholds go otherwise |
| `GovernanceRuns.AlwaysApprovedIff` | cognitive_runtime/governance_evolution/governance_guard.py:21-49 | the guard approves every proposal for all metrics if and only if the state is well formed and no value rounds too far |
| `GovernanceRuns.StepIsNearIff` | cognitive_runtime/governance_evolution/governance_evolution_engine.py:84-89 | a clamped step is at most 0.10 except for a downward step from a value just above a grid point near 1 |
| `GovernanceRuns.OffGridCanBeRejected` | cognitive_runtime/governance_evolution/governance_evolution_engine.py:84-89 | with thresholds of 0.99972 some proposal is rejected |
| `GovernanceRuns.TickIsBounded` | cognitive_runtime/governance_evolution/adaptive_governance_loop.py:44-63 | from any state one tick moves each threshold by at most 0.10 and never the version |
| `GovernanceRuns.TickDirection` | cognitive_runtime/governance_evolution/governance_evolution_engine.py:27-57 | a tick changes nothing under instability, fragmentation or low pressure; otherwise pressure above one half raises the three thresholds and lower pressure lowers them |
| `GovernanceRuns.EveryRunIsSafe` | cognitive_runtime/governance_evolution/adaptive_governance_loop.py:44-63 | every run keeps the bounds, stability at most confidence, the version, and the grid |
| `GovernanceRuns.NoRunIsRejected` | cognitive_runtime/governance_evolution/adaptive_governance_loop.py:53-57 | from a well-formed grid state no tick of any run can be rejected |
| `GovernanceRuns.StandsStillIff` | cognitive_runtime/governance_evolution/governance_evolution_engine.py:84-89 | a grid threshold stands still exactly when a tenth of it rounds away, or at the top |
| `GovernanceRuns.WeightsKeepOrder` | cognitive_runtime/governance_evolution/governance_evolution_engine.py:59-73 | adaptation never turns two weights around |
| `GovernanceRuns.AdaptedWeightsSumToOne` | cognitive_runtime/governance_evolution/governance_evolution_engine.py:70-72 | non-negative weights come out all zero, or with a sum within half a grid unit for each weight of 1 |
| `GovernanceRuns.EveryRunKeepsWeightOrder` | cognitive_runtime/governance_evolution/governance_evolution_engine.py:59-73 | over every run weights keep their names, their sign and their relative order |
| `GovernanceRuns.EveryRunKeepsThresholds` | cognitive_runtime/governance_evolution/governance_evolution_engine.py:75-82 | over every run the unguarded named thresholds stay in [0, 1] and in order |
| `Versions.RenderedReadsBack` | cognitive_runtime/schema_evolution/compatibility_rules.py:20-23 | every triple of natural numbers has a text that reads back as that triple |
| `Versions.StrictIsLenient` | cognitive_runtime/distributed_consensus/conflict_resolver.py:77-82 | where the strict reading succeeds the lenient one agrees with it |
| `MigrationLaws.SplitMeans` | cognitive_runtime/schema_evolution/compatibility_rules.py:22-22 | splitting at dots loses nothing, leaves no dot in a piece, and makes one piece more than there are dots |
| `MigrationLaws.DigitsAreRead` | cognitive_runtime/schema_evolution/compatibility_rules.py:22-22 | digits read as the number they stand for |
| `MigrationLaws.SignsAndUnderscores` | cognitive_runtime/schema_evolution/compatibility_rules.py:22-22 | a sign in front counts, one underscore between digits does not |
| `MigrationLaws.OnlyDigitsRead` | cognitive_runtime/schema_evolution/compatibility_rules.py:22-22 | nothing but digits and single underscores between them reads as an unsigned number |
| `MigrationLaws.VersionMeans` | cognitive_runtime/schema_evolution/compatibility_rules.py:20-23 | a text is a version exactly if it has two dots and a number in each of the three pieces |
| `MigrationLaws.TripleIsRead` | cognitive_runtime/schema_evolution/compatibility_rules.py:20-23 | three pieces of digits are the version with these numbers |
| `MigrationLaws.LenientReading` | cognitive_runtime/distributed_consensus/conflict_resolver.py:77-82 | two pieces of digits are no version, but the resolver takes them for the first of their minor version, and one piece for 0.0.0 |
| `MigrationLaws.CompatibleMeans` | cognitive_runtime/schema_evolution/compatibility_rules.py:35-46 | compatible means the same major version and a minor version that is equal or one higher |
| `EvolutionGraphs.EvolutionGraph.RegisterNode` | cognitive_runtime/schema_evolution/evolution_graph.py:25-33 | refused exactly for a known version or an unknown parent, and then nothing changes |
| `EvolutionGraphs.EvolutionGraph.HasLineageToRoot` | cognitive_runtime/schema_evolution/evolution_graph.py:56-71 | holds for exactly the registered versions |
| `EvolutionGraphs.EvolutionGraph.GetAncestors` | cognitive_runtime/schema_evolution/evolution_graph.py:78-95 | the first-parent chain; the guards against repetition never act |
| `EvolutionGraphs.EvolutionGraph.DetectOrphans` | cognitive_runtime/schema_evolution/evolution_graph.py:97-98 | always empty |
| `EvolutionGraphs.AncestorsFormLineage` | cognitive_runtime/schema_evolution/evolution_graph.py:78-95 | the walk never repeats, follows first parents and ends at a root |
| `EvolutionGraphs.AncestorsOfAncestor` | cognitive_runtime/schema_evolution/evolution_graph.py:78-95 | the ancestors of an ancestor are a suffix |
| `Migrations.SupportedIff` | cognitive_runtime/schema_evolution/migration_engine.py:57-107 | supported if and only if the versions differ, the source is on the first-parent chain and every hop is same-major and at most one minor apart; the steps are those hops, at least as many as the minor gap |
| `MigrationLaws.SupportedMeans` | cognitive_runtime/schema_evolution/migration_engine.py:57-107 | two versions are joined exactly if a line of first parents leads from one to the other, each hop within one major version and one minor version apart at most |
| `MigrationLaws.StepsAreHops` | cognitive_runtime/schema_evolution/migration_engine.py:80-107 | the steps of the plan are the hops of that line, from its lower end up |
| `MigrationLaws.EqualMinorsAreJoined` | cognitive_runtime/schema_evolution/migration_engine.py:89-96 | a hop between equal minor versions is allowed |
| `Migrations.PlanRaisesIff` | cognitive_runtime/schema_evolution/migration_engine.py:64-65 | building a plan raises if and only if a text looked at on the way cannot be read |
| `Migrations.PlansCompose` | cognitive_runtime/schema_evolution/migration_engine.py:57-107 | through any version in between, support and steps are those of the two parts |
| `MigrationEngines.MigrationEngine.BuildPath` | cognitive_runtime/schema_evolution/migration_engine.py:57-107 | the downward walk with all its early exits gives the planned result |
| `MigrationEngines.MigrationEngine.MigrateTrace` | cognitive_runtime/schema_evolution/migration_engine.py:109-145 | refused without a supported path or a transformer for every step, else all transformers in order |
| `MigrationLaws.FirstMissingIs` | cognitive_runtime/schema_evolution/migration_engine.py:116-120 | a trace is refused for the first step of its plan that has no transformer |
| `MigrationEngines.MigrationsCompose` | cognitive_runtime/schema_evolution/migration_engine.py:109-145 | migrating through a version in between is migrating at once, errors included |
| `MigrationEngines.MigrationEngine.MigrateObject` | cognitive_runtime/schema_evolution/migration_engine.py:109-145 | an object is migrated by its attributes and takes back only those it has |
| `MigrationEngines.ObjectMigrationsCompose` | cognitive_runtime/schema_evolution/migration_engine.py:109-145 | migrating an object through a version in between is migrating it at once, although it drops new fields in between |
| `MigrationEngines.StandardMigration` | cognitive_runtime/schema_evolution/migration_engine.py:30-50 | 1.0.0 to 1.1.0 changes only two fields; a risk above 1 is divided by 100, and becomes a fraction exactly if it was at most 100 |
| `Ballots.Group` | cognitive_runtime/distributed_consensus/conflict_resolver.py:54-56 | the groups of a list of proposals, in the order of their first proposals |
| `Ballots.GroupsPermute` | cognitive_runtime/distributed_consensus/conflict_resolver.py:130-137 | averages and least node ids do not depend on the order of the proposals |
| `Ballots.AverageIsBetween` | cognitive_runtime/distributed_consensus/consensus_engine.py:88-91 | an average lies between the bounds of what is averaged, and times the number of proposals it is their sum |
| `ConflictResolvers.ConflictResolver.Resolve` | cognitive_runtime/distributed_consensus/conflict_resolver.py:42-75 | fallback, unanimity and the three strategies |
| `ConflictResolvers.ConflictResolver.MostStableOf` | cognitive_runtime/distributed_consensus/conflict_resolver.py:126-138 | the running maximum is the best standing, none at or below -1 |
| `ConflictResolvers.ConflictResolver.CostTo` | cognitive_runtime/distributed_consensus/conflict_resolver.py:160-169 | the cost sums migration steps, ten for an unsupported path, nothing for a compatible version; raises if a text cannot be read |
| `ConflictResolvers.ConflictResolver.CheapestOf` | cognitive_runtime/distributed_consensus/conflict_resolver.py:156-178 | the running minimum is the best standing |
| `ConflictResolvers.ConflictResolver.NewestOf` | cognitive_runtime/distributed_consensus/conflict_resolver.py:95-113 | the tie-break looks at the first two of the newest versions only |
| `VersionWinners.NewestIsChosen` | cognitive_runtime/distributed_consensus/conflict_resolver.py:92-98 | no proposed version has greater numbers than the chosen one: major, then minor, then patch |
| `VersionWinners.NewestResolution` | cognitive_runtime/distributed_consensus/conflict_resolver.py:92-121 | the same of the whole resolution by version |
| `VersionWinners.FirstNodeBreaksTie` | cognitive_runtime/distributed_consensus/conflict_resolver.py:103-115 | of exactly two newest spellings the one of the alphabetically first node wins |
| `VersionWinners.TwoBeatsOne` | cognitive_runtime/distributed_consensus/conflict_resolver.py:92-121 | 1.0.0 against 2.0.0, in either order: 2.0.0 is chosen |
| `ConflictOrder.ResolutionPartitions` | cognitive_runtime/distributed_consensus/conflict_resolver.py:99-101 | every proposing node takes part or is rejected, never both; it takes part exactly if it proposed the chosen version |
| `VoteLists.ResolutionLists` | cognitive_runtime/distributed_consensus/conflict_resolver.py:99-121 | who takes part stands in the order of the proposals, who is rejected version by version |
| `VoteLists.DetailsAre` | cognitive_runtime/distributed_consensus/conflict_resolver.py:47-113 | what a resolution says: no proposals, one version, and whether the newest version came in two spellings |
| `ConflictOrder.StabilityWinner` | cognitive_runtime/distributed_consensus/conflict_resolver.py:129-140 | among distinct nodes the chosen version has the best average, ties broken by the smallest node id |
| `VersionWinners.StabilityResolution` | cognitive_runtime/distributed_consensus/conflict_resolver.py:123-151 | no proposed version has a higher average stability than the chosen one, and at the same average no earlier node |
| `VersionWinners.StablerNodeWins` | cognitive_runtime/distributed_consensus/conflict_resolver.py:123-151 | of two nodes the one with the higher stability score gets its way |
| `ConflictOrder.CostWinner` | cognitive_runtime/distributed_consensus/conflict_resolver.py:159-180 | likewise for the least cost |
| `VersionWinners.PairCosts` | cognitive_runtime/distributed_consensus/conflict_resolver.py:161-169 | what one version adds to the cost of another: nothing, its steps, or ten |
| `VersionWinners.CostRaisesIff` | cognitive_runtime/distributed_consensus/conflict_resolver.py:153-169 | a resolution by cost raises if and only if some pair of versions cannot be compared |
| `VersionWinners.CostResolution` | cognitive_runtime/distributed_consensus/conflict_resolver.py:153-191 | no proposed version is cheaper to reach than the chosen one, and at the same cost no earlier node |
| `VersionWinners.CheaperMoveWins` | cognitive_runtime/distributed_consensus/conflict_resolver.py:153-191 | of two versions the one that the other reaches at the lower cost is chosen |
| `VersionWinners.CompatibleWins` | cognitive_runtime/distributed_consensus/conflict_resolver.py:153-191 | of two versions one minor version apart that no plan joins backwards, the later one is chosen at no cost |
| `ConflictOrder.StabilityOrderFreeIff` | cognitive_runtime/distributed_consensus/conflict_resolver.py:123-138 | the stability choice ignores the order of proposals if and only if it is decided or nothing is stable; distinct nodes always decide it |
| `ConflictOrder.CostOrderFreeIff` | cognitive_runtime/distributed_consensus/conflict_resolver.py:153-178 | the cost choice ignores the order if and only if it is decided or some pair cannot be compared; distinct nodes always decide it |
| `ConflictOrder.ResolutionOrderFree` | cognitive_runtime/distributed_consensus/conflict_resolver.py:42-75 | with distinct nodes the whole resolution by stability or cost is the same for every permutation |
| `NewestOrder.NewestOrderFreeIff` | cognitive_runtime/distributed_consensus/conflict_resolver.py:103-113 | the newest-version choice ignores the order if and only if at most two versions tie |
| `NewestOrder.ThreeSpellingsTie` | cognitive_runtime/distributed_consensus/conflict_resolver.py:103-113 | three spellings of one version from three nodes: the order decides which one is chosen |
| `NewestOrder.TopTiedIsFilter` | cognitive_runtime/distributed_consensus/conflict_resolver.py:95-103 | the tie is between all newest versions in proposal order |
| `Consensus.ConsensusEngine.GraphFreshness` | cognitive_runtime/distributed_consensus/consensus_engine.py:36-63 | 1 for the current version, 0.5 ahead of it, 0.3 less for each step behind down to 0.1, 0 elsewhere |
| `ConsensusOrder.WeightMeans` | cognitive_runtime/distributed_consensus/consensus_engine.py:65-70 | scores between 0 and 1 give a weight between 0 and 1, monotone in each; lineage moves it by at most 0.2 |
| `ConsensusLaws.FreshnessIs` | cognitive_runtime/distributed_consensus/consensus_engine.py:36-63 | freshness in numbers: 1, 0.5 ahead, 0.7 and 0.4 for the first two ancestors, 0.1 for the others, 0 outside the lineage |
| `ConsensusLaws.WeightIs` | cognitive_runtime/distributed_consensus/consensus_engine.py:65-70 | the weight in numbers, for each of these cases |
| `Consensus.ConsensusEngine.Propose` | cognitive_runtime/distributed_consensus/consensus_engine.py:72-160 | grouping, scoring, sorting, threshold and reports give the agreed result, or an error |
| `ConsensusOrder.SortedHead` | cognitive_runtime/distributed_consensus/consensus_engine.py:94-103 | the dominant version is the first of the heaviest |
| `ConsensusOrder.LeavesCurrentOnlyWhenStrong` | cognitive_runtime/distributed_consensus/consensus_engine.py:105-113 | the current version is left only at strength 0.7 or more, for a version that no other outweighs |
| `ConsensusOrder.AgreementOrderFreeIff` | cognitive_runtime/distributed_consensus/consensus_engine.py:72-160 | the agreed version ignores the order of proposals if and only if the outcome is not a strong readable tie at the top |
| `ConsensusOrder.TieIsAmbiguous` | cognitive_runtime/distributed_consensus/consensus_engine.py:72-120 | two proposals of equal weight for two versions: the order decides which one is agreed |
| `ConsensusOrder.AmbiguityIsReported` | cognitive_runtime/distributed_consensus/consensus_engine.py:118-123 | an outcome that depends on the order always carries a close-margin report of the tie |
| `ConsensusOrder.CloseMarginReports` | cognitive_runtime/distributed_consensus/consensus_engine.py:118-123 | a close margin is reported for exactly the versions less than 0.05 below |
| `ConsensusOrder.SchemaReports` | cognitive_runtime/distributed_consensus/consensus_engine.py:125-133 | an unknown schema is reported for exactly the unregistered versions, an orphan never |
| `ConsensusOrder.PathReports` | cognitive_runtime/distributed_consensus/consensus_engine.py:135-148 | an incompatible path is reported for exactly the versions neither compatible nor migratable |
| `ConsensusOrder.AgreedMeans` | cognitive_runtime/distributed_consensus/consensus_engine.py:72-160 | an error exactly when the strength is 0.7 or more and one of several versions cannot be read; otherwise strength and agreed version are those of the dominant version, or the current one below 0.7 |
| `ConsensusLaws.AgreementMeans` | cognitive_runtime/distributed_consensus/consensus_engine.py:72-113 | the strength is the greatest average weight; from 0.7 on its version is agreed on, below the current version stays and the one report says so |
| `ConsensusLaws.WeakOutcome` | cognitive_runtime/distributed_consensus/consensus_engine.py:105-113 | below the threshold the nodes of the heaviest version count as taking part, all nodes of other versions as rejected |
| `ConsensusLaws.HeavierNodeDecides` | cognitive_runtime/distributed_consensus/consensus_engine.py:72-160 | of two nodes with different versions the heavier one decides, from 0.7 on |
| `ConsensusOrder.AgreementPartitions` | cognitive_runtime/distributed_consensus/consensus_engine.py:150-160 | beside a strong agreement every node takes part or is rejected |
| `VoteLists.AgreementLists` | cognitive_runtime/distributed_consensus/consensus_engine.py:150-160 | beside a strong agreement both lists stand in the order of the proposals |
| `TimeRewind.BuildTimeline` | cognitive_runtime/time_rewind/time_rewind_engine.py:41-54 | the events of the sorted traces, each at the time of its place |
| `TimeRewind.Rewind` | cognitive_runtime/time_rewind/time_rewind_engine.py:56-67 | the original traces of the events up to the target time |
| `EventOrder.TimelineClimbs` | cognitive_runtime/time_rewind/time_rewind_engine.py:41-54 | along a timeline sessions climb in the order of texts, and sequence numbers within a session |
| `EventOrder.EventsTell` | cognitive_runtime/time_rewind/time_rewind_engine.py:10-54 | what each event tells: its place, what it is about, eight fields of its trace, and the fingerprint of six of them |
| `EventOrder.RewindKeepsEarliest` | cognitive_runtime/time_rewind/time_rewind_engine.py:56-67 | no trace that is left out comes before one that is returned |
| `EventOrder.RewindReturns` | cognitive_runtime/time_rewind/time_rewind_engine.py:56-67 | with unique events a rewind returns as many of the given traces as there are places up to the target time |
| `EventOrder.RewindTwo` | cognitive_runtime/time_rewind/time_rewind_engine.py:56-67 | two traces of one session: rewinding to 0.0 returns the first |
| `EventOrder.RewoundAt` | cognitive_runtime/time_rewind/time_rewind_engine.py:56-67 | when events repeat, each place of the timeline returns the last trace with its event |
| `TimeRewind.Replay` | cognitive_runtime/time_rewind/deterministic_replay_engine.py:40-93 | rebuild with defaults, sort, migrate each trace, hash |
| `EventOrder.RebuiltFields` | cognitive_runtime/time_rewind/deterministic_replay_engine.py:40-58 | which fields a rebuilt trace takes from the event and which from the snapshot or its defaults |
| `EventOrder.ReplayedMeans` | cognitive_runtime/time_rewind/deterministic_replay_engine.py:40-93 | the replayed traces are the rebuilt ones in event order, each migrated |
| `EventOrder.ReplayOne` | cognitive_runtime/time_rewind/deterministic_replay_engine.py:40-93 | the replay of one event in full: the migrated trace, the signature of the unmigrated one, and the four fields that are hashed |
| `ReplayLaws.TimelineRoundTrip` | cognitive_runtime/time_rewind/deterministic_replay_engine.py:40-58 | replaying the timeline of any traces and building the timeline again gives the identical timeline |
| `ReplayLaws.ReplayIsValid` | cognitive_runtime/time_rewind/time_rewind_engine.py:70-76 | a history and its replay always validate |
| `EventOrder.ValidReplayMeans` | cognitive_runtime/time_rewind/time_rewind_engine.py:69-76 | a replay validates if, in event order, both print the same fields, and otherwise only by a collision of hashes |
| `ReplayLaws.EarlierIsPrefix` | cognitive_runtime/time_rewind/time_rewind_engine.py:56-67 | rewinding to an earlier time gives a prefix of rewinding to a later one, for any traces |
| `ReplayLaws.RewoundIsPrefix` | cognitive_runtime/time_rewind/time_rewind_engine.py:56-67 | with unique events the result is the first original traces in event order |
| `ReplayLaws.RewindsCompose` | cognitive_runtime/time_rewind/time_rewind_engine.py:56-67 | rewinding twice is rewinding to the earlier time |
| `ReplayLaws.ReplayOrderFreeIff` | cognitive_runtime/time_rewind/deterministic_replay_engine.py:40-58 | replay ignores the order of events if and only if equal keys rebuild to equal traces |
| `ReplayLaws.ReplayIsDeterministic` | cognitive_runtime/time_rewind/deterministic_replay_engine.py:95-100 | then the whole state with its hash is the same, for any migration and any hash |
| `ReplayLaws.TimelineOrderFree` | cognitive_runtime/time_rewind/time_rewind_engine.py:41-54 | traces with unique keys have one timeline |
| `GradientGuard.GradientTransitionGuard.Resolve` | cognitive_runtime/confidence/gradient_transition_guard.py:26-47 | the pending counters are the occurrences in the current disagreement streak; the guard follows when one reaches its threshold |
| `GradientGuard.StreakIsShort` | cognitive_runtime/confidence/gradient_transition_guard.py:7-20 | no streak is longer than three, and from a middle gradient not longer than two |
| `GradientGuard.StreakIsTail` | cognitive_runtime/confidence/gradient_transition_guard.py:26-47 | after every run the streak is the tail of the inputs since the guard last followed |
| `GradientGuard.FollowsWithinFour` | cognitive_runtime/confidence/gradient_transition_guard.py:26-47 | among any four consecutive inputs of any run there is one that the guard follows |
| `GradientGuard.PersistenceWins` | cognitive_runtime/confidence/gradient_transition_guard.py:26-47 | three equal inputs in a row always win |
| `GradientGuard.CriticalWinsAtOnce` | cognitive_runtime/confidence/gradient_transition_guard.py:7-20 | a critical input wins at once |
| `GradientGuard.Bands` | cognitive_runtime/confidence/gradient_transition_guard.py:53-61 | the bands of the score, from 0.8, 0.5 and 0.2 |
| `GradientGuard.SwitchTakes` | cognitive_runtime/confidence/gradient_transition_guard.py:7-20 | how many equal inputs in a row it takes from each gradient to each other |
| `GradientGuard.AgreementForgets` | cognitive_runtime/confidence/gradient_transition_guard.py:34-36 | agreement forgets the disagreements before it |
| `GradientGuard.ThreeCanBeIgnored` | cognitive_runtime/confidence/gradient_transition_guard.py:7-20 | the bound is tight: a run in which three inputs in a row are ignored |

## Left out

- Floating point: scores, weights and times are real numbers; governance values are counted in units of 1/10000 and
  rounded half to even.
- SHA-256, JSON, SQLite, files, asyncio, clocks and UUIDs: hashes are parameters, tables are sequences of rows, a file
  write succeeds, fails to open or is cut off, fresh ids and times are arguments.
- Collisions of hashes: equal inputs give equal digests, and where unequal ones matter the collision is named.
- Recursion depth: on very long dependency chains Python's limit makes the recursive cycle search raise, and the
  orchestrator then refuses a plan that `Orchestrator.Acceptable` admits; the critical path and the causal searches
  recurse in the same way.
- QueueModel.EveryRunIsOrderedAndAccounted: runs with several consumers, settling of rows that are not in hand, and a
  row left in hand by a process crash are covered only by the contracts of the queue's methods.
- Orchestrator.CentralOrchestrator.HandleExecutionPlan: the doctrine and control checks before it, the agent layer, the
  observer and the memory write are not modelled; they neither change the graph nor the runtime state.
- RuntimeStates.StateContext.Transition: hooks, execution id and duration of a stay are not modelled.
- RuntimeLoop as a consumer of the queue: it leaves some events unsettled, so the run laws are about SubstrateLoop.
- DependencyResolvers.DependencyResolver.CriticalPath: requires an acyclic graph; on a cyclic one the recursion does not end.
- TraceWindows.TraceWindow.GetSlice: slices with a step other than 1 are not modelled.
- TraceWindows.TraceWindow.AllTraces: archived traces come back through a dictionary with the same fields; the
  conversion is the identity here.
- CausalBuilder.Build: titles, payloads, timings and other node data are not modelled, only ids, stages, links and correlation.
- MigrationEngines.MigrationEngine.MigrateObject: an object is its public attributes; a method or private attribute
  with the name of a new field is not modelled.
- TimeRewind.Replay: migration is a function parameter, the identity at the default schema version; the graph
  signature and the state hash are functions of the sorted traces.
- Versions.Parse: reads ASCII digits, signs, single underscores and ASCII blanks as integers; other Unicode digits are not modelled.
- ConflictResolvers.ConflictResolver.Resolve: the details are a value, not a formatted text.
- IntelligenceStores.IntelligenceStore.UpsertPattern: the alternative eviction policy (FAA) is not modelled.
- DeltaCheckpoint.DeltaCheckpointManager.Save: `schema_fingerprint` and `recovery_mode_enabled` are not modelled; like the
  schema version they are always those of the base.
- The metadata files of the checkpoint manager, and its reading them back, beyond the loss of the saved-trace count.
- Queue statistics kept for display, session and range queries, and recorded decisions.
- `is_forward_compatible`, `is_valid_transition`, `roots`, `traverse`, `incoming`, `outgoing` and other short queries.
- LineageGraph, drift detectors, telemetry, liveness, stability and confidence scoring, budgets, console, gateway,
  adapters, sandbox workers and the legacy tree.
