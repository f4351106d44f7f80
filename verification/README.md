# A verified model of Eamilos' coordination core

This project models five parts of the `packages/cli` core of Eamilos, the multi-agent orchestrator, and proves what
they promise. Each module names the source file it models; classes have the source's fields and methods, and every
method is proved against a specification about which the properties are then proved.

* **Task execution graph** (`Sequences`, `Graphs`, `NodeTable`, `GraphEditing`, `CycleDetection`, `TopologicalOrder`,
  `PhaseSchedule`, `EarliestTimes`, `CriticalPath`, `WalkTermination`, `CriticalConditions`, `CriticalGraphs`,
  `DurationEstimate`, `Readiness`, `Stranding`, `Cancellation`, `ExecutionGraph`): editing the graph with its two
  adjacency lists and two caches, depth-first cycle detection and ordering, layered phases, earliest times and
  durations, the critical path, when its walk ends and when it is critical, readiness, removal during execution,
  cancellation.
* **Causal messaging** (`VectorClock`, `Causality`, `CausalKey`, `ArrivalOrder`, `MessageLog`, `Deliveries`,
  `Exchange`, `RateLimit`, `CommsGround`): vector clocks over runs of any number of nodes, the bounded causal log of a
  task, deduplication, any number of grounds that exchange messages, rate limits.
* **Approvals** (`JsonStrings`, `StableSerialize`, `Approvals`, `ApprovalBinding`, `ApprovalGate`,
  `ApprovalProtocol`, `ApprovalExpiry`, `ApprovalAudit`, `AuditContents`): the canonical serializer, records with compare-and-set,
  binding an approval to a context, the gate and its dispatcher as a protocol that interleaves with operators and
  sweepers, the expiry sweep, the audit log and its repair after crashes.
* **Coordination** (`ProposalOrder`, `ResourceLeases`): Kahn's ordering of a proposal batch, resource leases and task
  reservations.
* **Shortest paths** (`GraphQuery`): the breadth-first search of the cognitive graph.

Times are integers, generated identifiers and the clock's readings are parameters, the policy engine's evaluation is a
parameter, and the locale's string comparison is a ranking of identifiers. `dafny verify dfyconfig.toml` checks the
whole project.

## Where the code and its intent differ

Some promises turned out not to hold of the code as it is. The model keeps the code's behaviour; each of these is
proved, with an input that shows it and the exact condition under which the promise does hold.

* **Comparing vector clocks.** The two flags of `VectorClock.compare` are cleared by each other's test
  (`packages/cli/src/core/comms/VectorClock.ts:121-128`), so it never answers `before` or `after`. The clocks
  themselves do order events exactly by happened-before (`Causality.ClocksCharacterizeCausality`); the report is right
  exactly for events of which neither precedes the other (`Causality.ReportsOnRuns`), and two publications of one
  node are already misreported (`Causality.TwoPublicationsMisreported`).
* **Staleness, and at most one acceptance.** For the same reason `isStale` holds only of equal clocks. The local clock
  does dominate every accepted message for ever, but a second delivery is turned away only while its identifier is
  remembered (`Deliveries.RedeliveryAcceptedIff`): between two acceptances under one identifier some cleanup dropped it
  (`Deliveries.AcceptedAtMostOnce`), and one that does its job by the dedup window is enough for a message to be
  accepted and listed twice (`Deliveries.AcceptedTwiceAfterForgetting`). Over any run, whatever its cleanups forget,
  every log lists its messages once if and only if no step stores an identifier that its log still holds
  (`Deliveries.RunConsistentIff`).
* **The task log.** It is a stable sort of the arrivals by timestamp, hence in causal order for every order of arrival
  exactly when timestamps strictly increase from cause to effect (`ArrivalOrder.EveryArrivalOrderIff`); an answer sent by
  a node whose clock runs behind is listed before what it answers (`ArrivalOrder.LateClockMisorders`).
* **A rate limit of zero** admits one call per window (`RateLimit.ZeroLimitAdmits`, `RateLimit.LimitRespectedIff`).
* **The critical path** follows the dependency that *starts* last. On an acyclic graph with nothing missing and for given
  timeouts it totals the maximum finish exactly when every node that preferring the last starter leads to, from the
  first node that finishes last, prefers a dependency that also finishes last (`CriticalConditions.CriticalIff`), as
  with equal timeouts. Whatever the positive timeouts, it does so exactly on the graphs where one dependency of every
  node depends on all its others (`CriticalGraphs.AlwaysCriticalIff`); with timeouts of zero, where that is the one
  listed last (`CriticalGraphs.AlwaysCriticalWithZerosIff`). Four nodes suffice to miss the chain that matters
  (`CriticalGraphs.UnequalTimeoutsFallShort`).
* **Scheduling a cyclic graph** need not end. The walk back for the critical path ends exactly when preferring the last
  starter does not lead from its first node into a cycle (`WalkTermination.ScheduleEndsIff`); on an acyclic graph it
  always ends (`WalkTermination.AcyclicWalkBackEnds`), and on two nodes that depend on each other it never does. As
  `addNode` makes up the identifiers itself, a caller gets there by giving a node a dependency on a later one through
  the live node that `getNode` returns (`packages/cli/src/core/collaboration/ExecutionGraph.ts:110-112`,
  `WalkTermination.EditedNodeNeverEnds`), or by naming a node that does not exist yet
  (`WalkTermination.MutualDependenciesNeverEnd`).
* **Removing a node during execution.** `removeNode` never looks at readiness again. It keeps readiness coherent exactly
  when no pending node waits for nothing but the removed one (`Stranding.RemovalKeepsCoherentIff`); a node that does is
  never started, whatever happens later (`Stranding.RemovalStrands`, `Stranding.StrandedForEver`,
  `Stranding.RemovedDependencyStrands`).
* **The expiry sweep** means to skip records that were decided meanwhile, but the error it lets pass is not the one
  that expiring such a record raises, so the sweep is aborted (`ApprovalExpiry.RejectionAbortsSweep`). Whatever others
  do during it, it runs to its end exactly when no due record has been decided or deleted by the time it is reached
  (`ApprovalExpiry.SweepCompletesIff`). A record that was deleted and requested anew under its identifier is expired,
  due or not (`ApprovalExpiry.RecreatedIsExpired`).
* **Audit repair.** For an approval that was approved and then expired, reconciliation records an expiry at revision 2
  that never happened and never restores the one at revision 3 (`ApprovalAudit.ExpiryAfterApproval`). It repairs
  exactly what is missing for every other life and no other (`ApprovalAudit.RepairsExactlyIff`).
* **An approval can bind to nothing.** A context with an empty working directory, or without resources or
  capabilities, is recorded incompletely, and the resulting approval authorizes nothing
  (`ApprovalBinding.BindsToItsOwnContextIff`, `ApprovalBinding.EmptyDirectoryBindsNothing`).
* **Leases and the clock.** At a given time, whatever was requested at earlier readings of the clock, exclusion holds
  if and only if no reading that is ahead of an earlier one is ahead of that time (`ResourceLeases.SafeReadingsIff`);
  a clock that never goes back guarantees this, one that reads 100, 110 and then 105 does not
  (`ResourceLeases.ClockGoingBack`).

## Model

| member | source | states |
|---|---|---|
| `GraphQuery.GraphQueryEngine.FindPath` | packages/cli/src/core/cognitive-graph/GraphQueryEngine.ts:26-37 | returns a path exactly when the target is reachable; the path follows edges and no walk between the two is shorter; the search ends on every snapshot |
| `GraphQuery.AdjacencyEdges` | packages/cli/src/core/cognitive-graph/GraphQueryEngine.ts:8 | the adjacency that the search expands has an edge exactly where the snapshot has one |
| `GraphQuery.HeadIsShortest` | packages/cli/src/core/cognitive-graph/GraphQueryEngine.ts:30-34 | when the target reaches the head of the queue, its queued path is a shortest one |
| `GraphQuery.EmptyQueueMeansUnreachable` | packages/cli/src/core/cognitive-graph/GraphQueryEngine.ts:29-36 | a queue that runs dry before the target proves it unreachable |
| `Graphs.NoSinkMeansCycle` | packages/cli/src/core/coordination/CoordinationEngine.ts:152-154 | a finite nonempty set in which every vertex has a successor contains a cycle: what is left over by Kahn's loop, or never becomes ready, is cyclic |
| `Graphs.OrderedIsAcyclic` | packages/cli/src/core/collaboration/ExecutionGraph.ts:313-342 | a list that puts successors first proves a graph acyclic |
| `CycleDetection.Dfs` | packages/cli/src/core/collaboration/ExecutionGraph.ts:251-274 | the recursion ends on any graph, cyclic or with missing identifiers, restores path and stack, and keeps every recorded cycle genuine and every edge out of a finished vertex one to a vertex finished earlier or to the first vertex of a recorded cycle |
| `CycleDetection.DetectCycles` | packages/cli/src/core/collaboration/ExecutionGraph.ts:245-283 | every list returned is a closed dependency walk, none is returned exactly when the graph is acyclic, and every closed walk of the graph passes through the first vertex of one that is returned |
| `CycleDetection.RecordCycleSound` | packages/cli/src/core/collaboration/ExecutionGraph.ts:263-266 | the slice of the path from a vertex on the stack, closed by it, is a closed walk |
| `TopologicalOrder.Visit` | packages/cli/src/core/collaboration/ExecutionGraph.ts:321-334 | one call of the recursion lists the vertex and what it depends on once each, dependencies first when nothing is cyclic, and ends on any graph |
| `TopologicalOrder.ComputeOrder` | packages/cli/src/core/collaboration/ExecutionGraph.ts:313-342 | the order lists every node once, on cyclic graphs too, and puts dependencies first exactly when the graph is acyclic |
| `TopologicalOrder.OrderProvesAcyclic` | packages/cli/src/core/collaboration/ExecutionGraph.ts:313-342 | an order that puts the dependencies it knows first proves acyclicity even when some dependencies are missing |
| `PhaseSchedule.LevelIsLongestChain` | packages/cli/src/core/collaboration/ExecutionGraph.ts:354-362 | one more than the largest level of the dependencies is the length of the longest dependency chain |
| `PhaseSchedule.PlaceByLevel` | packages/cli/src/core/collaboration/ExecutionGraph.ts:350-368 | on any graph every node is placed, once, into the bucket of its longest chain of dependencies that the order lists earlier |
| `PhaseSchedule.LevelsAreContiguous` | packages/cli/src/core/collaboration/ExecutionGraph.ts:370-384 | below every used level there is a used level, so the phases are numbered without gaps |
| `PhaseSchedule.SamePhaseIndependent` | packages/cli/src/core/collaboration/ExecutionGraph.ts:370-384 | nodes of one phase never depend on each other |
| `PhaseSchedule.ComputePhases` | packages/cli/src/core/collaboration/ExecutionGraph.ts:344-384 | on any graph the phases partition the nodes, are contiguous and nonempty, and a node's phase is its longest chain of dependencies that the order lists earlier; on an acyclic one its longest dependency chain, and all phases are parallel |
| `TopologicalOrder.SettledFits` | packages/cli/src/core/collaboration/ExecutionGraph.ts:350-368 | whatever the graph, the dependencies that its order lists earlier form an acyclic graph with nothing missing, of which the order is a topological one |
| `PhaseSchedule.PhasesAreMinimal` | packages/cli/src/core/collaboration/ExecutionGraph.ts:344-384 | no schedule with dependencies in strictly earlier slots uses fewer slots or starts a node before its phase |
| `EarliestTimes.LatestFinish` | packages/cli/src/core/collaboration/ExecutionGraph.ts:407-411 | the earliest start is the largest finish of the dependencies, zero when there is none |
| `EarliestTimes.FinishIsHeaviestChain` | packages/cli/src/core/collaboration/ExecutionGraph.ts:403-415 | the earliest finish is the total timeout of the heaviest dependency chain that ends in the node |
| `EarliestTimes.ComputeTimes` | packages/cli/src/core/collaboration/ExecutionGraph.ts:397-415 | on any graph, cyclic or not, every listed node gets its start and finish in one pass |
| `EarliestTimes.TimesAreTimed` | packages/cli/src/core/collaboration/ExecutionGraph.ts:397-415 | on any graph the pass gives every node the start after its last dependency listed earlier and the finish of its heaviest chain of such dependencies |
| `EarliestTimes.AcyclicTimes` | packages/cli/src/core/collaboration/ExecutionGraph.ts:397-415 | on an acyclic graph these are all its dependencies |
| `CriticalPath.PickPredecessor` | packages/cli/src/core/collaboration/ExecutionGraph.ts:428-437 | the walk back goes on to the preferred dependency, and stops when there is none |
| `CriticalPath.PreferredIsLatest` | packages/cli/src/core/collaboration/ExecutionGraph.ts:428-437 | the preferred dependency is one whose earliest start no other exceeds |
| `CriticalPath.PreferredIsListedLast` | packages/cli/src/core/collaboration/ExecutionGraph.ts:433 | of several that start last it is the one listed last |
| `CriticalPath.FindCriticalPath` | packages/cli/src/core/collaboration/ExecutionGraph.ts:397-443 | on any graph on which the walk back ends, the path is that walk: from the first node of maximum finish over preferred dependencies to a node where it stops |
| `CriticalConditions.CriticalPathIsChain` | packages/cli/src/core/collaboration/ExecutionGraph.ts:417-443 | the path is a dependency chain from a dependency-free node to the first node of maximum finish, and falls short of that finish by exactly its waiting times |
| `CriticalConditions.EqualTimeouts` | packages/cli/src/core/collaboration/ExecutionGraph.ts:397-443 | with equal timeouts the path totals exactly the maximum finish |
| `WalkTermination.WalkEndsIff` | packages/cli/src/core/collaboration/ExecutionGraph.ts:422-440 | following single steps ends exactly when they do not lead into a cycle |
| `WalkTermination.ScheduleEndsIff` | packages/cli/src/core/collaboration/ExecutionGraph.ts:417-440 | the walk back on the times and from the node that the source computes ends exactly when preferring the last starter does not lead from there into a cycle |
| `WalkTermination.AcyclicWalkBackEnds` | packages/cli/src/core/collaboration/ExecutionGraph.ts:417-440 | on an acyclic graph it always ends |
| `WalkTermination.TrappedWalkGoesOn` | packages/cli/src/core/collaboration/ExecutionGraph.ts:422-440 | from a set of nodes that all have dependencies, and only on each other, it never ends, whatever the times |
| `WalkTermination.NoSourceNeverEnds` | packages/cli/src/core/collaboration/ExecutionGraph.ts:397-440 | on a graph in which every node has dependencies and none is missing it never ends, whatever the timeouts and the order |
| `WalkTermination.MutualDependenciesNeverEnd` | packages/cli/src/core/collaboration/ExecutionGraph.ts:70-108 | two nodes added with dependencies on each other are such a graph |
| `WalkTermination.EditedNodeNeverEnds` | packages/cli/src/core/collaboration/ExecutionGraph.ts:110-112 | so is an acyclic pair after a caller gave the first one a dependency on the second through the live node |
| `CriticalConditions.CriticalIff` | packages/cli/src/core/collaboration/ExecutionGraph.ts:397-443 | on an acyclic graph with nothing missing and for given timeouts the path totals the maximum finish exactly when every node that preferring the last starter leads to prefers a dependency that also finishes last |
| `CriticalGraphs.AlwaysCriticalIff` | packages/cli/src/core/collaboration/ExecutionGraph.ts:397-443 | the path totals the maximum finish whatever the positive timeouts exactly on the graphs where one dependency of every node depends, directly or not, on all its others |
| `CriticalGraphs.AlwaysCriticalWithZerosIff` | packages/cli/src/core/collaboration/ExecutionGraph.ts:397-443 | whatever the timeouts, zeros included, exactly where that is always the dependency listed last |
| `CriticalGraphs.UnequalTimeoutsFallShort` | packages/cli/src/core/collaboration/ExecutionGraph.ts:431-437 | a family of four-node graphs on which the chosen path is strictly shorter than the critical chain |
| `DurationEstimate.EstimateDuration` | packages/cli/src/core/collaboration/ExecutionGraph.ts:386-390 | the phases follow one another, each as long as one of its members and no shorter than any; the estimate is when the last one ends |
| `DurationEstimate.ChainFitsPhases` | packages/cli/src/core/collaboration/ExecutionGraph.ts:386-390 | a dependency chain from a node of a phase takes no longer than the phases up to that one |
| `DurationEstimate.ScheduleGuarantees` | packages/cli/src/core/collaboration/ExecutionGraph.ts:344-443 | of the schedule of an acyclic graph with nothing missing: every chain is at most the maximum finish and that at most the estimate; the path is a chain from a source to the first node of maximum finish; it is critical exactly when it has no slack |
| `NodeTable.UpdateStatusKeepsGraph` | packages/cli/src/core/collaboration/ExecutionGraph.ts:131-158 | status changes leave nodes, dependencies and timeouts alone |
| `NodeTable.UpdateChangesStatus` | packages/cli/src/core/collaboration/ExecutionGraph.ts:131-206 | the node has the status asked for; a first start, a first end and a given error are noted; of the others exactly the released ones become ready, and nothing else changes |
| `Readiness.LaunchedIsCoherent` | packages/cli/src/core/collaboration/ExecutionGraph.ts:70-108 | a graph set up before execution is coherent: a node is pending exactly when it has an open dependency |
| `Readiness.MoveKeepsCoherent` | packages/cli/src/core/collaboration/ExecutionGraph.ts:131-206 | starting and completing nodes, with the propagation to dependents, keeps it coherent |
| `Readiness.ReadyMeansDependenciesDone` | packages/cli/src/core/collaboration/ExecutionGraph.ts:175-206 | after any legal run from a launched graph every node that is ready, running or completed has all the dependencies it was launched with completed |
| `Readiness.NoDeadlock` | packages/cli/src/core/collaboration/ExecutionGraph.ts:131-206 | until every node of an acyclic graph is completed, some node is ready or running |
| `Readiness.RunInvariant` | packages/cli/src/core/collaboration/ExecutionGraph.ts:131-206 | over every run: coherence, an unchanged graph, and one unit of remaining work less per move |
| `Readiness.MaximalRunCompletesAll` | packages/cli/src/core/collaboration/ExecutionGraph.ts:131-206 | a run that cannot be continued has completed every node with exactly two moves for each |
| `Readiness.ReadyNodesAreTheReadyOnes` | packages/cli/src/core/collaboration/ExecutionGraph.ts:175-190 | re-checking the dependencies filters nothing out: the list is that of the ready nodes |
| `Readiness.ReadyNodesIff` | packages/cli/src/core/collaboration/ExecutionGraph.ts:175-190 | in any table exactly the ready nodes whose dependencies are all completed are offered |
| `Readiness.ReadyNodesInOrder` | packages/cli/src/core/collaboration/ExecutionGraph.ts:175-190 | in the order in which the nodes were added |
| `Stranding.RemovalKeepsCoherentIff` | packages/cli/src/core/collaboration/ExecutionGraph.ts:469-493 | removing a node keeps readiness coherent exactly when it is not the only open dependency of some pending node |
| `Stranding.RemovalStrands` | packages/cli/src/core/collaboration/ExecutionGraph.ts:483-488 | a pending node that waited for nothing else is left pending with every dependency completed |
| `Stranding.StrandedForEver` | packages/cli/src/core/collaboration/ExecutionGraph.ts:192-206 | over every later run such a node stays pending |
| `Stranding.RemovedDependencyStrands` | packages/cli/src/core/collaboration/ExecutionGraph.ts:469-493 | of two freshly launched nodes the ready one is removed: no move is possible any more although the other was never started |
| `GraphEditing.AddKeepsMirrored` | packages/cli/src/core/collaboration/ExecutionGraph.ts:70-108 | after adding a node the dependents lists still are the exact multiset inverse of the dependency lists |
| `GraphEditing.AddKeepsAcyclic` | packages/cli/src/core/collaboration/ExecutionGraph.ts:70-108 | a fresh node on existing dependencies closes no cycle |
| `GraphEditing.RemovedEffect` | packages/cli/src/core/collaboration/ExecutionGraph.ts:469-493 | editing only the recorded neighbours erases the node from every list there is and changes nothing else |
| `GraphEditing.RemoveKeepsWellLinked` | packages/cli/src/core/collaboration/ExecutionGraph.ts:469-493 | removal keeps the inverse, leaves no dangling identifier and keeps the graph acyclic |
| `GraphEditing.EditsKeepWellLinked` | packages/cli/src/core/collaboration/ExecutionGraph.ts:70-108 | any sequence of additions, removals and clearings from the empty graph on keeps all three |
| `Cancellation.CancelledIsReachable` | packages/cli/src/core/collaboration/ExecutionGraph.ts:495-512 | the cancelled set is exactly what the node reaches through dependents that were neither completed nor cancelled before |
| `Cancellation.ReachesShrinks` | packages/cli/src/core/collaboration/ExecutionGraph.ts:507-509 | what a recursive call can reach after earlier cancellations was reachable before them |
| `Cancellation.AddCancelled` | packages/cli/src/core/collaboration/ExecutionGraph.ts:507-509 | a recursive call on the next dependent adds exactly what is still active behind it |
| `ExecutionGraph.ExecutionGraph.constructor` | packages/cli/src/core/collaboration/ExecutionGraph.ts:66-68 | a new graph is empty and well linked, with valid caches |
| `ExecutionGraph.ExecutionGraph.AddNode` | packages/cli/src/core/collaboration/ExecutionGraph.ts:70-108 | the new table, with a pending node that has the default for a zero timeout, and cleared caches; well-linkedness is kept when the dependencies exist |
| `ExecutionGraph.ExecutionGraph.RemoveNode` | packages/cli/src/core/collaboration/ExecutionGraph.ts:469-493 | removes a known node from the table and both kinds of lists and clears the caches; leaves everything alone for an unknown one |
| `ExecutionGraph.ExecutionGraph.Clear` | packages/cli/src/core/collaboration/ExecutionGraph.ts:578-581 | the empty graph, with valid caches |
| `ExecutionGraph.ExecutionGraph.InvalidateCache` | packages/cli/src/core/collaboration/ExecutionGraph.ts:514-517 | empties both caches |
| `ExecutionGraph.ExecutionGraph.UpdateNodeStatus` | packages/cli/src/core/collaboration/ExecutionGraph.ts:131-158 | field by field: the status asked for, a first start, a first end, a given error, and exactly the released dependents ready; keeps caches valid |
| `ExecutionGraph.ExecutionGraph.UpdateDependentNodes` | packages/cli/src/core/collaboration/ExecutionGraph.ts:192-206 | exactly the pending nodes that depend on the completed one and have no open dependency become ready |
| `ExecutionGraph.ExecutionGraph.CancelNode` | packages/cli/src/core/collaboration/ExecutionGraph.ts:495-512 | ends on any graph, leaves exactly the nodes reachable through active dependents cancelled, a first end noted, and every other node unchanged |
| `ExecutionGraph.ExecutionGraph.GetReadyNodes` | packages/cli/src/core/collaboration/ExecutionGraph.ts:175-190 | exactly the ready nodes with all dependencies completed, in insertion order; in a coherent graph simply the ready ones |
| `ExecutionGraph.ExecutionGraph.DetectCycles` | packages/cli/src/core/collaboration/ExecutionGraph.ts:245-283 | genuine cycles only, none exactly when there is none, and the first vertex of one on every cycle there is |
| `ExecutionGraph.ExecutionGraph.ComputeTopologicalOrder` | packages/cli/src/core/collaboration/ExecutionGraph.ts:313-342 | cached or not, the order lists every current node once and puts dependencies first exactly when the graph is acyclic |
| `ExecutionGraph.ExecutionGraph.ComputeExecutionSchedule` | packages/cli/src/core/collaboration/ExecutionGraph.ts:344-395 | cached or not, on any graph on which the walk back ends: fitting phases, on acyclic graphs by dependency depth and all parallel; an estimate to which every phase adds the longest timeout of its nodes; and the walk back on the times of the order |
| `ExecutionGraph.ExecutionGraph.GetExecutionPhases` | packages/cli/src/core/collaboration/ExecutionGraph.ts:445-450 | the cached phases, or those of a new schedule; fitting the current graph either way |
| `VectorClock.Compare` | packages/cli/src/core/comms/VectorClock.ts:109-135 | answers equal for equal counters and concurrent for everything else |
| `VectorClock.ReportIsRightIff` | packages/cli/src/core/comms/VectorClock.ts:109-135 | that is right exactly when neither clock is strictly below the other |
| `VectorClock.ReportMissesSuccessor` | packages/cli/src/core/comms/VectorClock.ts:121-134 | a clock and its next tick are reported as concurrent |
| `VectorClock.MergedCounter` | packages/cli/src/core/comms/VectorClock.ts:42-51 | merging takes the maximum of every counter and then counts the own one up |
| `VectorClock.VectorClock.Tick` | packages/cli/src/core/comms/VectorClock.ts:35-40 | counts the own counter up and returns the whole clock |
| `VectorClock.VectorClock.Merge` | packages/cli/src/core/comms/VectorClock.ts:42-51 | the loop over the incoming entries, then the own counter one up |
| `VectorClock.VectorClock.IsStale` | packages/cli/src/core/comms/VectorClock.ts:163-166 | holds exactly for a clock with the same counters |
| `Causality.HappenedBeforeGrows` | packages/cli/src/core/comms/VectorClock.ts:35-54 | along happened-before no counter falls and the later event's own counter rises |
| `Causality.KnownMeansHappenedBefore` | packages/cli/src/core/comms/VectorClock.ts:35-54 | whoever knows an event's own counter has heard of the event |
| `Causality.ClocksCharacterizeCausality` | packages/cli/src/core/comms/DistributedCommsGround.ts:270-291 | over every run of any number of nodes, two events' clocks are ordered exactly as happened-before orders the events, and are equal only for one event |
| `Causality.ReportsOnRuns` | packages/cli/src/core/comms/VectorClock.ts:109-135 | on runs, equal is reported exactly for one and the same event, and the report is causally right exactly when neither event precedes the other |
| `Causality.TwoPublicationsMisreported` | packages/cli/src/core/comms/VectorClock.ts:121-134 | a run of two publications whose order is reported as concurrency |
| `Causality.OnlyOwnLatestIsStale` | packages/cli/src/core/comms/VectorClock.ts:163-166 | the staleness test turns away nothing but the receiver's own latest publication |
| `CausalKey.CreateCausalKey` | packages/cli/src/core/comms/VectorClock.ts:154-161 | the key carries the sum of all counters, whatever their order |
| `CausalKey.KeyGrowsAlongCausality` | packages/cli/src/core/comms/VectorClock.ts:154-161 | the sum strictly grows from a clock to any clock above it |
| `ArrivalOrder.ArriveSorts` | packages/cli/src/core/comms/DistributedCommsGround.ts:330-353 | arrivals with distinct clocks are listed by timestamp, ties in order of arrival |
| `ArrivalOrder.LogIsCausalIff` | packages/cli/src/core/comms/DistributedCommsGround.ts:330-353 | the log is in causal order exactly when every cause has an earlier timestamp than its effect, or the same one and arrived first |
| `ArrivalOrder.EveryArrivalOrderIff` | packages/cli/src/core/comms/DistributedCommsGround.ts:330-353 | every order of arrival gives a causal log exactly when timestamps strictly increase from cause to effect |
| `ArrivalOrder.LateClockMisorders` | packages/cli/src/core/comms/DistributedCommsGround.ts:330-353 | a message and an answer from a node whose clock runs behind, listed the wrong way round in both orders of arrival |
| `MessageLog.InsertConsistentIff` | packages/cli/src/core/comms/DistributedCommsGround.ts:312-328 | storing keeps the list duplicate-free and equal to the map's keys exactly when the identifier is not stored yet |
| `MessageLog.InsertIsInsert` | packages/cli/src/core/comms/DistributedCommsGround.ts:312-353 | the identifier goes where its message belongs among the messages |
| `MessageLog.InsertKeepsSorted` | packages/cli/src/core/comms/DistributedCommsGround.ts:330-353 | a new clock's message is inserted at its place in time |
| `MessageLog.EvictionIsBounded` | packages/cli/src/core/comms/DistributedCommsGround.ts:571-597 | eviction takes a fifth, rounded down, but no recent, error, decision, summary or critical message, less only when nothing else is left, and keeps the rest in order |
| `MessageLog.StoresInto` | packages/cli/src/core/comms/DistributedCommsGround.ts:312-328 | a log that is full gives up what eviction takes, one that is not gives up nothing, and the message joins the rest |
| `MessageLog.RemoveAllKeeps` | packages/cli/src/core/comms/DistributedCommsGround.ts:588-592 | deleting entries one after the other removes exactly them from map and list |
| `MessageLog.KeepKeepsSorted` | packages/cli/src/core/comms/DistributedCommsGround.ts:571-597 | eviction keeps the log consistent and sorted by time |
| `MessageLog.SortedIsCausal` | packages/cli/src/core/comms/DistributedCommsGround.ts:330-353 | a log sorted by time is a linear extension of causal order when timestamps follow causality |
| `Deliveries.AcceptedStayDominated` | packages/cli/src/core/comms/DistributedCommsGround.ts:270-310 | over every run the local clock dominates every message ever accepted |
| `Deliveries.ReceivedAsSaid` | packages/cli/src/core/comms/DistributedCommsGround.ts:262-310 | what is not remembered and does not have the local counters is accepted: every counter becomes the larger, the own one goes up, the message is listed and remembered; anything else is at most remembered |
| `Deliveries.PublishedAsSaid` | packages/cli/src/core/comms/DistributedCommsGround.ts:192-248 | a published message carries the ticked clock, which becomes the local one, and is listed and remembered |
| `Deliveries.RedeliveryAcceptedIff` | packages/cli/src/core/comms/DistributedCommsGround.ts:262-291 | an accepted message is accepted again exactly when its identifier has been forgotten |
| `Deliveries.AcceptedAtMostOnce` | packages/cli/src/core/comms/DistributedCommsGround.ts:148-169 | between two steps of a run that take a message under one identifier there is a cleanup that dropped it |
| `Deliveries.AcceptedTwiceAfterForgetting` | packages/cli/src/core/comms/DistributedCommsGround.ts:148-169 | for every dedup window and size of the memory a run of delivery, cleanup and delivery, the cleanup doing what the source's does at that time, after which one message was accepted twice and is listed twice |
| `Deliveries.RunConsistentIff` | packages/cli/src/core/comms/DistributedCommsGround.ts:262-328 | over any run with any cleanups, every log lists each of its messages once all along exactly when no step stores an identifier that is still in its log |
| `Deliveries.RunsKeepLogs` | packages/cli/src/core/comms/DistributedCommsGround.ts:192-353 | over every run, whatever its cleanups forget, in which accepted messages have new clocks and identifiers that their logs do not hold, each log lists its messages once and in time order, hence in causal order when timestamps follow causality |
| `Exchange.HappensKeepsClocks` | packages/cli/src/core/comms/DistributedCommsGround.ts:192-310 | the clocks of grounds that exchange messages, in any order, late, repeatedly or never, are those of a run of nodes |
| `Exchange.DeliveryIsNew` | packages/cli/src/core/comms/DistributedCommsGround.ts:262-310 | among such grounds a delivered message that its log does not hold brings a clock that its log does not hold |
| `Exchange.LogsStayInOrderIff` | packages/cli/src/core/comms/DistributedCommsGround.ts:192-353 | over every run of any number of grounds all logs list their messages once all along exactly when nothing is stored that its log still holds, and exactly then they also are in time order all along |
| `Exchange.LogsFollowHappenedBefore` | packages/cli/src/core/comms/DistributedCommsGround.ts:330-353 | in every such run every log at every ground holds published messages only, and lists none behind one that its publication happened before when timestamps strictly increase along happened-before |
| `CommsGround.FindCausalInsertIndex` | packages/cli/src/core/comms/DistributedCommsGround.ts:330-353 | the first position whose message is reported later or, if concurrent, has a later timestamp |
| `CommsGround.EvictOldMessages` | packages/cli/src/core/comms/DistributedCommsGround.ts:571-597 | the two loops evict exactly the first evictable entries; at most a fifth goes and every spared message stays |
| `CommsGround.CommsGround.StoreMessage` | packages/cli/src/core/comms/DistributedCommsGround.ts:312-328 | evicts when full, then inserts into map and list; other tasks are untouched |
| `CommsGround.CommsGround.ReceiveFromNetwork` | packages/cli/src/core/comms/DistributedCommsGround.ts:270-310 | drops duplicates, only remembers stale messages, and else merges the clock, stores and remembers |
| `CommsGround.CommsGround.Publish` | packages/cli/src/core/comms/DistributedCommsGround.ts:192-248 | passes the rate limit, answers a duplicate with what is stored, and else ticks, stores and remembers |
| `CommsGround.CommsGround.CheckRateLimit` | packages/cli/src/core/comms/DistributedCommsGround.ts:171-190 | opens a window, turns away at the limit, or counts up |
| `CommsGround.CommsGround.CleanupDedup` | packages/cli/src/core/comms/DistributedCommsGround.ts:148-169 | every entry older than the window is dropped; the others all stay when they are not too many, and else as many as allowed, none older than a dropped one |
| `CommsGround.DropOldest` | packages/cli/src/core/comms/DistributedCommsGround.ts:157-165 | keeps exactly the wanted number, and none older than a dropped one |
| `RateLimit.AdmissionsBounded` | packages/cli/src/core/comms/DistributedCommsGround.ts:171-190 | over every run with non-decreasing time at most the limit in each of an agent's windows and at most twice that in every half-open interval of window length, whatever other agents do |
| `RateLimit.AdmittedIff` | packages/cli/src/core/comms/DistributedCommsGround.ts:171-190 | over every run with non-decreasing time a call opens a window exactly when there is none or the last one is over, and is turned away exactly when it opens none and the admissions counted in the current one have used up the limit |
| `RateLimit.OthersCallsAreNotCounted` | packages/cli/src/core/comms/DistributedCommsGround.ts:171-190 | nothing is open or admitted at first, and the calls of other agents neither open nor admit anything for an agent |
| `RateLimit.ReplayHolds` | packages/cli/src/core/comms/DistributedCommsGround.ts:171-190 | the stored count and reset time always account for the admissions of the current window |
| `RateLimit.ZeroLimitAdmits` | packages/cli/src/core/comms/DistributedCommsGround.ts:178-181 | a limit of zero admits the first call |
| `RateLimit.LimitRespectedIff` | packages/cli/src/core/comms/DistributedCommsGround.ts:171-190 | the limit is respected on all runs exactly when it is at least one |
| `JsonStrings.ReadBody` | packages/cli/src/core/approvals/ApprovalBinding.ts:56 | a printed string reads back as the string and exactly what followed it, for all strings of UTF-16 units (section 7 of RFC 8259) |
| `JsonStrings.QuoteInjective` | packages/cli/src/core/approvals/ApprovalBinding.ts:56 | printed strings are told apart in front of any text |
| `StableSerialize.SerializePrefix` | packages/cli/src/core/approvals/ApprovalBinding.ts:55-64 | equal printed prefixes, each followed by something that cannot belong to the value, are of equivalent values |
| `StableSerialize.EquivalentPrintAlike` | packages/cli/src/core/approvals/ApprovalBinding.ts:55-64 | values that differ only in the order of object keys print the same |
| `StableSerialize.PrintsAlikeIff` | packages/cli/src/core/approvals/ApprovalBinding.ts:55-64 | two JSON values print the same exactly when they are equal as unordered objects |
| `Approvals.ControllersSucceedIff` | packages/cli/src/core/approvals/ApprovalController.ts:34-132 | each decision succeeds exactly when the actor is given, the status fits and the revision is the expected one |
| `Approvals.TransitionMovesForward` | packages/cli/src/core/approvals/ApprovalStore.ts:126-147 | a committed transition leaves a non-terminal record at the next revision with the wanted status, its request and all other records unchanged |
| `Approvals.InMemoryApprovalStore.CreateRecord` | packages/cli/src/core/approvals/ApprovalStore.ts:80-93 | refuses invalid and repeated requests, else stores a pending record at revision 1 |
| `Approvals.InMemoryApprovalStore.Transition` | packages/cli/src/core/approvals/ApprovalStore.ts:126-147 | compare-and-set on the revision, then the transition relation |
| `Approvals.ApprovalController.Approve` | packages/cli/src/core/approvals/ApprovalController.ts:34-54 | approves a pending record for a named actor, or fails without effect |
| `Approvals.ApprovalController.Reject` | packages/cli/src/core/approvals/ApprovalController.ts:94-114 | rejects a pending record for a named actor, or fails without effect |
| `Approvals.ApprovalController.Expire` | packages/cli/src/core/approvals/ApprovalController.ts:56-73 | expires a pending or approved record, or fails without effect |
| `Approvals.ApprovalController.Consume` | packages/cli/src/core/approvals/ApprovalController.ts:75-92 | consumes an approved record, or fails without effect |
| `ApprovalBinding.GatheredLookup` | packages/cli/src/core/approvals/ApprovalGate.ts:134-169 | what the evidence recorded by the gate says under each name that the binding looks up |
| `ApprovalBinding.BindsIff` | packages/cli/src/core/approvals/ApprovalBinding.ts:10-53 | a request built from a context binds to a context exactly when the first was complete and the two agree in every bound field |
| `ApprovalBinding.BindsToItsOwnContextIff` | packages/cli/src/core/approvals/ApprovalBinding.ts:10-53 | it binds to its own context exactly when that is complete and describes the scheduled execution |
| `ApprovalBinding.EmptyDirectoryBindsNothing` | packages/cli/src/core/approvals/ApprovalBinding.ts:10-53 | the approval of an otherwise complete context with an empty working directory authorizes nothing |
| `ApprovalGate.AllowMeansApproved` | packages/cli/src/core/approvals/ApprovalGate.ts:61-175 | an allowing answer with a record names an approved, unexpired record that binds to this context, and leaves the store alone |
| `ApprovalGate.EvaluateStore` | packages/cli/src/core/approvals/ApprovalGate.ts:61-175 | an evaluation creates one pending record under a new identifier, expires the named one, or changes nothing |
| `ApprovalGate.EvaluationAnswers` | packages/cli/src/core/approvals/ApprovalGate.ts:61-175 | the answer and the store in every case: allowed, denied, no policy, a record that ran out, one approved that binds or does not, one in any other status, a new request, an invalid or repeated one |
| `ApprovalGate.AllowedIff` | packages/cli/src/core/approvals/ApprovalGate.ts:85-123 | a required approval is found exactly in the named record of this execution and policy when it is approved, has not run out and binds to this context |
| `ApprovalGate.List` | packages/cli/src/core/approvals/ApprovalStore.ts:100-124 | exactly the matching records, each once, oldest first and ties by identifier |
| `ApprovalGate.FindMatching` | packages/cli/src/core/approvals/ApprovalGate.ts:85-92 | finds the record of the given identifier and policy whenever it is listed |
| `ApprovalGate.ApprovalGate.EvaluateContext` | packages/cli/src/core/approvals/ApprovalGate.ts:61-175 | answers as said, case by case, through decision, record lookup, expiry, status, binding and creation in the source's order |
| `ApprovalGate.ApprovalGate.ConsumeApproved` | packages/cli/src/core/approvals/ApprovalGate.ts:57-59 | consumes at the given revision only |
| `ApprovalGate.ApprovalGateDispatcher.DispatchIfAuthorized` | packages/cli/src/core/approvals/ApprovalGate.ts:209-225 | undisturbed: answers as said, and dispatches once exactly when allowed, leaving the record it was allowed by consumed, and else not at all |
| `ApprovalProtocol.MoveFits` | packages/cli/src/core/approvals/ApprovalTypes.ts:122-148 | whoever moves a record extends a legal trail of statuses to a legal one |
| `ApprovalProtocol.StepSafe` | packages/cli/src/core/approvals/ApprovalGate.ts:209-225 | every step of a dispatcher, operator, requester or sweeper keeps the protocol invariant |
| `ApprovalProtocol.RunsAreSafe` | packages/cli/src/core/approvals/ApprovalGate.ts:209-225 | so it holds after every interleaving of any number of them |
| `ApprovalProtocol.GrantedStays` | packages/cli/src/core/approvals/ApprovalTypes.ts:122-148 | a record that was approved and consumed never moves again |
| `ApprovalProtocol.AtMostOneDispatch` | packages/cli/src/core/approvals/ApprovalGate.ts:209-225 | each approval authorizes at most one dispatch; it was approved and then consumed before, binds to the dispatched context, and was never rejected, expired or cancelled |
| `ApprovalProtocol.DispatchedAsRequested` | packages/cli/src/core/approvals/ApprovalGate.ts:134-169 | under a record that the gate built for one context only contexts with the same bound fields are dispatched |
| `ApprovalProtocol.ApprovedIsDispatched` | packages/cli/src/core/approvals/ApprovalGate.ts:209-225 | from any state, an idle dispatcher that evaluates, consumes and dispatches under an approval in force for its context gets through, and leaves it consumed |
| `ApprovalProtocol.GrantedRun` | packages/cli/src/core/approvals/ApprovalGate.ts:61-225 | a whole run in which an approval is asked for, granted, consumed and used for one dispatch |
| `ApprovalExpiry.SweepOutcomeIff` | packages/cli/src/core/approvals/ApprovalExpiryService.ts:54-75 | which state of a listed record makes the sweep expire it, note a conflict, or abort |
| `ApprovalExpiry.SweepCompletesIff` | packages/cli/src/core/approvals/ApprovalExpiryService.ts:44-84 | with anything done by others before each listed record, the sweep runs to its end exactly when no due one has been decided or deleted by the time it is reached |
| `ApprovalExpiry.ReachesFirstObstacle` | packages/cli/src/core/approvals/ApprovalExpiryService.ts:54-75 | an aborted sweep got exactly as far as the first such record |
| `ApprovalExpiry.SparedRecords` | packages/cli/src/core/approvals/ApprovalExpiryService.ts:44-84 | a listed record that others leave alone is expired and reported when it is due and comes before that, and stays as it is when it comes after |
| `ApprovalExpiry.RejectionAbortsSweep` | packages/cli/src/core/approvals/ApprovalExpiryService.ts:63-75 | a rejection between listing and sweeping aborts the sweep with nothing reported and leaves the next due record due |
| `ApprovalExpiry.RecreatedIsExpired` | packages/cli/src/core/approvals/ApprovalExpiryService.ts:54-61 | a record requested anew under the identifier of a deleted due one is expired, due or not |
| `ApprovalExpiry.SweptOnce` | packages/cli/src/core/approvals/ApprovalExpiryService.ts:44-84 | after an undisturbed sweep nothing is due, and a second one changes nothing |
| `ApprovalExpiry.ReportsTheExpired` | packages/cli/src/core/approvals/ApprovalExpiryService.ts:50-61 | the records reported as expired are exactly those that were due |
| `ApprovalExpiry.ApprovalExpiryService.Sweep` | packages/cli/src/core/approvals/ApprovalExpiryService.ts:54-75 | one record against the store as it is by then |
| `ApprovalExpiry.ApprovalExpiryService.ExpireDue` | packages/cli/src/core/approvals/ApprovalExpiryService.ts:44-84 | undisturbed, it expires and reports exactly the due records and meets no conflict |
| `ApprovalAudit.LivesAreShort` | packages/cli/src/core/approvals/ApprovalTypes.ts:122-148 | a record has at most two transitions, the second only after an approval, and its revision counts them |
| `ApprovalAudit.StoreKeepsLives` | packages/cli/src/core/approvals/ApprovalStore.ts:126-147 | a committed transition extends a legal life |
| `ApprovalAudit.RepairsMissing` | packages/cli/src/core/approvals/ApprovalAudit.ts:42-64 | the repair loop repairs exactly what is missing, in order, and leaves every logged event alone |
| `ApprovalAudit.ItemsOfLife` | packages/cli/src/core/approvals/ApprovalAudit.ts:96-148 | for every life but one the expected lifecycle is the list of its stages |
| `ApprovalAudit.LatestIsMatched` | packages/cli/src/core/approvals/ApprovalAudit.ts:66-94 | the event recorded for a stage meets every later check of that stage, undefined and sanitized fields included |
| `ApprovalAudit.CommitKeepsTrail` | packages/cli/src/core/approvals/ApprovalAudit.ts:66-74 | a committed transition's event has a new identifier, and whether or not it reaches the log, the log stays a partial record of the life |
| `ApprovalAudit.CrashRepair` | packages/cli/src/core/approvals/ApprovalAudit.ts:42-64 | whatever subset of a life's events was recorded, reconciling reports no corruption, adds exactly the missing ones and no others, and repairs nothing the second time |
| `ApprovalAudit.CrashesAreRepaired` | packages/cli/src/core/approvals/ApprovalAudit.ts:42-148 | after any sequence of decisions, crashes and restarts a final reconciliation leaves exactly the events of the life on record |
| `ApprovalAudit.ExpiryAfterApproval` | packages/cli/src/core/approvals/ApprovalAudit.ts:123-136 | after an approval that expired a bogus event is recorded and the true one is not restored |
| `ApprovalAudit.RepairsExactlyIff` | packages/cli/src/core/approvals/ApprovalAudit.ts:42-148 | reconciliation repairs exactly the missing events of a life precisely when it is not an approval followed by an expiry |
| `ApprovalAudit.CommittedIsRecordable` | packages/cli/src/core/approvals/ApprovalAudit.ts:179-186 | every transition that the store commits passes the recorder's checks |
| `ApprovalAudit.ApprovalAuditRecorder.constructor` | packages/cli/src/core/approvals/ApprovalAudit.ts:28-31 | the reason length defaults to 2048 and is at least 1 |
| `ApprovalAudit.ApprovalAuditRecorder.Append` | packages/cli/src/core/approvals/ApprovalAudit.ts:76-94 | adds the event under its identifier, or refuses when there is one already |
| `ApprovalAudit.ApprovalAuditRecorder.RecordRequested` | packages/cli/src/core/approvals/ApprovalAudit.ts:33-40 | records the request of a pending approval only |
| `ApprovalAudit.ApprovalAuditRecorder.RecordTransition` | packages/cli/src/core/approvals/ApprovalAudit.ts:66-74 | checks correlation, revision and status, then records the transition |
| `ApprovalAudit.ApprovalAuditRecorder.ReconcileRecord` | packages/cli/src/core/approvals/ApprovalAudit.ts:42-64 | the loop over the expected events, stopping at the first mismatch; the log is what it had made of it by then |
| `ApprovalAudit.AbortKeepsPrefix` | packages/cli/src/core/approvals/ApprovalAudit.ts:42-64 | an aborted reconciliation leaves the log as reconciling just the items before the offending one |
| `AuditContents.RequestedEventSays` | packages/cli/src/core/approvals/ApprovalAudit.ts:33-40 | the event of a request tells its identifiers, policy, scope, status and revision, who asks, why, and kind, name and sensitivity of each piece of evidence |
| `AuditContents.TransitionEventSays` | packages/cli/src/core/approvals/ApprovalAudit.ts:66-94 | the event of a decision or consumption tells who decided, why and when it was consumed, as far as known, the reason cut off and without control characters |
| `AuditContents.AbortsIff` | packages/cli/src/core/approvals/ApprovalAudit.ts:42-64 | reconciliation aborts exactly when an event logged for a stage of the record says anything else than the record, and names such a stage |
| `ProposalOrder.CountEdges` | packages/cli/src/core/coordination/CoordinationEngine.ts:112-131 | the two tables agree with the dependency graph, edge by edge with multiplicity; later proposals of a task replace earlier ones, unknown dependencies are skipped |
| `ProposalOrder.OrderProposals` | packages/cli/src/core/coordination/CoordinationEngine.ts:111-156 | ends on every batch; for distinct identifiers the result is a permutation, dependencies first and then least identifier first when the batch is acyclic, identifier order exactly when it is cyclic |
| `ProposalOrder.DependencyIff` | packages/cli/src/core/coordination/CoordinationEngine.ts:112-131 | a proposal depends on exactly those that are the last of the batch to stand for one of its dependencies |
| `ProposalOrder.DependenciesComeFirst` | packages/cli/src/core/coordination/CoordinationEngine.ts:138-150 | on an acyclic batch every such proposal is ordered earlier |
| `ProposalOrder.TakeKeepsCoherent` | packages/cli/src/core/coordination/CoordinationEngine.ts:138-140 | taking the head of the queue keeps every count equal to the open dependencies plus the pending releases |
| `ProposalOrder.EnqueueKeepsCoherent` | packages/cli/src/core/coordination/CoordinationEngine.ts:141-149 | a proposal joins the queue exactly when its last dependency is ordered, and only once |
| `ProposalOrder.HeadIsLeast` | packages/cli/src/core/coordination/CoordinationEngine.ts:138-149 | the head of the re-sorted queue is the least identifier among all that are ready |
| `ProposalOrder.LeftoversAreCyclic` | packages/cli/src/core/coordination/CoordinationEngine.ts:152-154 | proposals left over when the queue runs dry form a cycle |
| `ProposalOrder.SortSortsById` | packages/cli/src/core/coordination/CoordinationEngine.ts:135 | the sort orders by identifier and permutes |
| `ProposalOrder.GreedyIsUnique` | packages/cli/src/core/coordination/CoordinationEngine.ts:138-150 | always choosing the least ready identifier determines the order |
| `ProposalOrder.SameForEveryArrangement` | packages/cli/src/core/coordination/CoordinationEngine.ts:111-156 | for distinct identifiers and distinct tasks every arrangement of the same batch gives the same result, acyclic or not |
| `ResourceLeases.LeaseGrantedIff` | packages/cli/src/core/coordination/CoordinationEngine.ts:304-339 | a lease is granted exactly when it and every live lease of other tasks on the resource are for reading, or there is none |
| `ResourceLeases.LeasedSays` | packages/cli/src/core/coordination/CoordinationEngine.ts:304-339 | exactly a valid request whose resource is free is granted, as an active lease from now on for the time asked for; nothing else changes |
| `ResourceLeases.LeaseReleasedSays` | packages/cli/src/core/coordination/CoordinationEngine.ts:341-349 | exactly a known identifier is released: its first lease is released, everything else is as before |
| `ResourceLeases.ReleaseLetsThrough` | packages/cli/src/core/coordination/CoordinationEngine.ts:304-349 | after that a request is granted that only this lease stood in the way of |
| `ResourceLeases.ReservedSays` | packages/cli/src/core/coordination/CoordinationEngine.ts:263-292 | exactly a valid request whose resources no other task has reserved is granted, as an active reservation of them |
| `ResourceLeases.ReservationReleasedSays` | packages/cli/src/core/coordination/CoordinationEngine.ts:294-302 | the first reservation with the identifier is released, everything else is as before |
| `ResourceLeases.ReleaseMakesRoom` | packages/cli/src/core/coordination/CoordinationEngine.ts:263-302 | after that a request is granted that only this reservation stood in the way of |
| `ResourceLeases.CanonicalAscends` | packages/cli/src/core/coordination/CoordinationEngine.ts:283 | a reservation lists the requested resources, each once, in ascending order |
| `ResourceLeases.SafeReadingsIff` | packages/cli/src/core/coordination/CoordinationEngine.ts:263-349 | for any sequence of clock readings: after any mix of requests and releases at these readings, live leases of different tasks on one resource are all reads and active reservations of different tasks are disjoint, exactly when no reading that is ahead of an earlier one is ahead of now |
| `ResourceLeases.RunsAreSafe` | packages/cli/src/core/coordination/CoordinationEngine.ts:263-349 | in particular with non-decreasing time |
| `ResourceLeases.GrantProtects` | packages/cli/src/core/coordination/CoordinationEngine.ts:304-349 | until a granted lease expires or is released, no other task gets an incompatible one, whatever happens in between |
| `ResourceLeases.ReservationProtects` | packages/cli/src/core/coordination/CoordinationEngine.ts:263-302 | a reservation keeps other tasks out until it is released |
| `ResourceLeases.VersionCounts` | packages/cli/src/core/coordination/CoordinationEngine.ts:288-290 | the version grows with every request that changes something, and an unchanged version means an unchanged state |
| `ResourceLeases.ClockGoingBack` | packages/cli/src/core/coordination/CoordinationEngine.ts:314-317 | requests at readings of 100 and 110 that leave two live write leases of different tasks at 105 |
| `ResourceLeases.CoordinationEngine.Snapshot` | packages/cli/src/core/coordination/CoordinationEngine.ts:30-45 | reads a mission's snapshot, creating it when there is none |
| `ResourceLeases.CoordinationEngine.LeaseResource` | packages/cli/src/core/coordination/CoordinationEngine.ts:304-339 | the checks in the source's order; only this mission's snapshot changes |
| `ResourceLeases.CoordinationEngine.ReleaseResourceLease` | packages/cli/src/core/coordination/CoordinationEngine.ts:341-349 | leaves the first lease with the identifier released and everything else as before, or fails |
| `ResourceLeases.CoordinationEngine.ReserveTaskResources` | packages/cli/src/core/coordination/CoordinationEngine.ts:263-292 | reserves when no other task's active reservation overlaps, or fails |
| `ResourceLeases.CoordinationEngine.ReleaseReservation` | packages/cli/src/core/coordination/CoordinationEngine.ts:294-302 | leaves the first reservation with the identifier released and everything else as before, or fails |

## Left out

- ExecutionGraph.ExecutionGraph.ComputeExecutionSchedule: asks for a graph on which the walk back ends, because on others the source's loop runs for ever (`WalkTermination.ScheduleEndsIff`).
- ExecutionGraph.ExecutionGraph.GetExecutionPhases: asks for the same when there is no cached list.
- ExecutionGraph.ExecutionGraph.AddNode: the generated identifier is a parameter that is new and nonempty; role, priority, inputs, outputs and metadata of a node are not modelled.
- ApprovalGate.ApprovalGateDispatcher.DispatchIfAuthorized: is the undisturbed call; consumptions that fail because others interfere are in `ApprovalProtocol`.
- ApprovalExpiry.ApprovalExpiryService.ExpireDue: is the undisturbed sweep, because a method call has no interference; disturbed ones are `SweepCompletesIff` and `SparedRecords`.
- CommsGround.CommsGround.ReceiveFromNetwork: the check whether to summarize after storing is not modelled.
- CommsGround.CommsGround.Publish: truncation of long contents, summaries and broadcasting are not modelled.
- ProposalOrder.OrderProposals: promises nothing about batches with repeated proposal identifiers beyond ending; the fields of a proposal that ordering does not read are left out.
- VectorClock.VectorClock.Merge: `prune`, `lastSeen` and the maximum number of nodes are not modelled; dropping counters breaks the clock order.
- Nodes, messages, records and snapshots are values in the maps of their classes; sharing one object between callers is not modelled.
- Execution graph: `validate`, reachability from roots, parallel batches, statistics, cloning, listeners and node outputs.
- Messaging: `causalSort` (its comparator is not transitive for arbitrary timestamps), state snapshots, summaries, acknowledgements, synchronisation, artifacts, relevance scoring, truncation of long contents, the hash `computeCausalOrder`, and the emitted events.
- A fifth of a log is computed exactly; the source multiplies by 0.2 and rounds down.
- Serialization: values are JSON values, so undefined inside arrays and objects is not modelled; number tokens are taken as printed.
- Approvals: deletion, the SQLite store, the audit call inside the controller's operations, the dispatched work itself.
- Audit log: the hash chain, sequence numbers, the refusal of events that go back in time, and the SQLite file.
- Policy matching: the policy engine's evaluation is a parameter.
- Coordination: proposal reconciliation, local plans, missions and conflicts; a snapshot's other lists; the file format of the store beyond refusing empty identifiers.
- Graph queries other than paths are filters over lists.
- Concurrency inside one call of the approval store or the coordination engine: each such call is one step.
