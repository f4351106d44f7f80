/** Readiness propagation during the execution of a graph: which nodes are offered,
    and that work never stalls (updateNodeStatus, updateDependentNodes and
    getReadyNodes of packages/cli/src/core/collaboration/ExecutionGraph.ts). */
module Readiness {
  import opened Graphs
  import opened Sequences
  import opened NodeTable

  /** The table after the dependency-free nodes were set ready: a node is pending
      exactly while some dependency of it is not completed. */
  ghost predicate Coherent(nodes: Nodes) {
    forall v :: v in nodes ==>
      && (nodes[v].status.Pending? || nodes[v].status.Ready? || nodes[v].status.Running? || nodes[v].status.Completed?)
      && (nodes[v].status.Pending? <==> !AllCompleted(nodes, nodes[v].dependencies))
  }

  datatype Move = Start(id: Id) | Complete(id: Id)

  predicate Enabled(nodes: Nodes, m: Move) {
    m.id in nodes && nodes[m.id].status == if m.Start? then Ready else Running
  }

  function Apply(nodes: Nodes, m: Move, now: nat): Nodes {
    UpdateStatus(nodes, m.id, if m.Start? then Running else Completed, "", now)
  }

  /** A freshly built table: everything pending except the dependency-free nodes. */
  ghost predicate Launched(nodes: Nodes) {
    forall v :: v in nodes ==>
      nodes[v].status == if nodes[v].dependencies == [] then Ready else Pending
  }

  lemma LaunchedIsCoherent(nodes: Nodes)
    requires Launched(nodes)
    ensures Coherent(nodes)
  {
    forall v | v in nodes ensures nodes[v].status.Pending? <==> !AllCompleted(nodes, nodes[v].dependencies) {
      if nodes[v].dependencies != [] {
        var d := nodes[v].dependencies[0];
        assert d in nodes[v].dependencies && !IsCompleted(nodes, d);
      }
    }
  }

  lemma StartCompletes(nodes: Nodes, m: Move, now: nat, d: Id)
    requires Enabled(nodes, m)
    ensures IsCompleted(Apply(nodes, m, now), d) <==> IsCompleted(nodes, d) || (m.Complete? && d == m.id)
  {
  }

  lemma MoveKeepsCoherent(nodes: Nodes, m: Move, now: nat)
    requires Coherent(nodes) && Enabled(nodes, m)
    ensures Coherent(Apply(nodes, m, now))
  {
    var after := Apply(nodes, m, now);
    forall d ensures IsCompleted(after, d) <==> IsCompleted(nodes, d) || (m.Complete? && d == m.id) {
      StartCompletes(nodes, m, now, d);
    }
    forall v | v in after
      ensures after[v].status.Pending? <==> !AllCompleted(after, after[v].dependencies)
    {
      assert after[v].dependencies == nodes[v].dependencies;
      if AllCompleted(nodes, nodes[v].dependencies) {
        assert AllCompleted(after, nodes[v].dependencies);
      } else {
        var d :| d in nodes[v].dependencies && !IsCompleted(nodes, d);
        assert IsCompleted(after, d) <==> m.Complete? && d == m.id;
      }
    }
  }

  ghost function Open(nodes: Nodes): set<Id> {
    set v | v in nodes && !nodes[v].status.Completed?
  }

  /** Until every node is completed, some node is ready or running. */
  lemma NoDeadlock(nodes: Nodes) returns (m: Move)
    requires Coherent(nodes) && Acyclic(Dependencies(nodes)) && NothingMissing(Dependencies(nodes))
    requires exists v :: v in nodes && !nodes[v].status.Completed?
    ensures Enabled(nodes, m)
  {
    var open := Open(nodes);
    var w :| w in nodes && !nodes[w].status.Completed?;
    assert w in open;
    if v :| v in open && (nodes[v].status.Ready? || nodes[v].status.Running?) {
      return if nodes[v].status.Ready? then Start(v) else Complete(v);
    }
    forall v | v in open ensures HasSuccessorIn(Dependencies(nodes), open, v) {
      PendingHasOpenDependency(nodes, v);
    }
    NoSinkMeansCycle(Dependencies(nodes), open);
    m := Start("");
  }

  lemma PendingHasOpenDependency(nodes: Nodes, v: Id)
    requires Coherent(nodes) && NothingMissing(Dependencies(nodes)) && v in nodes && nodes[v].status.Pending?
    ensures HasSuccessorIn(Dependencies(nodes), Open(nodes), v)
  {
    var d :| d in nodes[v].dependencies && !IsCompleted(nodes, d);
    assert Edge(Dependencies(nodes), v, d);
  }

  datatype TimedMove = TimedMove(move: Move, now: nat)

  function Execute(nodes: Nodes, run: seq<TimedMove>): Nodes {
    if run == [] then nodes else Execute(Apply(nodes, run[0].move, run[0].now), run[1..])
  }

  predicate Legal(nodes: Nodes, run: seq<TimedMove>) {
    run != [] ==>
      Enabled(nodes, run[0].move) && Legal(Apply(nodes, run[0].move, run[0].now), run[1..])
  }

  ghost function Waiting(nodes: Nodes): set<Id> {
    set v | v in nodes && (nodes[v].status.Pending? || nodes[v].status.Ready?)
  }

  ghost function InProgress(nodes: Nodes): set<Id> {
    set v | v in nodes && nodes[v].status.Running?
  }

  /** The moves still to be made: two for a waiting node, one for a running one. */
  ghost function Remaining(nodes: Nodes): nat {
    2 * |Waiting(nodes)| + |InProgress(nodes)|
  }

  lemma MoveCountsDown(nodes: Nodes, m: Move, now: nat)
    requires Enabled(nodes, m)
    ensures Remaining(Apply(nodes, m, now)) + 1 == Remaining(nodes)
  {
    var after := Apply(nodes, m, now);
    if m.Start? {
      assert Waiting(after) == Waiting(nodes) - {m.id};
      assert InProgress(after) == InProgress(nodes) + {m.id};
    } else {
      assert Waiting(after) == Waiting(nodes);
      assert InProgress(after) == InProgress(nodes) - {m.id};
    }
  }

  /** Over every run, readiness stays coherent, the graph stays the same, and each
      move is accounted for. */
  lemma {:induction false} RunInvariant(nodes: Nodes, run: seq<TimedMove>)
    requires Coherent(nodes) && Legal(nodes, run)
    ensures Coherent(Execute(nodes, run))
    ensures Dependencies(Execute(nodes, run)) == Dependencies(nodes)
    ensures Remaining(Execute(nodes, run)) + |run| == Remaining(nodes)
  {
    if run != [] {
      var m, now := run[0].move, run[0].now;
      hide Coherent, Remaining, Dependencies;
      MoveKeepsCoherent(nodes, m, now);
      MoveCountsDown(nodes, m, now);
      UpdateStatusKeepsGraph(nodes, m.id, if m.Start? then Running else Completed, "", now);
      RunInvariant(Apply(nodes, m, now), run[1..]);
    }
  }

  /** Whatever run of a launched table: a node that is ready, running or completed has
      all of its dependencies completed, and they are those it was launched with. */
  lemma ReadyMeansDependenciesDone(nodes: Nodes, run: seq<TimedMove>, v: Id)
    requires Launched(nodes) && Legal(nodes, run) && v in nodes
    ensures v in Execute(nodes, run)
    ensures !Execute(nodes, run)[v].status.Pending? ==> AllCompleted(Execute(nodes, run), nodes[v].dependencies)
  {
    LaunchedIsCoherent(nodes);
    RunInvariant(nodes, run);
    var end := Execute(nodes, run);
    assert Dependencies(end).Keys == end.Keys && Dependencies(nodes).Keys == nodes.Keys;
    assert Dependencies(end)[v] == Dependencies(nodes)[v];
  }

  /** A run that cannot be continued has completed every node, after exactly two
      moves for each. */
  lemma MaximalRunCompletesAll(nodes: Nodes, run: seq<TimedMove>)
    requires Launched(nodes) && Legal(nodes, run)
    requires Acyclic(Dependencies(nodes)) && NothingMissing(Dependencies(nodes))
    requires forall m :: !Enabled(Execute(nodes, run), m)
    ensures forall v :: v in Execute(nodes, run) ==> Execute(nodes, run)[v].status.Completed?
    ensures Execute(nodes, run).Keys == nodes.Keys
    ensures |run| == 2 * |nodes|
  {
    hide Coherent, Remaining, Acyclic, NothingMissing, Legal, Execute;
    LaunchedIsCoherent(nodes);
    LaunchedRemaining(nodes);
    RunInvariant(nodes, run);
    var end := Execute(nodes, run);
    assert Dependencies(end).Keys == end.Keys && Dependencies(nodes).Keys == nodes.Keys;
    StuckMeansDone(end);
  }

  lemma LaunchedRemaining(nodes: Nodes)
    requires Launched(nodes)
    ensures Remaining(nodes) == 2 * |nodes|
  {
    assert Waiting(nodes) == nodes.Keys && InProgress(nodes) == {};
  }

  lemma StuckMeansDone(nodes: Nodes)
    requires Coherent(nodes) && Acyclic(Dependencies(nodes)) && NothingMissing(Dependencies(nodes))
    requires forall m :: !Enabled(nodes, m)
    ensures forall v :: v in nodes ==> nodes[v].status.Completed?
    ensures Remaining(nodes) == 0
  {
    if exists v :: v in nodes && !nodes[v].status.Completed? {
      var m := NoDeadlock(nodes);
    }
    assert Waiting(nodes) == {} && InProgress(nodes) == {};
  }

  /** getReadyNodes tests the dependencies again; the test never rejects a ready node. */
  function ReadyNodes(nodes: Nodes, keys: seq<Id>): seq<Id> {
    if keys == [] then []
    else if keys[0] in nodes && nodes[keys[0]].status.Ready? && AllCompleted(nodes, nodes[keys[0]].dependencies)
      then [keys[0]] + ReadyNodes(nodes, keys[1..])
    else ReadyNodes(nodes, keys[1..])
  }

  lemma {:induction false} ReadyNodesAreTheReadyOnes(nodes: Nodes, keys: seq<Id>, v: Id)
    requires Coherent(nodes)
    ensures v in ReadyNodes(nodes, keys) <==> v in keys && v in nodes && nodes[v].status.Ready?
  {
    if keys != [] {
      ReadyNodesAreTheReadyOnes(nodes, keys[1..], v);
      if keys[0] in nodes && nodes[keys[0]].status.Ready? {
        assert AllCompleted(nodes, nodes[keys[0]].dependencies);
      }
    }
  }

  /** Whatever the table, coherent or not. */
  lemma {:induction false} ReadyNodesIff(nodes: Nodes, keys: seq<Id>, v: Id)
    ensures v in ReadyNodes(nodes, keys) <==>
      && v in keys && v in nodes && nodes[v].status == Ready
      && (forall d :: d in nodes[v].dependencies ==> d in nodes && nodes[d].status == Completed)
  {
    if keys != [] {
      ReadyNodesIff(nodes, keys[1..], v);
    }
  }

  /** They are offered in the order in which the nodes were added. */
  lemma {:induction false} ReadyNodesInOrder(nodes: Nodes, keys: seq<Id>)
    requires Distinct(keys)
    ensures InKeyOrder(keys, ReadyNodes(nodes, keys))
  {
    if keys != [] {
      ReadyNodesInOrder(nodes, keys[1..]);
      var rest := ReadyNodes(nodes, keys[1..]);
      forall v | v in rest ensures v != keys[0] && v in keys[1..] {
        ReadyNodesIff(nodes, keys[1..], v);
      }
      LaterKeys(keys, rest);
    }
  }

  ghost predicate InKeyOrder(keys: seq<Id>, ids: seq<Id>) {
    forall i, j :: 0 <= i < j < |ids| ==> FirstIndex(keys, ids[i]) < FirstIndex(keys, ids[j])
  }

  lemma LaterKeys(keys: seq<Id>, rest: seq<Id>)
    requires keys != [] && InKeyOrder(keys[1..], rest)
    requires forall v :: v in rest ==> v != keys[0] && v in keys[1..]
    ensures InKeyOrder(keys, rest) && InKeyOrder(keys, [keys[0]] + rest)
  {
    forall i | 0 <= i < |rest|
      ensures FirstIndex(keys, rest[i]) == FirstIndex(keys[1..], rest[i]) + 1
    {
      assert rest[i] in rest;
    }
    assert FirstIndex(keys, keys[0]) == 0;
  }
}
