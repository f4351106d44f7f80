/** The duration estimate of packages/cli/src/core/collaboration/ExecutionGraph.ts
    (lines 386-390): phases run one after the other, each as long as its slowest node. */
module DurationEstimate {
  import opened Graphs
  import opened TopologicalOrder
  import opened PhaseSchedule
  import opened EarliestTimes
  import opened CriticalPath
  import opened CriticalConditions

  function Slowest(cost: Costs, nodes: seq<Id>): nat
    requires nodes != []
  {
    if |nodes| == 1 then Cost(cost, nodes[0])
    else
      var rest := Slowest(cost, nodes[1..]);
      if Cost(cost, nodes[0]) > rest then Cost(cost, nodes[0]) else rest
  }

  ghost predicate NonemptyPhases(phases: seq<ExecutionPhase>) {
    forall q :: 0 <= q < |phases| ==> phases[q].nodes != []
  }

  /** The duration of the first `p` phases. */
  ghost function DurationOf(cost: Costs, phases: seq<ExecutionPhase>, p: nat): nat
    requires p <= |phases| && NonemptyPhases(phases)
  {
    if p == 0 then 0 else DurationOf(cost, phases, p - 1) + Slowest(cost, phases[p - 1].nodes)
  }

  /** A phase takes as long as one of its members and no less than any of them. */
  ghost predicate PhaseTakes(cost: Costs, members: seq<Id>, d: int) {
    && (exists v :: v in members && Cost(cost, v) == d)
    && (forall v :: v in members ==> Cost(cost, v) <= d)
  }

  /** `t` are the times at which the first `n` phases begin, and the last of them ends, when
      they run one after the other. */
  ghost predicate OneAfterAnother(cost: Costs, phases: seq<ExecutionPhase>, n: nat, t: seq<int>, end: int)
    requires n <= |phases|
  {
    && |t| == n + 1 && t[0] == 0 && t[n] == end
    && forall p {:trigger phases[p]} :: 0 <= p < n ==> PhaseTakes(cost, phases[p].nodes, t[p + 1] - t[p])
  }

  lemma {:induction false} PhaseTakesSlowest(cost: Costs, members: seq<Id>)
    requires members != []
    ensures PhaseTakes(cost, members, Slowest(cost, members))
  {
    hide Cost;
    if |members| == 1 {
      assert members[0] in members;
    } else {
      PhaseTakesSlowest(cost, members[1..]);
      assert members[0] in members && forall v :: v in members <==> v == members[0] || v in members[1..];
    }
  }

  lemma {:induction false} RunningTotals(cost: Costs, phases: seq<ExecutionPhase>, n: nat) returns (t: seq<int>)
    requires n <= |phases| && NonemptyPhases(phases)
    ensures OneAfterAnother(cost, phases, n, t, DurationOf(cost, phases, n))
  {
    hide Slowest, Cost, PhaseTakes, OneAfterAnother;
    if n == 0 {
      t := [0];
      NothingYet(cost, phases);
    } else {
      var earlier := RunningTotals(cost, phases, n - 1);
      PhaseTakesSlowest(cost, phases[n - 1].nodes);
      t := earlier + [DurationOf(cost, phases, n)];
      OneMorePhase(cost, phases, n - 1, earlier, DurationOf(cost, phases, n - 1), DurationOf(cost, phases, n));
    }
  }

  lemma NothingYet(cost: Costs, phases: seq<ExecutionPhase>)
    ensures OneAfterAnother(cost, phases, 0, [0], 0)
  {
  }

  lemma OneMorePhase(cost: Costs, phases: seq<ExecutionPhase>, n: nat, t: seq<int>, end: int, later: int)
    requires n < |phases| && OneAfterAnother(cost, phases, n, t, end)
    requires PhaseTakes(cost, phases[n].nodes, later - end)
    ensures OneAfterAnother(cost, phases, n + 1, t + [later], later)
  {
    hide PhaseTakes;
  }

  method EstimateDuration(cost: Costs, phases: seq<ExecutionPhase>) returns (estimatedDuration: nat)
    requires NonemptyPhases(phases)
    ensures estimatedDuration == DurationOf(cost, phases, |phases|)
    ensures exists t :: OneAfterAnother(cost, phases, |phases|, t, estimatedDuration)
  {
    hide OneAfterAnother;
    ghost var t := RunningTotals(cost, phases, |phases|);
    estimatedDuration := 0;
    var i := 0;
    while i < |phases|
      invariant 0 <= i <= |phases|
      invariant estimatedDuration == DurationOf(cost, phases, i)
    {
      var phaseDuration := Slowest(cost, phases[i].nodes);
      estimatedDuration := estimatedDuration + phaseDuration;
      i := i + 1;
    }
  }

  lemma {:induction false} DurationGrows(cost: Costs, phases: seq<ExecutionPhase>, p: nat, q: nat)
    requires p <= q <= |phases| && NonemptyPhases(phases)
    ensures DurationOf(cost, phases, p) <= DurationOf(cost, phases, q)
    decreases q
  {
    if p < q {
      DurationGrows(cost, phases, p, q - 1);
    }
  }

  ghost predicate InPhase(phases: seq<ExecutionPhase>, v: Id, p: nat) {
    p < |phases| && v in phases[p].nodes
  }

  lemma DependencyInEarlierPhase(g: Graph, phases: seq<ExecutionPhase>, v: Id, p: nat, d: Id) returns (q: nat)
    requires Layered(g, phases) && InPhase(phases, v, p) && Edge(g, v, d) && d in g
    ensures InPhase(phases, d, q) && q < p
  {
    q :| 0 <= q < |phases| && d in phases[q].nodes;
    assert LongestChain(g, v, p) && LongestChain(g, d, q);
    var w :| Chain(g, d, w) && |w| == q + 1;
    ChainPrepend(g, v, d, w);
    assert |[v] + w| == q + 2;
  }

  /** A dependency chain from a vertex of phase `p` fits into the first `p + 1` phases. */
  lemma {:induction false} ChainFitsPhases(g: Graph, cost: Costs, phases: seq<ExecutionPhase>, v: Id, p: nat,
                                           w: seq<Id>)
    requires Layered(g, phases) && InPhase(phases, v, p) && Chain(g, v, w)
    ensures Total(cost, w) <= DurationOf(cost, phases, p + 1)
    decreases |w|
  {
    hide Layered, Chain;
    PhasesNonempty(g, phases);
    assert w[0] == v && w != [] by { ChainStart(g, v, w); }
    PhaseTakesSlowest(cost, phases[p].nodes);
    if |w| > 1 {
      ChainTail(g, v, w);
      var q := DependencyInEarlierPhase(g, phases, v, p, w[1]);
      ChainFitsPhases(g, cost, phases, w[1], q, w[1..]);
      DurationGrows(cost, phases, q + 1, p);
    }
  }

  lemma PhasesNonempty(g: Graph, phases: seq<ExecutionPhase>)
    requires Layered(g, phases)
    ensures NonemptyPhases(phases)
  {
  }

  lemma PhaseOf(g: Graph, phases: seq<ExecutionPhase>, v: Id) returns (p: nat)
    requires Layered(g, phases) && v in g
    ensures InPhase(phases, v, p)
  {
    p :| 0 <= p < |phases| && v in phases[p].nodes;
  }

  lemma ChainStart(g: Graph, v: Id, w: seq<Id>)
    requires Chain(g, v, w)
    ensures w != [] && w[0] == v
  {
  }

  /** No dependency chain, and no earliest finish, exceeds the estimate. */
  lemma EstimateCoversChains(g: Graph, cost: Costs, phases: seq<ExecutionPhase>, v: Id, f: nat)
    requires Layered(g, phases) && v in g && HeaviestChain(g, cost, v, f)
    ensures NonemptyPhases(phases)
    ensures f <= DurationOf(cost, phases, |phases|)
    ensures forall w :: Chain(g, v, w) ==> Total(cost, w) <= f
  {
    hide Layered, Chain, Total;
    PhasesNonempty(g, phases);
    var p := PhaseOf(g, phases, v);
    var w :| Chain(g, v, w) && Total(cost, w) == f;
    ChainFitsPhases(g, cost, phases, v, p, w);
    DurationGrows(cost, phases, p + 1, |phases|);
  }

  /** Every dependency chain fits into the maximum finish, and that into the estimate. */
  ghost predicate Bounded(g: Graph, cost: Costs, times: Times, phases: seq<ExecutionPhase>, end: Id)
    requires NonemptyPhases(phases)
  {
    && (forall v, w :: v in g && Chain(g, v, w) ==> Total(cost, w) <= Finish(times.finish, end))
    && Finish(times.finish, end) <= DurationOf(cost, phases, |phases|)
  }

  lemma FinishesBounded(g: Graph, cost: Costs, order: seq<Id>, times: Times, phases: seq<ExecutionPhase>, end: Id)
    requires Enumerates(g, order) && Timed(g, cost, order, times) && Layered(g, phases)
    requires end in g && forall v :: v in g ==> Finish(times.finish, v) <= Finish(times.finish, end)
    ensures NonemptyPhases(phases)
    ensures Bounded(g, cost, times, phases, end)
  {
    hide Timed, Layered, Chain, Enumerates, HeaviestChain;
    TimedVertex(g, cost, order, times, end);
    EstimateCoversChains(g, cost, phases, end, times.finish[end]);
    forall v, w | v in g && Chain(g, v, w) ensures Total(cost, w) <= Finish(times.finish, end) {
      TimedVertex(g, cost, order, times, v);
      EstimateCoversChains(g, cost, phases, v, times.finish[v]);
    }
  }

  /** The guarantees of a computed schedule: every chain fits into the maximum finish and
      that into the estimate; the critical path, read backwards, is a chain from the first
      node of maximum finish; and it totals that finish exactly when it has no slack. */
  lemma ScheduleGuarantees(g: Graph, cost: Costs, order: seq<Id>, times: Times,
                           phases: seq<ExecutionPhase>, path: seq<Id>)
    requires Scheduled(g, cost, order, times, path) && Layered(g, phases)
    ensures order != [] && LeadsFromSource(g, path) && path[|path| - 1] == EndNode(order, times)
    ensures NonemptyPhases(phases)
    ensures Bounded(g, cost, times, phases, EndNode(order, times))
    ensures Total(cost, path) == Finish(times.finish, EndNode(order, times)) <==> Slack(times, path) == 0
    ensures 0 <= Slack(times, path)
  {
    hide Timed, Layered, Chain, Enumerates, Bounded, WalkedBack, NothingMissing, Steps, Finish;
    CriticalPathIsChain(g, cost, order, times, path);
    PathEnd(g, cost, order, times, path);
    FinishesBounded(g, cost, order, times, phases, EndNode(order, times));
  }
}
