/** When the walk back of findCriticalPath ends
    (packages/cli/src/core/collaboration/ExecutionGraph.ts, lines 419-440). */
module WalkTermination {
  import opened Sequences
  import opened Graphs
  import opened NodeTable
  import opened GraphEditing
  import opened TopologicalOrder
  import opened EarliestTimes
  import opened CriticalPath

  ghost predicate SingleSteps(steps: Graph) {
    forall v :: |Succ(steps, v)| <= 1
  }

  /** Following the steps from `v` leads to a cycle. */
  ghost predicate LeadsIntoCycle(steps: Graph, v: Id) {
    exists c :: ClosedWalk(steps, c) && Reaches(steps, v, c[0])
  }

  lemma OnlyStep(steps: Graph, a: Id, b: Id)
    requires SingleSteps(steps) && Edge(steps, a, b)
    ensures Succ(steps, a) == [b]
  {
    assert |Succ(steps, a)| == 1;
  }

  lemma {:induction false} WalkToStopEnds(steps: Graph, w: seq<Id>)
    requires SingleSteps(steps) && Walk(steps, w) && Succ(steps, w[|w| - 1]) == []
    ensures EndsWithin(steps, w[0], |w| - 1)
    decreases |w|
  {
    if |w| > 1 {
      OnlyStep(steps, w[0], w[1]);
      WalkSlice(steps, w, 1, |w|);
      hide Walk;
      WalkToStopEnds(steps, w[1..]);
    }
  }

  /** A walk that never stops repeats a vertex sooner or later. */
  lemma {:induction false} EndlessWalkRepeats(steps: Graph, v: Id, w: seq<Id>)
    requires SingleSteps(steps) && !WalkEnds(steps, v)
    requires Walk(steps, w) && w[0] == v && Distinct(w)
    ensures LeadsIntoCycle(steps, v)
    decreases |steps.Keys| - |w|
  {
    forall i | 0 <= i < |w| ensures w[i] in steps {
      if i + 1 < |w| {
        assert Edge(steps, w[i], w[i + 1]);
      } else if w[i] !in steps {
        WalkToStopEnds(steps, w);
      }
    }
    var last := w[|w| - 1];
    if Succ(steps, last) == [] {
      WalkToStopEnds(steps, w);
    }
    var b := Succ(steps, last)[0];
    assert Edge(steps, last, b);
    assert Elements(w) <= steps.Keys;
    DistinctCardinality(w);
    SubsetCardinality(Elements(w), steps.Keys);
    if b in w {
      CloseWalk(steps, v, w, b);
    } else {
      WalkExtends(steps, w, b);
      GrowsWithin(steps, w, b);
      EndlessWalkRepeats(steps, v, w + [b]);
    }
  }

  lemma CloseWalk(steps: Graph, v: Id, w: seq<Id>, b: Id)
    requires Walk(steps, w) && w[0] == v && Edge(steps, w[|w| - 1], b) && b in w
    ensures LeadsIntoCycle(steps, v)
  {
    var i := FirstIndex(w, b);
    var c := w[i..] + [b];
    ClosingStep(steps, w, b);
    WalkSlice(steps, w, 0, i + 1);
    assert WalkBetween(steps, v, b, w[0..i + 1]);
    assert ClosedWalk(steps, c) && c[0] == b;
  }

  lemma GrowsWithin(steps: Graph, w: seq<Id>, b: Id)
    requires Distinct(w) && b !in w && Elements(w) <= steps.Keys
    ensures Distinct(w + [b]) && (b in steps ==> |w| < |steps.Keys|)
  {
    if b in steps {
      DistinctCardinality(w + [b]);
      assert Elements(w + [b]) == Elements(w) + {b};
      SubsetCardinality(Elements(w + [b]), steps.Keys);
    }
  }

  lemma {:induction false} CycleNeverEnds(steps: Graph, c: seq<Id>, i: nat, n: nat)
    requires SingleSteps(steps) && ClosedWalk(steps, c) && i < |c|
    ensures !EndsWithin(steps, c[i], n)
    decreases n
  {
    var j := if i == |c| - 1 then 0 else i;
    assert c[j] == c[i] && Edge(steps, c[j], c[j + 1]);
    OnlyStep(steps, c[j], c[j + 1]);
    if n > 0 {
      CycleNeverEnds(steps, c, j + 1, n - 1);
    }
  }

  lemma {:induction false} EndingGoesOn(steps: Graph, w: seq<Id>, n: nat) returns (m: nat)
    requires SingleSteps(steps) && Walk(steps, w) && EndsWithin(steps, w[0], n)
    ensures EndsWithin(steps, w[|w| - 1], m)
    decreases |w|
  {
    m := n;
    if |w| > 1 {
      assert Edge(steps, w[0], w[1]);
      OnlyStep(steps, w[0], w[1]);
      WalkSlice(steps, w, 1, |w|);
      m := EndingGoesOn(steps, w[1..], n - 1);
    }
  }

  /** The walk ends exactly when the steps do not lead from its start into a cycle. */
  lemma WalkEndsIff(steps: Graph, v: Id)
    requires SingleSteps(steps)
    ensures WalkEnds(steps, v) <==> !LeadsIntoCycle(steps, v)
  {
    if WalkEnds(steps, v) && LeadsIntoCycle(steps, v) {
      var n :| EndsWithin(steps, v, n);
      var c :| ClosedWalk(steps, c) && Reaches(steps, v, c[0]);
      var w :| WalkBetween(steps, v, c[0], w);
      var m := EndingGoesOn(steps, w, n);
      CycleNeverEnds(steps, c, 0, m);
    }
    if !WalkEnds(steps, v) {
      EndlessWalkRepeats(steps, v, [v]);
    }
  }

  lemma StepsAreSingle(g: Graph, times: Times)
    ensures SingleSteps(Steps(g, times))
  {
  }

  /** A step goes to a dependency. */
  lemma StepIsEdge(g: Graph, times: Times, a: Id, b: Id)
    requires Edge(Steps(g, times), a, b)
    ensures a in g && g[a] != [] && b == Preferred(g[a], times) && b != "" && Edge(g, a, b)
    ensures LatestStarter(g[a], times, b)
  {
    PreferredIsLatest(g[a], times);
  }

  /** In terms of the graph, its timeouts and the order: the schedule's walk ends exactly
      when preferring the dependency that starts last does not lead from the first vertex
      that finishes last into a cycle. */
  lemma ScheduleEndsIff(g: Graph, cost: Costs, order: seq<Id>)
    requires order != []
    ensures var times := TimesFor(g, cost, order);
            WalkBackEnds(g, cost, order) <==> !LeadsIntoCycle(Steps(g, times), EndNode(order, times))
  {
    var times := TimesFor(g, cost, order);
    StepsAreSingle(g, times);
    WalkEndsIff(Steps(g, times), EndNode(order, times));
  }

  /** On an acyclic graph it always ends. */
  lemma AcyclicWalkEnds(g: Graph, times: Times, v: Id)
    requires Acyclic(g)
    ensures WalkEnds(Steps(g, times), v)
  {
    var steps := Steps(g, times);
    StepsAreSingle(g, times);
    WalkEndsIff(steps, v);
    forall c ensures !ClosedWalk(steps, c) {
      if ClosedWalk(steps, c) {
        forall i, j | 0 <= i && j == i + 1 < |c| ensures Edge(g, c[i], c[j]) {
          StepIsEdge(g, times, c[i], c[j]);
        }
        assert ClosedWalk(g, c);
      }
    }
  }

  lemma AcyclicWalkBackEnds(g: Graph, cost: Costs, order: seq<Id>)
    requires Acyclic(g)
    ensures WalkBackEnds(g, cost, order)
  {
    if order != [] {
      var times := TimesFor(g, cost, order);
      AcyclicWalkEnds(g, times, EndNode(order, times));
    }
  }

  /** Vertices that all have dependencies, and only on each other. */
  ghost predicate Trap(g: Graph, s: set<Id>) {
    "" !in s && forall v :: v in s ==> v in g && g[v] != [] && Elements(g[v]) <= s
  }

  /** Whatever the timeouts and the order, a walk from such a vertex never ends. */
  lemma {:induction false} TrappedWalkGoesOn(g: Graph, times: Times, s: set<Id>, v: Id, n: nat)
    requires Trap(g, s) && v in s
    ensures !EndsWithin(Steps(g, times), v, n)
    decreases n
  {
    PreferredIsLatest(g[v], times);
    var d := Preferred(g[v], times);
    assert d in Elements(g[v]);
    assert Succ(Steps(g, times), v) == [d];
    if n > 0 {
      TrappedWalkGoesOn(g, times, s, d, n - 1);
    }
  }

  /** A graph in which every vertex has dependencies and none is missing cannot be
      scheduled: whatever the timeouts and the order, the walk never ends. */
  lemma NoSourceNeverEnds(g: Graph, cost: Costs, order: seq<Id>)
    requires Enumerates(g, order) && order != [] && NothingMissing(g) && "" !in g
    requires forall v :: v in g ==> g[v] != []
    ensures !WalkBackEnds(g, cost, order)
  {
    var times := TimesFor(g, cost, order);
    var e := EndNode(order, times);
    assert e in Elements(order);
    forall v | v in g ensures Elements(g[v]) <= g.Keys {
      forall b | b in g[v] ensures b in g {
        assert Edge(g, v, b);
      }
    }
    forall n: nat ensures !EndsWithin(Steps(g, times), e, n) {
      TrappedWalkGoesOn(g, times, g.Keys, e, n);
    }
  }

  lemma AddedDependencies(nodes: Nodes, id: Id, taskId: string, dependencies: seq<Id>, timeout: nat)
    ensures Dependencies(Added(nodes, id, taskId, dependencies, timeout)) == Dependencies(nodes)[id := dependencies]
  {
    var extended := nodes[id := NewNode(id, taskId, dependencies, timeout)];
    forall v ensures v in Added(nodes, id, taskId, dependencies, timeout) <==> v in extended {
      RegisterEffect(extended, dependencies, id, v);
    }
    forall v | v in extended
      ensures Added(nodes, id, taskId, dependencies, timeout)[v].dependencies == extended[v].dependencies
    {
      RegisterEffect(extended, dependencies, id, v);
    }
  }

  lemma MutualNeverEnds(a: Id, b: Id, cost: Costs, order: seq<Id>)
    requires a != b && a != "" && b != "" && Enumerates(map[a := [b], b := [a]], order)
    ensures !WalkBackEnds(map[a := [b], b := [a]], cost, order)
  {
    assert a in Elements(order);
    NoSourceNeverEnds(map[a := [b], b := [a]], cost, order);
  }

  /** Such a graph can be built: a dependency need not exist when a node is added. */
  lemma MutualDependenciesNeverEnd(a: Id, b: Id, timeout: nat, order: seq<Id>)
    requires a != b && a != "" && b != ""
    requires Enumerates(map[a := [b], b := [a]], order)
    ensures var nodes := Added(Added(map[], a, "", [b], timeout), b, "", [a], timeout);
            && Dependencies(nodes) == map[a := [b], b := [a]]
            && !WalkBackEnds(Dependencies(nodes), Timeouts(nodes), order)
  {
    hide Added, Enumerates, WalkBackEnds;
    var nodes := Added(Added(map[], a, "", [b], timeout), b, "", [a], timeout);
    TwoAdded(a, [b], b, [a], timeout);
    MutualNeverEnds(a, b, Timeouts(nodes), order);
  }

  /** Or a caller makes a node depend on one that depends on it, by way of the live node
      that a lookup returns. */
  lemma EditedNodeNeverEnds(a: Id, b: Id, timeout: nat, order: seq<Id>)
    requires a != b && a != "" && b != ""
    requires Enumerates(map[a := [b], b := [a]], order)
    ensures var built := Added(Added(map[], a, "", [], timeout), b, "", [a], timeout);
            && a in built && Acyclic(Dependencies(built))
            && var edited := built[a := built[a].(dependencies := [b])];
            && Dependencies(edited) == map[a := [b], b := [a]]
            && !WalkBackEnds(Dependencies(edited), Timeouts(edited), order)
  {
    hide Added, Enumerates, WalkBackEnds, Acyclic;
    var built := Added(Added(map[], a, "", [], timeout), b, "", [a], timeout);
    TwoAdded(a, [], b, [a], timeout);
    PairIsAcyclic(a, b);
    EditedDependencies(built, a, [b]);
    MutualNeverEnds(a, b, Timeouts(built[a := built[a].(dependencies := [b])]), order);
  }

  lemma TwoAdded(a: Id, first: seq<Id>, b: Id, second: seq<Id>, timeout: nat)
    requires a != b
    ensures var nodes := Added(Added(map[], a, "", first, timeout), b, "", second, timeout);
            Dependencies(nodes) == map[a := first, b := second] && a in nodes
  {
    hide Added;
    AddedDependencies(map[], a, "", first, timeout);
    AddedDependencies(Added(map[], a, "", first, timeout), b, "", second, timeout);
    var nodes := Added(Added(map[], a, "", first, timeout), b, "", second, timeout);
    assert a in Dependencies(nodes);
  }

  lemma PairIsAcyclic(a: Id, b: Id)
    requires a != b
    ensures Acyclic(map[a := [], b := [a]])
  {
    var g: Graph := map[a := [], b := [a]];
    RankedIsAcyclic(g, v => if v == b then 1 else 0);
  }

  lemma EditedDependencies(nodes: Nodes, a: Id, dependencies: seq<Id>)
    requires a in nodes
    ensures Dependencies(nodes[a := nodes[a].(dependencies := dependencies)])
         == Dependencies(nodes)[a := dependencies]
  {
  }
}
