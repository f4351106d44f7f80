/** What the path of findCriticalPath is worth
    (packages/cli/src/core/collaboration/ExecutionGraph.ts, lines 397-443): it is a
    dependency chain, and when it is the heaviest one. */
module CriticalConditions {
  import opened Sequences
  import opened Graphs
  import opened TopologicalOrder
  import opened PhaseSchedule
  import opened EarliestTimes
  import opened CriticalPath
  import opened WalkTermination

  /** The times and the path of an acyclic graph with nothing missing. */
  ghost predicate Scheduled(g: Graph, cost: Costs, order: seq<Id>, times: Times, path: seq<Id>) {
    && NothingMissing(g) && "" !in g && g.Keys != {} && cost.Keys == g.Keys
    && Enumerates(g, order) && Timed(g, cost, order, times) && WalkedBack(g, times, order, path)
  }

  function Reverse(s: seq<Id>): (r: seq<Id>)
    ensures |r| == |s| && forall i :: 0 <= i < |s| ==> r[i] == s[|s| - 1 - i]
  {
    if s == [] then [] else Reverse(s[1..]) + [s[0]]
  }

  /** The path, read backwards, is a dependency chain down to a vertex without dependencies. */
  ghost predicate LeadsFromSource(g: Graph, path: seq<Id>) {
    path != [] && path[0] in g && g[path[0]] == [] && Chain(g, path[|path| - 1], Reverse(path))
  }

  /** The waiting time between the finish of each vertex of the path and the start of the next. */
  ghost function Slack(times: Times, path: seq<Id>): int {
    if |path| <= 1 then 0
    else Start(times, path[1]) - Finish(times.finish, path[0]) + Slack(times, path[1..])
  }

  lemma {:induction false} TotalAndSlack(cost: Costs, times: Times, path: seq<Id>)
    requires path != [] && forall v :: v in path ==> Finish(times.finish, v) == Start(times, v) + Cost(cost, v)
    ensures Total(cost, path) + Slack(times, path) + Start(times, path[0]) == Finish(times.finish, path[|path| - 1])
  {
    hide Start, Finish, Cost;
    if |path| > 1 {
      TotalAndSlack(cost, times, path[1..]);
    } else {
      assert Total(cost, path[1..]) == 0;
    }
  }

  lemma PathStep(g: Graph, times: Times, path: seq<Id>, k: nat)
    requires BackwardPath(Steps(g, times), path) && 0 < k < |path|
    ensures path[k] in g && g[path[k]] != [] && path[k - 1] == Preferred(g[path[k]], times)
    ensures path[k - 1] in g[path[k]] && LatestStarter(g[path[k]], times, path[k - 1])
  {
    StepIsEdge(g, times, path[k], path[k - 1]);
  }

  lemma PathEnd(g: Graph, cost: Costs, order: seq<Id>, times: Times, path: seq<Id>)
    requires Scheduled(g, cost, order, times, path)
    ensures order != [] && path != [] && path[|path| - 1] == EndNode(order, times) && path[|path| - 1] in g
    ensures forall v :: v in g ==> Finish(times.finish, v) <= Finish(times.finish, path[|path| - 1])
  {
    var u :| u in g.Keys;
    assert u in Elements(order);
    forall v | v in g ensures v in order {
      assert v in Elements(order);
    }
    assert EndNode(order, times) in Elements(order);
    hide Finish;
  }

  lemma PathInGraph(g: Graph, cost: Costs, order: seq<Id>, times: Times, path: seq<Id>)
    requires Scheduled(g, cost, order, times, path)
    ensures forall v :: v in path ==> v in g
  {
    PathEnd(g, cost, order, times, path);
    hide Timed, Enumerates, Steps;
    forall k | 0 <= k < |path| ensures path[k] in g {
      if k + 1 < |path| {
        PathStep(g, times, path, k + 1);
        assert Edge(g, path[k + 1], path[k]);
      }
    }
  }

  /** When nothing is missing the walk stops exactly where there is no dependency. */
  lemma StopsAtSource(g: Graph, times: Times, v: Id)
    requires NothingMissing(g) && "" !in g && v in g
    ensures Succ(Steps(g, times), v) == [] <==> g[v] == []
  {
    if g[v] != [] {
      PreferredIsLatest(g[v], times);
      assert Edge(g, v, Preferred(g[v], times));
    }
  }

  /** It begins at a vertex without dependencies, which starts at once. */
  lemma PathHead(g: Graph, cost: Costs, order: seq<Id>, times: Times, path: seq<Id>)
    requires Scheduled(g, cost, order, times, path)
    ensures path != [] && path[0] in g && g[path[0]] == [] && Start(times, path[0]) == 0
  {
    PathEnd(g, cost, order, times, path);
    PathInGraph(g, cost, order, times, path);
    var v := path[0];
    StopsAtSource(g, times, v);
    TimedVertex(g, cost, order, times, v);
    hide Timed, Enumerates, Steps, HeaviestChain;
  }

  lemma StepSlack(g: Graph, cost: Costs, order: seq<Id>, times: Times, v: Id)
    requires Timed(g, cost, order, times) && Enumerates(g, order) && v in g && g[v] != []
    ensures var d := Preferred(g[v], times);
            && Finish(times.finish, d) <= Start(times, v)
            && (Finish(times.finish, d) == Start(times, v) <==> PrefersLatest(g, times, v))
  {
    TimedVertex(g, cost, order, times, v);
    PreferredIsLatest(g[v], times);
    hide Timed, Enumerates, HeaviestChain;
    var t := times.start[v];
    if t > 0 {
      var b :| b in g[v] && b in times.finish && times.finish[b] == t;
    }
  }

  /** The dependency that the walk prefers, because it starts last, also finishes last. */
  ghost predicate PrefersLatest(g: Graph, times: Times, v: Id)
    requires v in g
  {
    g[v] != [] ==> forall b :: b in g[v] ==> Finish(times.finish, b) <= Finish(times.finish, Preferred(g[v], times))
  }

  lemma BackwardTail(steps: Graph, path: seq<Id>)
    requires BackwardPath(steps, path) && path != []
    ensures BackwardPath(steps, path[1..])
  {
    var rest := path[1..];
    forall i, j | 0 <= i && j == i + 1 < |rest| ensures Edge(steps, rest[j], rest[i]) {
      assert Edge(steps, path[j + 1], path[i + 1]);
    }
  }

  lemma {:induction false} NoSlackIff(g: Graph, cost: Costs, order: seq<Id>, times: Times, path: seq<Id>)
    requires Timed(g, cost, order, times) && Enumerates(g, order) && BackwardPath(Steps(g, times), path)
    ensures forall k :: 1 <= k < |path| ==> path[k] in g
    ensures Slack(times, path) >= 0
    ensures Slack(times, path) == 0 <==> forall k :: 1 <= k < |path| ==> PrefersLatest(g, times, path[k])
  {
    hide Timed, Enumerates, Steps, PrefersLatest, Start, Finish;
    if |path| > 1 {
      var rest := path[1..];
      PathStep(g, times, path, 1);
      StepSlack(g, cost, order, times, path[1]);
      BackwardTail(Steps(g, times), path);
      NoSlackIff(g, cost, order, times, rest);
      forall k | 1 <= k < |path| ensures path[k] in g {
        if k > 1 {
          assert rest[k - 1] in g;
        }
      }
      if forall k :: 1 <= k < |path| ==> PrefersLatest(g, times, path[k]) {
        forall k | 1 <= k < |rest| ensures PrefersLatest(g, times, rest[k]) {
          assert rest[k] == path[k + 1];
        }
      }
      if PrefersLatest(g, times, path[1]) && forall k :: 1 <= k < |rest| ==> PrefersLatest(g, times, rest[k]) {
        forall k | 1 <= k < |path| ensures PrefersLatest(g, times, path[k]) {
          if k > 1 {
            assert rest[k - 1] == path[k];
          }
        }
      }
    }
  }

  /** The path read backwards is a dependency chain from the first vertex that finishes
      last to one without dependencies.  Its total falls short of that finish by its slack. */
  lemma CriticalPathIsChain(g: Graph, cost: Costs, order: seq<Id>, times: Times, path: seq<Id>)
    requires Scheduled(g, cost, order, times, path)
    ensures order != [] && LeadsFromSource(g, path) && path[|path| - 1] == EndNode(order, times)
    ensures Total(cost, path) + Slack(times, path) == Finish(times.finish, EndNode(order, times))
    ensures 0 <= Slack(times, path)
  {
    PathEnd(g, cost, order, times, path);
    PathHead(g, cost, order, times, path);
    PathInGraph(g, cost, order, times, path);
    NoSlackIff(g, cost, order, times, path);
    ReversedPathIsChain(g, times, path);
    forall v | v in path ensures Finish(times.finish, v) == Start(times, v) + Cost(cost, v) {
      FinishIsStartPlusCost(g, cost, order, times, v);
    }
    hide Timed, Enumerates, Chain, Steps, PrefersLatest;
    TotalAndSlack(cost, times, path);
  }

  lemma ReversedPathIsChain(g: Graph, times: Times, path: seq<Id>)
    requires path != [] && BackwardPath(Steps(g, times), path) && forall v :: v in path ==> v in g
    ensures Chain(g, path[|path| - 1], Reverse(path))
  {
    hide Steps, Edge;
    forall k | 0 < k < |path| ensures Edge(g, path[k], path[k - 1]) {
      StepBack(g, times, path, k);
    }
    forall v | v in Reverse(path) ensures v in path {
    }
    ReversedWalk(g, path);
  }

  lemma ReversedWalk(g: Graph, path: seq<Id>)
    requires path != [] && forall k {:trigger path[k]} :: 0 < k < |path| ==> Edge(g, path[k], path[k - 1])
    ensures Walk(g, Reverse(path))
  {
    hide Edge;
    var w, n := Reverse(path), |path|;
    forall i, j | 0 <= i && j == i + 1 < n ensures Edge(g, w[i], w[j]) {
      var k := n - 1 - i;
      assert w[i] == path[k] && w[j] == path[k - 1];
    }
  }

  lemma StepBack(g: Graph, times: Times, path: seq<Id>, k: nat)
    requires BackwardPath(Steps(g, times), path) && 0 < k < |path|
    ensures Edge(g, path[k], path[k - 1])
  {
    PathStep(g, times, path, k);
  }

  // ----- for given timeouts

  lemma {:induction false} PathIsReached(steps: Graph, path: seq<Id>, k: nat)
    requires path != [] && BackwardPath(steps, path) && k < |path|
    ensures Reaches(steps, path[|path| - 1], path[k])
    decreases |path| - k
  {
    var end := path[|path| - 1];
    if k == |path| - 1 {
      assert WalkBetween(steps, end, end, [end]);
    } else {
      PathIsReached(steps, path, k + 1);
      var w :| WalkBetween(steps, end, path[k + 1], w);
      WalkExtends(steps, w, path[k]);
      assert WalkBetween(steps, end, path[k], w + [path[k]]);
    }
  }

  lemma {:induction false} ReachedIsOnPath(steps: Graph, path: seq<Id>, w: seq<Id>, i: nat)
    requires SingleSteps(steps) && path != [] && BackwardPath(steps, path) && Succ(steps, path[0]) == []
    requires Walk(steps, w) && w[0] == path[|path| - 1] && i < |w|
    ensures w[i] in path
  {
    if i > 0 {
      ReachedIsOnPath(steps, path, w, i - 1);
      var k :| 0 <= k < |path| && path[k] == w[i - 1];
      assert Edge(steps, w[i - 1], w[i]);
      OnlyStep(steps, w[i - 1], w[i]);
      assert k > 0 ==> Edge(steps, path[k], path[k - 1]);
    }
  }

  /** The path totals the largest finish exactly when every vertex that preferring the
      dependency that starts last leads to prefers one that also finishes last. */
  lemma CriticalIff(g: Graph, cost: Costs, order: seq<Id>, times: Times, path: seq<Id>)
    requires Scheduled(g, cost, order, times, path)
    ensures order != []
    ensures Total(cost, path) == Finish(times.finish, EndNode(order, times)) <==>
      forall v :: v in g && Reaches(Steps(g, times), EndNode(order, times), v) ==> PrefersLatest(g, times, v)
  {
    CriticalPathIsChain(g, cost, order, times, path);
    NoSlackIff(g, cost, order, times, path);
    StepsAreSingle(g, times);
    hide Timed, Enumerates, Steps, PrefersLatest, Chain, Slack, SingleSteps, NothingMissing, Reaches;
    if Slack(times, path) == 0 {
      PathPrefersLatest(g, times, path);
    } else {
      var k :| 1 <= k < |path| && !PrefersLatest(g, times, path[k]);
      PathIsReached(Steps(g, times), path, k);
    }
  }

  /** The walk comes to nothing but the vertices of the path. */
  lemma PathPrefersLatest(g: Graph, times: Times, path: seq<Id>)
    requires path != [] && BackwardPath(Steps(g, times), path) && path[0] in g && g[path[0]] == []
    requires forall k :: 1 <= k < |path| ==> path[k] in g && PrefersLatest(g, times, path[k])
    ensures forall v :: v in g && Reaches(Steps(g, times), path[|path| - 1], v) ==> PrefersLatest(g, times, v)
  {
    StepsAreSingle(g, times);
    assert Succ(Steps(g, times), path[0]) == [];
    SourcePrefersLatest(g, times, path[0]);
    hide Steps, PrefersLatest, SingleSteps, BackwardPath;
    forall v | v in g && Reaches(Steps(g, times), path[|path| - 1], v) ensures PrefersLatest(g, times, v) {
      var w :| WalkBetween(Steps(g, times), path[|path| - 1], v, w);
      ReachedIsOnPath(Steps(g, times), path, w, |w| - 1);
      var k :| 0 <= k < |path| && path[k] == v;
    }
  }

  lemma SourcePrefersLatest(g: Graph, times: Times, v: Id)
    requires v in g && g[v] == []
    ensures PrefersLatest(g, times, v)
  {
  }

  /** With equal timeouts that is always so: the path totals the largest finish. */
  lemma EqualTimeouts(g: Graph, cost: Costs, order: seq<Id>, times: Times, path: seq<Id>, c: nat)
    requires Scheduled(g, cost, order, times, path) && forall v :: v in g ==> cost[v] == c
    ensures order != [] && Total(cost, path) == Finish(times.finish, EndNode(order, times))
  {
    forall v | v in g ensures PrefersLatest(g, times, v) {
      if g[v] != [] {
        PreferredIsLatest(g[v], times);
        forall b | b in g[v] ensures Finish(times.finish, b) == Start(times, b) + c {
          assert Edge(g, v, b);
          FinishIsStartPlusCost(g, cost, order, times, b);
        }
      }
    }
    hide PrefersLatest, Scheduled, Steps;
    CriticalIff(g, cost, order, times, path);
  }
}
