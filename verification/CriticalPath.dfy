/** The critical path of packages/cli/src/core/collaboration/ExecutionGraph.ts (lines
    417-443): a walk back from the first vertex that finishes last, each time to the last
    of the dependencies that start last. */
module CriticalPath {
  import opened Sequences
  import opened Graphs
  import opened TopologicalOrder
  import opened EarliestTimes

  /** `d` is a dependency whose earliest start no other dependency exceeds. */
  ghost predicate LatestStarter(dependencies: seq<Id>, times: Times, d: Id) {
    d in dependencies && forall b :: b in dependencies ==> Start(times, b) <= Start(times, d)
  }

  /** The last one in the list of those that start last. */
  function Preferred(dependencies: seq<Id>, times: Times): Id
    requires dependencies != []
  {
    var n := |dependencies| - 1;
    if n == 0 then dependencies[0]
    else
      var p := Preferred(dependencies[..n], times);
      if Start(times, dependencies[n]) >= Start(times, p) then dependencies[n] else p
  }

  lemma {:induction false} PreferredIsLatest(dependencies: seq<Id>, times: Times)
    requires dependencies != []
    ensures LatestStarter(dependencies, times, Preferred(dependencies, times))
  {
    var n := |dependencies| - 1;
    assert forall b :: b in dependencies <==> b in dependencies[..n] || b == dependencies[n];
    if n > 0 {
      hide Start;
      PreferredIsLatest(dependencies[..n], times);
    }
  }

  /** Of several dependencies that start last the one listed last is taken. */
  lemma {:induction false} PreferredIsListedLast(dependencies: seq<Id>, times: Times) returns (i: nat)
    requires dependencies != []
    ensures i < |dependencies| && dependencies[i] == Preferred(dependencies, times)
    ensures forall j :: i < j < |dependencies| ==> Start(times, dependencies[j]) < Start(times, dependencies[i])
  {
    hide Start;
    var n := |dependencies| - 1;
    i := n;
    if n > 0 && Preferred(dependencies, times) != dependencies[n] {
      i := PreferredIsListedLast(dependencies[..n], times);
      forall j | i < j <= n ensures Start(times, dependencies[j]) < Start(times, dependencies[i]) {
        if j < n {
          assert dependencies[..n][j] == dependencies[j];
        }
      }
    }
  }

  /** "" when there is no dependency. */
  method PickPredecessor(dependencies: seq<Id>, times: Times) returns (predNodeId: Id)
    ensures predNodeId == if dependencies == [] then "" else Preferred(dependencies, times)
  {
    predNodeId := "";
    var maxPredStart: int := -1;
    for i := 0 to |dependencies|
      invariant i == 0 ==> predNodeId == "" && maxPredStart == -1
      invariant i > 0 ==> predNodeId == Preferred(dependencies[..i], times) && maxPredStart == Start(times, predNodeId)
    {
      assert dependencies[..i + 1][..i] == dependencies[..i];
      var predStart := Start(times, dependencies[i]);
      if predStart >= maxPredStart {
        maxPredStart, predNodeId := predStart, dependencies[i];
      }
    }
    assert dependencies[..|dependencies|] == dependencies;
  }

  /** One edge from each vertex, to where the walk back goes from it; none where it stops. */
  function Steps(g: Graph, times: Times): Graph {
    map v | v in g :: if g[v] == [] || Preferred(g[v], times) == "" then [] else [Preferred(g[v], times)]
  }

  predicate EndsWithin(steps: Graph, v: Id, n: nat)
    decreases n
  {
    Succ(steps, v) == [] || (n > 0 && EndsWithin(steps, Succ(steps, v)[0], n - 1))
  }

  /** The walk from `v` comes to a vertex where it stops. */
  ghost predicate WalkEnds(steps: Graph, v: Id) {
    exists n: nat :: EndsWithin(steps, v, n)
  }

  // ----- where the walk starts

  /** The first vertex of the order that finishes last. */
  function EndNode(order: seq<Id>, times: Times): (e: Id)
    requires order != []
    ensures e in order && forall v :: v in order ==> Finish(times.finish, v) <= Finish(times.finish, e)
    ensures forall v :: v in order[..FirstIndex(order, e)] ==> Finish(times.finish, v) < Finish(times.finish, e)
  {
    var n := |order| - 1;
    assert forall v :: v in order <==> v in order[..n] || v == order[n];
    if n == 0 then order[0]
    else
      var e, last := EndNode(order[..n], times), order[n];
      FirstIndexInPrefix(order, n);
      if Finish(times.finish, last) > Finish(times.finish, e) then
        assert last !in order[..n];
        last
      else e
  }

  lemma FirstIndexInPrefix(order: seq<Id>, n: nat)
    requires n <= |order|
    ensures forall v :: v in order[..n] ==>
      FirstIndex(order, v) == FirstIndex(order[..n], v)
      && order[..n][..FirstIndex(order[..n], v)] == order[..FirstIndex(order, v)]
    ensures n < |order| && order[n] !in order[..n] ==> order[..FirstIndex(order, order[n])] == order[..n]
  {
    forall v | v in order[..n] ensures FirstIndex(order, v) == FirstIndex(order[..n], v) {
      var i := FirstIndex(order[..n], v);
      assert order[..n][i] == order[i] && order[..n][..i] == order[..i];
      FirstIndexIsFirst(order, v, i);
    }
    forall v | v in order[..n] ensures order[..n][..FirstIndex(order[..n], v)] == order[..FirstIndex(order, v)] {
    }
    if n < |order| && order[n] !in order[..n] {
      FirstIndexIsFirst(order, order[n], n);
      forall k | 0 <= k < n ensures order[k] != order[n] {
        assert order[k] in order[..n];
      }
    }
  }

  lemma EndNodeIs(order: seq<Id>, times: Times, e: Id)
    requires order != [] && e in order
    requires forall v :: v in order ==> Finish(times.finish, v) <= Finish(times.finish, e)
    requires forall v :: v in order[..FirstIndex(order, e)] ==> Finish(times.finish, v) < Finish(times.finish, e)
    ensures e == EndNode(order, times)
  {
    hide Finish;
    var f := EndNode(order, times);
    var i, j := FirstIndex(order, e), FirstIndex(order, f);
    if i < j {
      InPrefix(order, e, j);
      assert false;
    } else if j < i {
      InPrefix(order, f, i);
      assert false;
    }
  }

  lemma InPrefix(order: seq<Id>, v: Id, n: nat)
    requires v in order && FirstIndex(order, v) < n <= |order|
    ensures v in order[..n]
  {
    assert order[..n][FirstIndex(order, v)] == v;
  }

  /** The largest earliest finish; -1 stands for the -Infinity of an empty graph. */
  method MaxFinish(order: seq<Id>, times: Times) returns (m: int)
    ensures order == [] ==> m == -1
    ensures order != [] ==> m == Finish(times.finish, EndNode(order, times))
  {
    m := -1;
    for i := 0 to |order|
      invariant i == 0 ==> m == -1
      invariant i > 0 ==> m == Finish(times.finish, EndNode(order[..i], times))
    {
      assert order[..i + 1][..i] == order[..i];
      var f := Finish(times.finish, order[i]);
      m := if f > m then f else m;
    }
    assert order[..|order|] == order;
  }

  /** The first vertex of the order with the given finish; "" when there is none. */
  method FirstWithFinish(order: seq<Id>, times: Times, f: int) returns (v: Id)
    requires "" !in order
    ensures v != "" ==> v in order && Finish(times.finish, v) == f
    ensures v != "" ==> forall u :: u in order[..FirstIndex(order, v)] ==> Finish(times.finish, u) != f
    ensures v == "" ==> forall u :: u in order ==> Finish(times.finish, u) != f
  {
    for i := 0 to |order|
      invariant forall u :: u in order[..i] ==> Finish(times.finish, u) != f
    {
      if Finish(times.finish, order[i]) == f {
        v := order[i];
        FirstIndexIsFirst(order, v, i);
        assert order[..FirstIndex(order, v)] <= order[..i];
        return;
      }
      assert order[..i + 1] == order[..i] + [order[i]];
    }
    assert order[..|order|] == order;
    v := "";
  }

  // ----- the walk

  /** Each vertex of the path is where the walk goes from the one after it. */
  ghost predicate BackwardPath(steps: Graph, path: seq<Id>) {
    forall i, j :: 0 <= i && j == i + 1 < |path| ==> Edge(steps, path[j], path[i])
  }

  /** The whole walk from the first vertex that finishes last, that vertex last. */
  ghost predicate WalkedBack(g: Graph, times: Times, order: seq<Id>, path: seq<Id>) {
    && (order == [] ==> path == [])
    && (order != [] ==>
          && path != [] && path[|path| - 1] == EndNode(order, times)
          && BackwardPath(Steps(g, times), path)
          && Succ(Steps(g, times), path[0]) == [])
  }

  lemma ExtendBackward(steps: Graph, path: seq<Id>, d: Id)
    requires BackwardPath(steps, path) && (path != [] ==> Edge(steps, path[0], d))
    ensures BackwardPath(steps, [d] + path)
  {
    var longer := [d] + path;
    forall i, j | 0 <= i && j == i + 1 < |longer| ensures Edge(steps, longer[j], longer[i]) {
      if i > 0 {
        assert longer[i] == path[i - 1] && longer[j] == path[j - 1];
      } else {
        assert longer[i] == d && longer[j] == path[0];
      }
    }
  }

  /** The walk from the first vertex that finishes last ends; see WalkTermination. */
  ghost predicate WalkBackEnds(g: Graph, cost: Costs, order: seq<Id>) {
    order != [] ==>
      var times := TimesFor(g, cost, order);
      WalkEnds(Steps(g, times), EndNode(order, times))
  }

  /** Any graph, cyclic or not, on which the walk of the source ends. */
  method FindCriticalPath(g: Graph, cost: Costs, order: seq<Id>) returns (path: seq<Id>)
    requires "" !in g && Enumerates(g, order) && WalkBackEnds(g, cost, order)
    ensures WalkedBack(g, TimesFor(g, cost, order), order, path)
  {
    hide TimesFor, Distinct, BackwardPath, EndsWithin, EndNode, Steps, Preferred, WalkEnds, Edge;
    assert forall v :: v in order ==> v in Elements(order);
    assert forall v :: v in order ==> v in g;
    hide Enumerates;
    var times := ComputeTimes(g, cost, order);
    ghost var steps := Steps(g, times);
    var currentNodeId := FindEndNode(order, times);
    ghost var end := currentNodeId;
    ghost var n: nat := 0;
    if order != [] {
      n := StepsLeft(steps, end);
    }
    path := [];
    EmptyPath(steps);
    while currentNodeId != ""
      invariant BackwardPath(steps, path) && (path != [] ==> path[|path| - 1] == end)
      invariant path == [] ==> currentNodeId == end
      invariant order == [] ==> path == [] && currentNodeId == ""
      invariant path != [] && currentNodeId != "" ==> Edge(steps, path[0], currentNodeId)
      invariant path != [] && currentNodeId == "" ==> Succ(steps, path[0]) == []
      invariant currentNodeId != "" ==> EndsWithin(steps, currentNodeId, n)
      decreases if currentNodeId == "" then 0 else n + 1
    {
      ExtendBackward(steps, path, currentNodeId);
      path := [currentNodeId] + path;
      if currentNodeId !in g {
        NoStep(g, times, currentNodeId);
        break;
      }
      var predNodeId := PickPredecessor(g[currentNodeId], times);
      n := StepOn(g, times, currentNodeId, n);
      currentNodeId := predNodeId;
    }
  }

  method FindEndNode(order: seq<Id>, times: Times) returns (v: Id)
    requires "" !in order
    ensures v == if order == [] then "" else EndNode(order, times)
  {
    var maxFinish := MaxFinish(order, times);
    v := FirstWithFinish(order, times, maxFinish);
    if order != [] {
      ghost var e := EndNode(order, times);
      assert v != "";
      assert forall u :: u in order[..FirstIndex(order, v)] ==> u in order;
      hide Finish;
      EndNodeIs(order, times, v);
    }
  }

  lemma StepsLeft(steps: Graph, v: Id) returns (n: nat)
    requires WalkEnds(steps, v)
    ensures EndsWithin(steps, v, n)
  {
    n :| EndsWithin(steps, v, n);
  }

  lemma NoStep(g: Graph, times: Times, v: Id)
    requires v !in g
    ensures Succ(Steps(g, times), v) == []
  {
  }

  lemma EmptyPath(steps: Graph)
    ensures BackwardPath(steps, [])
  {
  }

  /** One step of the walk, as the walk graph has it. */
  lemma StepOn(g: Graph, times: Times, v: Id, n: nat) returns (left: nat)
    requires v in g && EndsWithin(Steps(g, times), v, n)
    ensures var next := if g[v] == [] then "" else Preferred(g[v], times);
            var steps := Steps(g, times);
            if next == "" then Succ(steps, v) == []
            else Edge(steps, v, next) && n > 0 && left == n - 1 && EndsWithin(steps, next, left)
  {
    left := if n == 0 then 0 else n - 1;
  }

  /** A walk that ends can be listed. */
  lemma {:induction false} WalkListed(steps: Graph, v: Id, n: nat) returns (path: seq<Id>)
    requires EndsWithin(steps, v, n)
    ensures path != [] && path[|path| - 1] == v && BackwardPath(steps, path) && Succ(steps, path[0]) == []
    decreases n
  {
    if Succ(steps, v) == [] {
      path := [v];
    } else {
      var rest := WalkListed(steps, Succ(steps, v)[0], n - 1);
      path := rest + [v];
      forall i, j | 0 <= i && j == i + 1 < |path| ensures Edge(steps, path[j], path[i]) {
        if j < |rest| {
          assert Edge(steps, rest[j], rest[i]);
        }
      }
    }
  }
}
