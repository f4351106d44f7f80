/** The earliest times of packages/cli/src/core/collaboration/ExecutionGraph.ts (lines
    397-415): one pass along the order of any graph, cyclic or not. */
module EarliestTimes {
  import opened Sequences
  import opened Graphs
  import opened TopologicalOrder
  import opened PhaseSchedule

  /** Every vertex has a timeout. */
  type Costs = map<Id, nat>

  function Cost(cost: Costs, v: Id): nat {
    if v in cost then cost[v] else 0
  }

  function Total(cost: Costs, w: seq<Id>): nat {
    if w == [] then 0 else Cost(cost, w[0]) + Total(cost, w[1..])
  }

  /** The heaviest dependency chain from `v`, `v` included, totals `f`. */
  ghost predicate HeaviestChain(g: Graph, cost: Costs, v: Id, f: nat) {
    && (exists w :: Chain(g, v, w) && Total(cost, w) == f)
    && (forall w :: Chain(g, v, w) ==> Total(cost, w) <= f)
  }

  function Finish(finish: map<Id, nat>, v: Id): nat {
    if v in finish then finish[v] else 0
  }

  /** `t` is the largest finish of the dependencies, 0 when there is none. */
  ghost predicate StartAfter(dependencies: seq<Id>, finish: map<Id, nat>, t: nat) {
    && (forall b :: b in dependencies ==> Finish(finish, b) <= t)
    && (t > 0 ==> exists b :: b in dependencies && b in finish && finish[b] == t)
  }

  function LatestOf(dependencies: seq<Id>, finish: map<Id, nat>): (t: nat)
    ensures StartAfter(dependencies, finish, t)
  {
    if dependencies == [] then 0
    else
      var n := |dependencies| - 1;
      var earlier, f := LatestOf(dependencies[..n], finish), Finish(finish, dependencies[n]);
      assert forall b :: b in dependencies <==> b in dependencies[..n] || b == dependencies[n];
      if f > earlier then f else earlier
  }

  method LatestFinish(dependencies: seq<Id>, finish: map<Id, nat>) returns (t: nat)
    ensures t == LatestOf(dependencies, finish)
  {
    t := 0;
    for i := 0 to |dependencies|
      invariant t == LatestOf(dependencies[..i], finish)
    {
      assert dependencies[..i + 1][..i] == dependencies[..i];
      var f := Finish(finish, dependencies[i]);
      t := if f > t then f else t;
    }
    assert dependencies[..|dependencies|] == dependencies;
  }

  lemma FinishIsHeaviestChain(g: Graph, cost: Costs, v: Id, finish: map<Id, nat>, t: nat)
    requires v in g && finish.Keys <= g.Keys
    requires forall b :: Edge(g, v, b) && b in g ==> b in finish && HeaviestChain(g, cost, b, finish[b])
    requires StartAfter(g[v], finish, t)
    ensures HeaviestChain(g, cost, v, t + Cost(cost, v))
  {
    if t == 0 {
      assert Chain(g, v, [v]);
      assert Total(cost, [v]) == Cost(cost, v) + Total(cost, []);
    } else {
      var d :| d in g[v] && d in finish && finish[d] == t;
      assert Edge(g, v, d);
      var w :| Chain(g, d, w) && Total(cost, w) == t;
      ChainPrepend(g, v, d, w);
      assert ([v] + w)[1..] == w;
    }
    forall w | Chain(g, v, w) ensures Total(cost, w) <= t + Cost(cost, v) {
      if |w| > 1 {
        ChainTail(g, v, w);
        assert Finish(finish, w[1]) <= t;
      }
    }
  }

  datatype Times = Times(start: map<Id, nat>, finish: map<Id, nat>)

  function Start(times: Times, v: Id): nat {
    if v in times.start then times.start[v] else 0
  }

  /** The earliest times of the vertices in `placed`: each starts when the last of its
      dependencies finishes, and finishes with its heaviest chain. */
  ghost predicate Timed(g: Graph, cost: Costs, placed: seq<Id>, times: Times) {
    && times.start.Keys == times.finish.Keys == Elements(placed) <= g.Keys
    && (forall v {:trigger times.start[v]} :: v in times.start ==>
          && StartAfter(g[v], times.finish, times.start[v])
          && times.finish[v] == times.start[v] + Cost(cost, v))
    && (forall v {:trigger times.finish[v]} :: v in times.finish ==>
          HeaviestChain(g, cost, v, times.finish[v]))
  }

  /** The times after the first `i` vertices of the order. */
  function TimesUpTo(g: Graph, cost: Costs, order: seq<Id>, i: nat): Times
    requires i <= |order|
  {
    if i == 0 then Times(map[], map[])
    else
      var earlier, v := TimesUpTo(g, cost, order, i - 1), order[i - 1];
      var t := LatestOf(Succ(g, v), earlier.finish);
      Times(earlier.start[v := t], earlier.finish[v := t + Cost(cost, v)])
  }

  function TimesFor(g: Graph, cost: Costs, order: seq<Id>): Times {
    TimesUpTo(g, cost, order, |order|)
  }

  method ComputeTimes(g: Graph, cost: Costs, order: seq<Id>) returns (times: Times)
    requires Enumerates(g, order)
    ensures times == TimesFor(g, cost, order)
  {
    hide LatestOf, StartAfter, Enumerates;
    times := Times(map[], map[]);
    for i := 0 to |order|
      invariant times == TimesUpTo(g, cost, order, i)
    {
      var v := order[i];
      OrderedVertex(g, order, i);
      var t := LatestFinish(g[v], times.finish);
      times := Times(times.start[v := t], times.finish[v := t + Cost(cost, v)]);
    }
  }

  lemma StartStable(dependencies: seq<Id>, finish: map<Id, nat>, v: Id, f: nat, t: nat)
    requires StartAfter(dependencies, finish, t) && v !in dependencies
    ensures StartAfter(dependencies, finish[v := f], t)
  {
    if t > 0 {
      var b :| b in dependencies && b in finish && finish[b] == t;
      assert b in finish[v := f] && finish[v := f][b] == t;
    }
  }

  /** A vertex is not a dependency of anything the order has before it. */
  lemma NotYetNeeded(g: Graph, order: seq<Id>, i: nat, u: Id)
    requires Enumerates(g, order) && DependenciesFirst(g, order) && i < |order| && u in order[..i]
    ensures order[i] in g && order[i] !in Succ(g, u)
  {
    assert order[i] in Elements(order);
    var j :| 0 <= j < i && order[j] == u;
    assert order[i] !in order[..j];
  }

  lemma PlaceTimed(g: Graph, cost: Costs, order: seq<Id>, i: nat, times: Times, t: nat)
    requires Enumerates(g, order) && DependenciesFirst(g, order) && i < |order| && order[i] in g
    requires Timed(g, cost, order[..i], times) && StartAfter(g[order[i]], times.finish, t)
    ensures Timed(g, cost, order[..i + 1],
                  Times(times.start[order[i] := t], times.finish[order[i] := t + Cost(cost, order[i])]))
  {
    hide HeaviestChain, StartAfter, Distinct, DependenciesFirst, Enumerates, Cost;
    var v := order[i];
    OrderedPrefix(g, order, i);
    FinishIsHeaviestChain(g, cost, v, times.finish, t);
    forall u | u in Elements(order[..i]) || u == v ensures v !in Succ(g, u) {
      PlacedNeedsNot(g, order, i, u);
    }
    AddTimes(g, cost, order[..i], order[..i + 1], times, v, t);
  }

  lemma AddTimes(g: Graph, cost: Costs, placed: seq<Id>, longer: seq<Id>, times: Times, v: Id, t: nat)
    requires Timed(g, cost, placed, times) && v in g && Elements(longer) == Elements(placed) + {v}
    requires forall u :: u in Elements(placed) || u == v ==> v !in Succ(g, u)
    requires StartAfter(g[v], times.finish, t) && HeaviestChain(g, cost, v, t + Cost(cost, v))
    ensures Timed(g, cost, longer, Times(times.start[v := t], times.finish[v := t + Cost(cost, v)]))
  {
    hide HeaviestChain, StartAfter, Cost, Elements;
    var f := t + Cost(cost, v);
    forall u | u in times.start || u == v
      ensures StartAfter(g[u], times.finish[v := f], times.start[v := t][u])
    {
      StartStable(g[u], times.finish, v, f, times.start[v := t][u]);
    }
  }

  lemma PlacedNeedsNot(g: Graph, order: seq<Id>, i: nat, u: Id)
    requires Enumerates(g, order) && DependenciesFirst(g, order) && i < |order| && order[i] in g
    requires u in Elements(order[..i]) || u == order[i]
    ensures order[i] !in Succ(g, u)
  {
    if u == order[i] {
      NotOwnDependency(g, order, i);
    } else {
      NotYetNeeded(g, order, i, u);
    }
  }

  /** What the order says about its i-th vertex and the ones before it. */
  lemma OrderedPrefix(g: Graph, order: seq<Id>, i: nat)
    requires Enumerates(g, order) && DependenciesFirst(g, order) && i < |order|
    ensures Elements(order[..i + 1]) == Elements(order[..i]) + {order[i]}
    ensures order[i] !in Elements(order[..i])
    ensures forall b :: Edge(g, order[i], b) && b in g ==> b in Elements(order[..i])
  {
    PrefixElements(order, i);
  }

  lemma NotOwnDependency(g: Graph, order: seq<Id>, i: nat)
    requires Enumerates(g, order) && DependenciesFirst(g, order) && i < |order| && order[i] in g
    ensures order[i] !in g[order[i]]
  {
    assert order[i] !in order[..i];
  }

  /** What has no finish yet does not delay the start: only settled dependencies count. */
  lemma StartSettled(g: Graph, order: seq<Id>, i: nat, finish: map<Id, nat>, t: nat)
    requires Enumerates(g, order) && i < |order| && order[i] in g && finish.Keys == Elements(order[..i])
    requires StartAfter(g[order[i]], finish, t)
    ensures order[i] in Settled(g, order) && StartAfter(Settled(g, order)[order[i]], finish, t)
  {
    var v := order[i];
    FirstIndexIsFirst(order, v, i);
    assert order[..FirstIndex(order, v)] == order[..i];
    forall b ensures b in Settled(g, order)[v] <==> b in g[v] && b in order[..i] {
      KeepInMembers(g[v], order[..i], b);
    }
    if t > 0 {
      var b :| b in g[v] && b in finish && finish[b] == t;
      assert b in Elements(order[..i]);
    }
  }

  /** The pass computes the earliest times of the settled graph. */
  lemma {:induction false} TimesAreTimed(g: Graph, cost: Costs, order: seq<Id>, i: nat)
    requires Enumerates(g, order) && i <= |order|
    ensures Timed(Settled(g, order), cost, order[..i], TimesUpTo(g, cost, order, i))
  {
    if i > 0 {
      TimesAreTimed(g, cost, order, i - 1);
      TimesStep(g, cost, order, i - 1);
    }
  }

  lemma TimesStep(g: Graph, cost: Costs, order: seq<Id>, i: nat)
    requires Enumerates(g, order) && i < |order|
    requires Timed(Settled(g, order), cost, order[..i], TimesUpTo(g, cost, order, i))
    ensures Timed(Settled(g, order), cost, order[..i + 1], TimesUpTo(g, cost, order, i + 1))
  {
    hide Timed, Settled, StartAfter, LatestOf, Enumerates, DependenciesFirst, Cost;
    OrderedVertex(g, order, i);
    var times, v := TimesUpTo(g, cost, order, i), order[i];
    SettledStep(g, cost, order, i, times, LatestOf(g[v], times.finish));
  }

  lemma SettledStep(g: Graph, cost: Costs, order: seq<Id>, i: nat, times: Times, t: nat)
    requires Enumerates(g, order) && i < |order| && order[i] in g
    requires Timed(Settled(g, order), cost, order[..i], times) && StartAfter(g[order[i]], times.finish, t)
    ensures Timed(Settled(g, order), cost, order[..i + 1],
                  Times(times.start[order[i] := t], times.finish[order[i] := t + Cost(cost, order[i])]))
  {
    hide Timed, Settled, StartAfter, NothingMissing, Acyclic, Enumerates, DependenciesFirst;
    SettledFits(g, order);
    TimedKeys(Settled(g, order), cost, order[..i], times);
    StartSettled(g, order, i, times.finish, t);
    PlaceTimed(Settled(g, order), cost, order, i, times, t);
  }

  lemma TimedKeys(g: Graph, cost: Costs, placed: seq<Id>, times: Times)
    requires Timed(g, cost, placed, times)
    ensures times.start.Keys == times.finish.Keys == Elements(placed) <= g.Keys
  {
  }

  lemma SettledHeaviest(g: Graph, cost: Costs, order: seq<Id>, v: Id, f: nat)
    requires Enumerates(g, order) && DependenciesFirst(g, order)
    ensures HeaviestChain(Settled(g, order), cost, v, f) <==> HeaviestChain(g, cost, v, f)
  {
    hide Chain, Settled, Enumerates, DependenciesFirst, Total;
    forall w ensures Chain(Settled(g, order), v, w) <==> Chain(g, v, w) {
      SettledChain(g, order, v, w);
    }
  }

  /** On an acyclic graph these are the earliest times of the graph. */
  lemma AcyclicTimes(g: Graph, cost: Costs, order: seq<Id>)
    requires Enumerates(g, order) && DependenciesFirst(g, order)
    ensures Timed(g, cost, order, TimesFor(g, cost, order))
  {
    var times := TimesFor(g, cost, order);
    TimesAreTimed(g, cost, order, |order|);
    assert order[..|order|] == order;
    hide TimesFor;
    SettledTimed(g, cost, order, times);
  }

  lemma SettledTimed(g: Graph, cost: Costs, order: seq<Id>, times: Times)
    requires Enumerates(g, order) && DependenciesFirst(g, order)
    requires Timed(Settled(g, order), cost, order, times)
    ensures Timed(g, cost, order, times)
  {
    SettledKeys(g, order);
    hide Settled, StartAfter, HeaviestChain, Enumerates, DependenciesFirst;
    assert Elements(order) == g.Keys by { KeysOf(g, order); }
    forall v | v in times.start ensures StartAfter(g[v], times.finish, times.start[v]) {
      StartOfWhole(g, order, v, times.finish, times.start[v]);
    }
    forall v | v in times.finish ensures HeaviestChain(g, cost, v, times.finish[v]) {
      SettledHeaviest(g, cost, order, v, times.finish[v]);
    }
  }

  lemma KeysOf(g: Graph, order: seq<Id>)
    requires Enumerates(g, order)
    ensures Elements(order) == g.Keys
  {
  }

  lemma StartOfWhole(g: Graph, order: seq<Id>, v: Id, finish: map<Id, nat>, t: nat)
    requires Enumerates(g, order) && DependenciesFirst(g, order) && v in g && finish.Keys == g.Keys
    requires v in Settled(g, order) && StartAfter(Settled(g, order)[v], finish, t)
    ensures StartAfter(g[v], finish, t)
  {
    hide Settled, Enumerates, DependenciesFirst;
    forall b | b in g[v] ensures Finish(finish, b) <= t {
      SettledKeeps(g, order, v, b);
    }
    if t > 0 {
      var b :| b in Settled(g, order)[v] && b in finish && finish[b] == t;
      SettledKeeps(g, order, v, b);
    }
  }

  lemma TimedVertex(g: Graph, cost: Costs, order: seq<Id>, times: Times, v: Id)
    requires Timed(g, cost, order, times) && Enumerates(g, order) && v in g
    ensures v in times.start && v in times.finish
    ensures StartAfter(g[v], times.finish, times.start[v])
    ensures times.finish[v] == times.start[v] + Cost(cost, v)
    ensures HeaviestChain(g, cost, v, times.finish[v])
  {
    assert v in Elements(order);
  }

  lemma FinishIsStartPlusCost(g: Graph, cost: Costs, order: seq<Id>, times: Times, v: Id)
    requires Timed(g, cost, order, times) && Elements(order) == g.Keys == cost.Keys
    ensures Finish(times.finish, v) == Start(times, v) + Cost(cost, v)
  {
    if v in times.start {
      assert times.finish[v] == times.start[v] + Cost(cost, v);
    }
  }
}
