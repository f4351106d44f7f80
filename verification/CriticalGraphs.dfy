/** The graphs on which the path of findCriticalPath is the heaviest dependency chain
    whatever the timeouts (packages/cli/src/core/collaboration/ExecutionGraph.ts, lines
    397-443). */
module CriticalGraphs {
  import opened Sequences
  import opened Graphs
  import opened TopologicalOrder
  import opened PhaseSchedule
  import opened EarliestTimes
  import opened CriticalPath
  import opened WalkTermination
  import opened CriticalConditions

  ghost predicate ReachesAll(g: Graph, m: Id, ids: seq<Id>) {
    forall c :: c in ids ==> Reaches(g, m, c)
  }

  /** One of the dependencies depends, directly or not, on all the others. */
  ghost predicate Dominated(g: Graph, v: Id)
    requires v in g
  {
    g[v] == [] || exists m {:trigger ReachesAll(g, m, g[v])} :: m in g[v] && ReachesAll(g, m, g[v])
  }

  /** A nonempty acyclic graph with nothing missing, and a topological order of it. */
  ghost predicate Complete(g: Graph, order: seq<Id>) {
    && NothingMissing(g) && "" !in g && g.Keys != {}
    && Enumerates(g, order) && DependenciesFirst(g, order)
  }

  predicate Positive(g: Graph, cost: Costs) {
    cost.Keys == g.Keys && forall v :: v in cost ==> cost[v] > 0
  }

  /** The path that the walk back gives totals the largest finish. */
  ghost predicate IsCritical(g: Graph, cost: Costs, order: seq<Id>)
    requires order != []
  {
    var times := TimesFor(g, cost, order);
    forall path :: WalkedBack(g, times, order, path) ==>
      Total(cost, path) == Finish(times.finish, EndNode(order, times))
  }

  /** No vertex that the walk back comes to prefers a dependency that does not finish last. */
  ghost predicate PrefersLatestThroughout(g: Graph, times: Times, e: Id) {
    forall v :: v in g && Reaches(Steps(g, times), e, v) ==> PrefersLatest(g, times, v)
  }

  // ----- reachability

  lemma {:induction false} WalkThenReaches(g: Graph, w: seq<Id>, c: Id)
    requires Walk(g, w) && Reaches(g, w[|w| - 1], c)
    ensures Reaches(g, w[0], c)
    decreases |w|
  {
    if |w| > 1 {
      WalkSlice(g, w, 1, |w|);
      WalkThenReaches(g, w[1..], c);
      StepThenReaches(g, w[0], w[1], c);
    }
  }

  lemma ReachesFurther(g: Graph, a: Id, b: Id, c: Id)
    requires Reaches(g, a, b) && Reaches(g, b, c)
    ensures Reaches(g, a, c)
  {
    var w :| WalkBetween(g, a, b, w);
    WalkThenReaches(g, w, c);
  }

  /** Unless it ends where it starts a walk has a first step. */
  lemma FirstStep(g: Graph, a: Id, c: Id) returns (b: Id)
    requires Reaches(g, a, c) && a != c
    ensures Edge(g, a, b) && Reaches(g, b, c)
  {
    var w :| WalkBetween(g, a, c, w);
    b := w[1];
    assert Edge(g, w[0], w[1]);
    WalkSlice(g, w, 1, |w|);
    assert WalkBetween(g, b, c, w[1..|w|]);
  }

  /** What is reached comes no later in the order. */
  lemma {:induction false} ReachedIsEarlier(g: Graph, order: seq<Id>, w: seq<Id>)
    requires Complete(g, order) && Walk(g, w) && w[0] in g
    ensures w[|w| - 1] in g && FirstIndex(order, w[|w| - 1]) <= FirstIndex(order, w[0])
    decreases |w|
  {
    if |w| > 1 {
      assert Edge(g, w[0], w[1]);
      assert w[0] in Elements(order);
      EarlierDependency(g, order, w[0], w[1]);
      WalkSlice(g, w, 1, |w|);
      hide Complete, Walk;
      ReachedIsEarlier(g, order, w[1..]);
    }
  }

  lemma ReachesEarlier(g: Graph, order: seq<Id>, a: Id, b: Id)
    requires Complete(g, order) && a in g && Reaches(g, a, b)
    ensures b in g && FirstIndex(order, b) <= FirstIndex(order, a)
  {
    var w :| WalkBetween(g, a, b, w);
    ReachedIsEarlier(g, order, w);
  }

  lemma EdgeEarlier(g: Graph, order: seq<Id>, a: Id, b: Id)
    requires Complete(g, order) && Edge(g, a, b)
    ensures a in g && b in g && FirstIndex(order, b) < FirstIndex(order, a)
  {
    assert a in Elements(order);
    EarlierDependency(g, order, a, b);
  }

  lemma NoWayBack(g: Graph, order: seq<Id>, a: Id, b: Id)
    requires Complete(g, order) && Edge(g, a, b)
    ensures !Reaches(g, b, a)
  {
    EdgeEarlier(g, order, a, b);
    hide Complete;
    if Reaches(g, b, a) {
      ReachesEarlier(g, order, b, a);
    }
  }

  // ----- times

  lemma CompleteTimes(g: Graph, cost: Costs, order: seq<Id>, v: Id)
    requires Complete(g, order) && cost.Keys == g.Keys && v in g
    ensures var times := TimesFor(g, cost, order);
            && v in times.start && v in times.finish && StartAfter(g[v], times.finish, times.start[v])
            && times.finish[v] == times.start[v] + cost[v] && HeaviestChain(g, cost, v, times.finish[v])
  {
    AcyclicTimes(g, cost, order);
    TimedVertex(g, cost, order, TimesFor(g, cost, order), v);
  }

  lemma DependencyFinishes(g: Graph, cost: Costs, order: seq<Id>, a: Id, b: Id)
    requires Complete(g, order) && cost.Keys == g.Keys && Edge(g, a, b)
    ensures var times := TimesFor(g, cost, order);
            Finish(times.finish, b) <= Start(times, a) <= Finish(times.finish, a)
  {
    CompleteTimes(g, cost, order, a);
  }

  lemma {:induction false} ReachedFinishes(g: Graph, cost: Costs, order: seq<Id>, w: seq<Id>)
    requires Complete(g, order) && cost.Keys == g.Keys && Walk(g, w)
    ensures var finish := TimesFor(g, cost, order).finish; Finish(finish, w[|w| - 1]) <= Finish(finish, w[0])
    decreases |w|
  {
    hide Complete, TimesFor;
    if |w| > 1 {
      assert Edge(g, w[0], w[1]);
      DependencyFinishes(g, cost, order, w[0], w[1]);
      WalkSlice(g, w, 1, |w|);
      hide Walk;
      ReachedFinishes(g, cost, order, w[1..]);
    }
  }

  lemma ReachesFinishes(g: Graph, cost: Costs, order: seq<Id>, a: Id, b: Id)
    requires Complete(g, order) && cost.Keys == g.Keys && Reaches(g, a, b)
    ensures var finish := TimesFor(g, cost, order).finish; Finish(finish, b) <= Finish(finish, a)
  {
    var w :| WalkBetween(g, a, b, w);
    hide Complete, TimesFor;
    ReachedFinishes(g, cost, order, w);
  }

  lemma ReachesBeforeStart(g: Graph, cost: Costs, order: seq<Id>, a: Id, b: Id)
    requires Complete(g, order) && cost.Keys == g.Keys && Reaches(g, a, b) && a != b
    ensures var times := TimesFor(g, cost, order); Finish(times.finish, b) <= Start(times, a)
  {
    hide Complete, TimesFor;
    var d := FirstStep(g, a, b);
    DependencyFinishes(g, cost, order, a, d);
    ReachesFinishes(g, cost, order, d, b);
  }

  /** There is a path, so that to be critical is a matter of where the walk back comes to. */
  lemma IsCriticalIff(g: Graph, cost: Costs, order: seq<Id>)
    requires Complete(g, order) && cost.Keys == g.Keys
    ensures order != []
    ensures var times := TimesFor(g, cost, order);
            IsCritical(g, cost, order) <==> PrefersLatestThroughout(g, times, EndNode(order, times))
  {
    hide TimesFor, Steps, EndsWithin, PrefersLatest;
    var u :| u in g;
    assert u in Elements(order);
    var times := TimesFor(g, cost, order);
    var steps, e := Steps(g, times), EndNode(order, times);
    AcyclicTimes(g, cost, order);
    OrderProvesAcyclic(g, order);
    AcyclicWalkEnds(g, times, e);
    var n :| EndsWithin(steps, e, n);
    var path := WalkListed(steps, e, n);
    assert WalkedBack(g, times, order, path);
    hide Timed, Enumerates, WalkedBack, Reaches;
    forall p | WalkedBack(g, times, order, p)
      ensures Total(cost, p) == Finish(times.finish, e) <==> PrefersLatestThroughout(g, times, e)
    {
      CriticalIff(g, cost, order, times, p);
    }
  }

  // ----- dominated vertices prefer what finishes last

  lemma DominatedPrefersLatest(g: Graph, cost: Costs, order: seq<Id>, v: Id)
    requires Complete(g, order) && Positive(g, cost) && v in g && Dominated(g, v)
    ensures PrefersLatest(g, TimesFor(g, cost, order), v)
  {
    var times := TimesFor(g, cost, order);
    hide TimesFor, Complete;
    if g[v] != [] {
      var m :| m in g[v] && ReachesAll(g, m, g[v]);
      PreferredIsLatest(g[v], times);
      forall c | c in g[v]
        ensures Finish(times.finish, c) <= Finish(times.finish, m) && (c != m ==> Start(times, c) < Start(times, m))
      {
        assert Reaches(g, m, c);
        EdgeEarlier(g, order, v, c);
        ReachesFinishes(g, cost, order, m, c);
        if c != m {
          ReachesBeforeStart(g, cost, order, m, c);
        }
        CompleteTimes(g, cost, order, c);
      }
      assert Preferred(g[v], times) == m;
    }
  }

  // ----- timeouts for which any other vertex misses what finishes last

  /** Long timeouts for two vertices, the same short one for all others. */
  function Skewed(g: Graph, x: Id, v: Id, k: nat, unit: nat): Costs {
    map u | u in g :: if u == v then 2 * k else if u == x then k else unit
  }

  function Units(g: Graph, unit: nat): Costs {
    map u | u in g :: unit
  }

  lemma {:induction false} SkewedTotal(g: Graph, x: Id, v: Id, k: nat, unit: nat, w: seq<Id>)
    requires Distinct(w) && Elements(w) <= g.Keys && v !in w && unit <= 1
    ensures Total(Skewed(g, x, v, k, unit), w) <= |w| + k
    ensures x !in w ==> Total(Skewed(g, x, v, k, unit), w) == Total(Units(g, unit), w) <= |w|
  {
    if w != [] {
      assert w[0] in Elements(w) && Elements(w[1..]) <= Elements(w);
      assert forall u :: u in w <==> u == w[0] || u in w[1..];
      SkewedTotal(g, x, v, k, unit, w[1..]);
    }
  }

  lemma WalkIsDistinct(g: Graph, w: seq<Id>)
    requires Acyclic(g) && Walk(g, w)
    ensures Distinct(w)
  {
    forall i, j | 0 <= i < j < |w| ensures w[i] != w[j] {
      WalkSlice(g, w, i, j + 1);
      assert !ClosedWalk(g, w[i..j + 1]);
    }
  }

  lemma WalkReaches(g: Graph, w: seq<Id>, u: Id)
    requires Walk(g, w) && u in w
    ensures Reaches(g, w[0], u)
  {
    var i :| 0 <= i < |w| && w[i] == u;
    WalkSlice(g, w, 0, i + 1);
    assert WalkBetween(g, w[0], u, w[0..i + 1]);
  }

  lemma ChainIsShort(g: Graph, order: seq<Id>, v: Id, w: seq<Id>)
    requires Complete(g, order) && Chain(g, v, w)
    ensures Distinct(w) && Elements(w) <= g.Keys && |w| <= |order|
    ensures forall u :: u in w ==> Reaches(g, v, u)
  {
    OrderProvesAcyclic(g, order);
    WalkIsDistinct(g, w);
    DistinctCardinality(w);
    DistinctCardinality(order);
    hide Distinct, NothingMissing, DependenciesFirst, Walk, Acyclic, Reaches;
    SubsetCardinality(Elements(w), g.Keys);
    forall u | u in w ensures Reaches(g, v, u) {
      WalkReaches(g, w, u);
    }
  }

  /** What does not depend on the two is as early as with the least timeouts. */
  lemma LightFinish(g: Graph, order: seq<Id>, x: Id, v: Id, k: nat, unit: nat, b: Id)
    requires Complete(g, order) && b in g && !Reaches(g, b, x) && !Reaches(g, b, v) && unit <= 1
    ensures Finish(TimesFor(g, Skewed(g, x, v, k, unit), order).finish, b) ==
      Finish(TimesFor(g, Units(g, unit), order).finish, b)
    ensures Finish(TimesFor(g, Units(g, unit), order).finish, b) <= |order|
  {
    hide TimesFor, Complete, StartAfter, Reaches, Chain, Total;
    var skewed, units := Skewed(g, x, v, k, unit), Units(g, unit);
    CompleteTimes(g, skewed, order, b);
    CompleteTimes(g, units, order, b);
    forall w | Chain(g, b, w) ensures Total(skewed, w) == Total(units, w) <= |order| {
      ChainIsShort(g, order, b, w);
      SkewedTotal(g, x, v, k, unit, w);
    }
  }

  /** What takes long depends on the vertex with the longest timeout. */
  lemma HeavyReaches(g: Graph, order: seq<Id>, x: Id, v: Id, k: nat, unit: nat, b: Id)
    requires Complete(g, order) && b in g && k > |order| && unit <= 1
    requires Finish(TimesFor(g, Skewed(g, x, v, k, unit), order).finish, b) >= 2 * k
    ensures Reaches(g, b, v)
  {
    hide TimesFor, Complete, StartAfter, Reaches, Chain, Total;
    var skewed := Skewed(g, x, v, k, unit);
    CompleteTimes(g, skewed, order, b);
    var w :| Chain(g, b, w) && Total(skewed, w) >= 2 * k;
    ChainIsShort(g, order, b, w);
    if v !in w {
      SkewedTotal(g, x, v, k, unit, w);
    }
  }

  lemma StartDetermined(dependencies: seq<Id>, f1: map<Id, nat>, f2: map<Id, nat>, t1: nat, t2: nat)
    requires StartAfter(dependencies, f1, t1) && StartAfter(dependencies, f2, t2)
    requires forall b :: b in dependencies ==> Finish(f1, b) == Finish(f2, b)
    ensures t1 == t2
  {
  }

  lemma LightStart(g: Graph, order: seq<Id>, x: Id, v: Id, k: nat, unit: nat, y: Id)
    requires Complete(g, order) && y in g && unit <= 1
    requires forall b :: b in g[y] ==> !Reaches(g, b, x) && !Reaches(g, b, v)
    ensures Start(TimesFor(g, Skewed(g, x, v, k, unit), order), y) == Start(TimesFor(g, Units(g, unit), order), y)
  {
    hide TimesFor, Complete, StartAfter, HeaviestChain, Finish;
    var skewed, units := Skewed(g, x, v, k, unit), Units(g, unit);
    CompleteTimes(g, skewed, order, y);
    CompleteTimes(g, units, order, y);
    var heavy, light := TimesFor(g, skewed, order), TimesFor(g, units, order);
    forall b | b in g[y] ensures Finish(heavy.finish, b) == Finish(light.finish, b) {
      EdgeEarlier(g, order, y, b);
      LightFinish(g, order, x, v, k, unit, b);
    }
    StartDetermined(g[y], heavy.finish, light.finish, heavy.start[y], light.start[y]);
  }

  lemma {:induction false} PreferredAlike(ids: seq<Id>, s: Times, t: Times)
    requires ids != [] && forall b :: b in ids ==> Start(s, b) == Start(t, b)
    ensures Preferred(ids, s) == Preferred(ids, t)
  {
    hide Start;
    if |ids| > 1 {
      var n := |ids| - 1;
      assert forall b :: b in ids[..n] ==> b in ids;
      PreferredAlike(ids[..n], s, t);
      PreferredIsLatest(ids[..n], s);
    }
  }

  /** Of the vertices that `p` does not reach, the last in the order. */
  lemma {:induction false} LastUnreached(g: Graph, order: seq<Id>, ids: seq<Id>, p: Id) returns (x: Id)
    requires !ReachesAll(g, p, ids)
    ensures x in ids && !Reaches(g, p, x)
    ensures forall c :: c in ids && !Reaches(g, p, c) ==> FirstIndex(order, c) <= FirstIndex(order, x)
  {
    hide Reaches;
    assert ids != [];
    var n := |ids| - 1;
    assert forall c :: c in ids <==> c in ids[..n] || c == ids[n];
    if ReachesAll(g, p, ids[..n]) {
      x := ids[n];
    } else {
      x := LastUnreached(g, order, ids[..n], p);
      if !Reaches(g, p, ids[n]) && FirstIndex(order, ids[n]) > FirstIndex(order, x) {
        x := ids[n];
      }
    }
  }

  /** No dependency of `v` waits for that vertex. */
  lemma NothingWaits(g: Graph, order: seq<Id>, v: Id, p: Id, x: Id, y: Id, b: Id)
    requires Complete(g, order) && v in g && y in g[v] && Edge(g, y, b)
    requires !Reaches(g, p, x)
    requires forall c :: c in g[v] && !Reaches(g, p, c) ==> FirstIndex(order, c) <= FirstIndex(order, x)
    ensures !Reaches(g, b, x) && !Reaches(g, b, v)
  {
    hide Complete, Reaches;
    assert Edge(g, v, y);
    EdgeEarlier(g, order, v, y);
    EdgeEarlier(g, order, y, b);
    if Reaches(g, b, v) {
      ReachesEarlier(g, order, b, v);
    }
    if Reaches(g, b, x) {
      ReachesEarlier(g, order, b, x);
      StepThenReaches(g, y, b, x);
      if Reaches(g, p, y) {
        ReachesFurther(g, p, y, x);
      }
    }
  }

  lemma SkewedPreference(g: Graph, order: seq<Id>, v: Id, k: nat, unit: nat) returns (x: Id)
    requires Complete(g, order) && v in g && g[v] != [] && k > |order| && unit <= 1
    requires !ReachesAll(g, Preferred(g[v], TimesFor(g, Units(g, unit), order)), g[v])
    ensures x in g[v] && x in g && x != v
    ensures !PrefersLatest(g, TimesFor(g, Skewed(g, x, v, k, unit), order), v)
  {
    hide Complete, TimesFor, Reaches;
    var light := TimesFor(g, Units(g, unit), order);
    var p := Preferred(g[v], light);
    PreferredIsLatest(g[v], light);
    assert Edge(g, v, p);
    x := LastUnreached(g, order, g[v], p);
    assert Edge(g, v, x);
    EdgeEarlier(g, order, v, p);
    EdgeEarlier(g, order, v, x);
    var heavy := TimesFor(g, Skewed(g, x, v, k, unit), order);
    forall y | y in g[v] ensures Start(heavy, y) == Start(light, y) {
      assert Edge(g, v, y);
      EdgeEarlier(g, order, v, y);
      forall b | b in g[y] ensures !Reaches(g, b, x) && !Reaches(g, b, v) {
        assert Edge(g, y, b);
        NothingWaits(g, order, v, p, x, y, b);
      }
      LightStart(g, order, x, v, k, unit, y);
    }
    hide Start;
    PreferredAlike(g[v], heavy, light);
    NoWayBack(g, order, v, p);
    LightFinish(g, order, x, v, k, unit, p);
    CompleteTimes(g, Skewed(g, x, v, k, unit), order, x);
  }

  /** While it prefers what finishes last, the walk comes to the vertex with the longest timeout. */
  lemma {:induction false} WalkComesTo(g: Graph, order: seq<Id>, x: Id, v: Id, k: nat, unit: nat, u: Id)
    requires Complete(g, order) && v in g && u in g && k > |order| && unit <= 1
    requires var times := TimesFor(g, Skewed(g, x, v, k, unit), order);
             Finish(times.finish, u) >= 2 * k && PrefersLatestThroughout(g, times, u)
    ensures Reaches(Steps(g, TimesFor(g, Skewed(g, x, v, k, unit), order)), u, v)
    decreases FirstIndex(order, u)
  {
    hide Complete, TimesFor, Finish, Reaches;
    var times := TimesFor(g, Skewed(g, x, v, k, unit), order);
    var steps := Steps(g, times);
    ReachesItself(steps, u);
    if u != v {
      HeavyReaches(g, order, x, v, k, unit, u);
      var s := FirstStep(g, u, v);
      LongestFinishes(g, order, x, v, k, unit, s);
      PreferredIsLatest(g[u], times);
      var d := Preferred(g[u], times);
      assert PrefersLatest(g, times, u);
      assert Edge(g, u, d);
      EdgeEarlier(g, order, u, d);
      StepsToPreferred(g, order, times, u);
      GoesOnPreferring(g, times, u, d);
      WalkComesTo(g, order, x, v, k, unit, d);
      StepThenReaches(steps, u, d, v);
    }
  }

  lemma LongestFinishes(g: Graph, order: seq<Id>, x: Id, v: Id, k: nat, unit: nat, s: Id)
    requires Complete(g, order) && v in g && Reaches(g, s, v)
    ensures Finish(TimesFor(g, Skewed(g, x, v, k, unit), order).finish, s) >= 2 * k
  {
    hide Complete, TimesFor;
    var skewed := Skewed(g, x, v, k, unit);
    CompleteTimes(g, skewed, order, v);
    ReachesFinishes(g, skewed, order, s, v);
  }

  lemma StepsToPreferred(g: Graph, order: seq<Id>, times: Times, u: Id)
    requires Complete(g, order) && u in g && g[u] != []
    ensures Edge(Steps(g, times), u, Preferred(g[u], times))
  {
    StopsAtSource(g, times, u);
  }

  lemma GoesOnPreferring(g: Graph, times: Times, u: Id, d: Id)
    requires PrefersLatestThroughout(g, times, u) && Edge(Steps(g, times), u, d)
    ensures PrefersLatestThroughout(g, times, d)
  {
    hide PrefersLatest, Steps, Reaches;
    var steps := Steps(g, times);
    forall v | v in g && Reaches(steps, d, v) ensures PrefersLatest(g, times, v) {
      StepThenReaches(steps, u, d, v);
    }
  }

  /** When with equal short timeouts a vertex prefers a dependency that does not depend on
      all the others, there are timeouts for which the path falls short. */
  lemma FallsShort(g: Graph, order: seq<Id>, v: Id, unit: nat) returns (cost: Costs)
    requires Complete(g, order) && v in g && g[v] != [] && unit <= 1
    requires !ReachesAll(g, Preferred(g[v], TimesFor(g, Units(g, unit), order)), g[v])
    ensures order != [] && cost.Keys == g.Keys && !IsCritical(g, cost, order)
    ensures unit > 0 ==> Positive(g, cost)
  {
    hide Complete, TimesFor, Reaches, PrefersLatest, ReachesAll, IsCritical, Finish, Steps;
    var k := |order| + 1;
    var x := SkewedPreference(g, order, v, k, unit);
    cost := Skewed(g, x, v, k, unit);
    IsCriticalIff(g, cost, order);
    var times := TimesFor(g, cost, order);
    var e := EndNode(order, times);
    if PrefersLatestThroughout(g, times, e) {
      InOrder(g, order, v);
      InOrder(g, order, e);
      ReachesItself(g, v);
      LongestFinishes(g, order, x, v, k, unit, v);
      WalkComesTo(g, order, x, v, k, unit, e);
    }
  }

  lemma InOrder(g: Graph, order: seq<Id>, v: Id)
    requires Complete(g, order)
    ensures v in order <==> v in g
  {
    assert v in order <==> v in Elements(order);
  }

  /** The path is the heaviest chain whatever the positive timeouts exactly when at every
      vertex one of the dependencies depends on all the others. */
  lemma AlwaysCriticalIff(g: Graph, order: seq<Id>)
    requires Complete(g, order)
    ensures order != []
    ensures (forall cost :: Positive(g, cost) ==> IsCritical(g, cost, order))
            <==> (forall v :: v in g ==> Dominated(g, v))
  {
    hide IsCritical, Positive, ReachesAll, TimesFor;
    IsCriticalIff(g, Units(g, 1), order);
    if forall v :: v in g ==> Dominated(g, v) {
      forall cost | Positive(g, cost) ensures IsCritical(g, cost, order) {
        DominatedIsCritical(g, cost, order);
      }
    } else {
      var v :| v in g && !Dominated(g, v);
      PreferredIsLatest(g[v], TimesFor(g, Units(g, 1), order));
      var cost := FallsShort(g, order, v, 1);
    }
  }

  lemma DominatedIsCritical(g: Graph, cost: Costs, order: seq<Id>)
    requires Complete(g, order) && Positive(g, cost) && forall v :: v in g ==> Dominated(g, v)
    ensures order != [] && IsCritical(g, cost, order)
  {
    hide Complete, TimesFor, Dominated, PrefersLatest, IsCritical, Reaches, Steps;
    IsCriticalIff(g, cost, order);
    forall v | v in g ensures PrefersLatest(g, TimesFor(g, cost, order), v) {
      DominatedPrefersLatest(g, cost, order, v);
    }
  }

  // ----- timeouts of zero

  /** The dependency listed last depends on all the others. */
  ghost predicate LastDominates(g: Graph, v: Id)
    requires v in g
  {
    g[v] == [] || ReachesAll(g, g[v][|g[v]| - 1], g[v])
  }

  lemma {:induction false} PreferredIsLast(ids: seq<Id>, times: Times)
    requires ids != [] && forall b :: b in ids ==> Start(times, b) <= Start(times, ids[|ids| - 1])
    ensures Preferred(ids, times) == ids[|ids| - 1]
  {
    if |ids| > 1 {
      var n := |ids| - 1;
      PreferredIsLatest(ids[..n], times);
      assert Preferred(ids[..n], times) in ids;
    }
  }

  lemma LastDominatesPrefersLatest(g: Graph, cost: Costs, order: seq<Id>, v: Id)
    requires Complete(g, order) && cost.Keys == g.Keys && v in g && LastDominates(g, v)
    ensures PrefersLatest(g, TimesFor(g, cost, order), v)
  {
    var times := TimesFor(g, cost, order);
    hide TimesFor, Complete;
    if g[v] != [] {
      var m := g[v][|g[v]| - 1];
      forall c | c in g[v]
        ensures Finish(times.finish, c) <= Finish(times.finish, m) && Start(times, c) <= Start(times, m)
      {
        assert Reaches(g, m, c);
        EdgeEarlier(g, order, v, c);
        ReachesFinishes(g, cost, order, m, c);
        if c != m {
          ReachesBeforeStart(g, cost, order, m, c);
        }
        CompleteTimes(g, cost, order, c);
      }
      PreferredIsLast(g[v], times);
    }
  }

  lemma {:induction false} ZeroTotal(g: Graph, w: seq<Id>)
    ensures Total(Units(g, 0), w) == 0
  {
    if w != [] {
      ZeroTotal(g, w[1..]);
    }
  }

  lemma ZeroStart(g: Graph, order: seq<Id>, v: Id)
    requires Complete(g, order)
    ensures Start(TimesFor(g, Units(g, 0), order), v) == 0
  {
    var times := TimesFor(g, Units(g, 0), order);
    AcyclicTimes(g, Units(g, 0), order);
    hide TimesFor, StartAfter, Complete, Chain, Total;
    if v in times.start {
      var w :| Chain(g, v, w) && Total(Units(g, 0), w) == times.finish[v];
      ZeroTotal(g, w);
    }
  }

  /** Timeouts of zero included, exactly when that is always the dependency listed last. */
  lemma AlwaysCriticalWithZerosIff(g: Graph, order: seq<Id>)
    requires Complete(g, order)
    ensures order != []
    ensures (forall cost: Costs :: cost.Keys == g.Keys ==> IsCritical(g, cost, order))
            <==> (forall v :: v in g ==> LastDominates(g, v))
  {
    hide IsCritical, LastDominates, TimesFor, Complete;
    IsCriticalIff(g, Units(g, 0), order);
    if forall v :: v in g ==> LastDominates(g, v) {
      forall cost: Costs | cost.Keys == g.Keys ensures IsCritical(g, cost, order) {
        LastDominatesIsCritical(g, cost, order);
      }
    } else {
      var v :| v in g && !LastDominates(g, v);
      var cost := FallsShortWithZeros(g, order, v);
    }
  }

  lemma FallsShortWithZeros(g: Graph, order: seq<Id>, v: Id) returns (cost: Costs)
    requires Complete(g, order) && v in g && !LastDominates(g, v)
    ensures order != [] && cost.Keys == g.Keys && !IsCritical(g, cost, order)
  {
    hide IsCritical, ReachesAll, TimesFor, Complete, Start;
    var zero := TimesFor(g, Units(g, 0), order);
    forall b | b in g[v] ensures Start(zero, b) == 0 {
      ZeroStart(g, order, b);
    }
    PreferredIsLast(g[v], zero);
    cost := FallsShort(g, order, v, 0);
  }

  lemma LastDominatesIsCritical(g: Graph, cost: Costs, order: seq<Id>)
    requires Complete(g, order) && cost.Keys == g.Keys && forall v :: v in g ==> LastDominates(g, v)
    ensures order != [] && IsCritical(g, cost, order)
  {
    hide Complete, TimesFor, LastDominates, PrefersLatest, IsCritical, Reaches, Steps;
    IsCriticalIff(g, cost, order);
    forall v | v in g ensures PrefersLatest(g, TimesFor(g, cost, order), v) {
      LastDominatesPrefersLatest(g, cost, order, v);
    }
  }

  // ----- the smallest such graphs

  /** `s` waits for `a` and for `c`, which waits for `b`; `a` takes longer than both of those. */
  ghost predicate LongShortcut(g: Graph, cost: Costs, a: Id, b: Id, c: Id, s: Id) {
    && g.Keys == {a, b, c, s} && |g.Keys| == 4 && "" !in g && cost.Keys == g.Keys
    && g[a] == [] && g[b] == [] && g[c] == [b] && g[s] == [a, c]
    && cost[b] > 0 && cost[s] > 0 && cost[a] > cost[b] + cost[c]
  }

  /** The walk back prefers c because c starts later, although s waits for the long a. */
  lemma UnequalTimeoutsFallShort(g: Graph, cost: Costs, a: Id, b: Id, c: Id, s: Id, order: seq<Id>, path: seq<Id>)
    requires LongShortcut(g, cost, a, b, c, s) && Enumerates(g, order) && DependenciesFirst(g, order)
    requires WalkedBack(g, TimesFor(g, cost, order), order, path)
    ensures path == [b, c, s]
    ensures Total(cost, path) < Total(cost, [a, s]) == Finish(TimesFor(g, cost, order).finish, s)
  {
    var times := TimesFor(g, cost, order);
    ShortcutIsComplete(g, cost, a, b, c, s, order);
    hide TimesFor, Complete;
    ShortcutTimes(g, cost, a, b, c, s, order);
    ShortcutTotals(cost, a, b, c, s);
    ShortcutPath(g, cost, a, b, c, s, order, times, path);
  }

  lemma ShortcutTotals(cost: Costs, a: Id, b: Id, c: Id, s: Id)
    ensures Total(cost, [b, c, s]) == Cost(cost, b) + Cost(cost, c) + Cost(cost, s)
    ensures Total(cost, [a, s]) == Cost(cost, a) + Cost(cost, s)
  {
    assert [b, c, s][1..] == [c, s] && [c, s][1..] == [s] && [a, s][1..] == [s] && [s][1..] == [];
    assert Total(cost, [s]) == Cost(cost, s) + Total(cost, []);
    assert Total(cost, [c, s]) == Cost(cost, c) + Total(cost, [s]);
  }

  lemma ShortcutTimes(g: Graph, cost: Costs, a: Id, b: Id, c: Id, s: Id, order: seq<Id>)
    requires LongShortcut(g, cost, a, b, c, s) && Complete(g, order)
    ensures var times := TimesFor(g, cost, order);
            && Start(times, a) == 0 && Start(times, c) == cost[b]
            && Finish(times.finish, a) == cost[a] && Finish(times.finish, b) == cost[b]
            && Finish(times.finish, c) == cost[b] + cost[c] && Finish(times.finish, s) == cost[a] + cost[s]
  {
    var times := TimesFor(g, cost, order);
    SourceTimes(g, cost, order, a);
    SourceTimes(g, cost, order, b);
    CompleteTimes(g, cost, order, c);
    CompleteTimes(g, cost, order, s);
    hide TimesFor, HeaviestChain, Complete;
    assert g[c][0] == b && times.start[c] == cost[b];
    assert g[s][0] == a && g[s][1] == c && times.start[s] == cost[a];
  }

  lemma SourceTimes(g: Graph, cost: Costs, order: seq<Id>, v: Id)
    requires Complete(g, order) && cost.Keys == g.Keys && v in g && g[v] == []
    ensures var times := TimesFor(g, cost, order); Start(times, v) == 0 && Finish(times.finish, v) == cost[v]
  {
    CompleteTimes(g, cost, order, v);
  }

  lemma ShortcutPath(g: Graph, cost: Costs, a: Id, b: Id, c: Id, s: Id, order: seq<Id>, times: Times, path: seq<Id>)
    requires LongShortcut(g, cost, a, b, c, s) && Complete(g, order) && WalkedBack(g, times, order, path)
    requires Start(times, a) == 0 && Start(times, c) == cost[b]
    requires Finish(times.finish, a) == cost[a] && Finish(times.finish, b) == cost[b]
    requires Finish(times.finish, c) == cost[b] + cost[c] && Finish(times.finish, s) == cost[a] + cost[s]
    ensures path == [b, c, s]
  {
    hide TimesFor, Steps, EndNode, Enumerates, DependenciesFirst, NothingMissing;
    ShortcutSteps(g, cost, a, b, c, s, times);
    ShortcutEnd(g, cost, a, b, c, s, order, times);
    hide Start, Finish, LongShortcut, Complete;
    ThreeSteps(Steps(g, times), b, c, s, path);
  }

  lemma ThreeSteps(steps: Graph, b: Id, c: Id, s: Id, path: seq<Id>)
    requires Succ(steps, s) == [c] && Succ(steps, c) == [b] && Succ(steps, b) == []
    requires path != [] && path[|path| - 1] == s && BackwardPath(steps, path) && Succ(steps, path[0]) == []
    ensures path == [b, c, s]
  {
    hide BackwardPath;
    var n := |path|;
    OneStep(steps, path, n - 1);
    OneStep(steps, path, n - 2);
    if n > 3 {
      OneStep(steps, path, n - 3);
    }
  }

  lemma OneStep(steps: Graph, path: seq<Id>, k: nat)
    requires BackwardPath(steps, path) && k < |path| && Succ(steps, path[0]) == []
    ensures k > 0 ==> path[k - 1] in Succ(steps, path[k])
    ensures Succ(steps, path[k]) != [] ==> k > 0
  {
    assert k > 0 ==> Edge(steps, path[k], path[k - 1]);
  }

  lemma ShortcutEnd(g: Graph, cost: Costs, a: Id, b: Id, c: Id, s: Id, order: seq<Id>, times: Times)
    requires LongShortcut(g, cost, a, b, c, s) && Complete(g, order)
    requires Finish(times.finish, a) == cost[a] && Finish(times.finish, b) == cost[b]
    requires Finish(times.finish, c) == cost[b] + cost[c] && Finish(times.finish, s) == cost[a] + cost[s]
    ensures order != [] && EndNode(order, times) == s
  {
    InOrder(g, order, s);
    hide Complete;
    var e := EndNode(order, times);
    InOrder(g, order, e);
    assert Finish(times.finish, s) <= Finish(times.finish, e);
    hide Finish, EndNode;
  }

  lemma ShortcutSteps(g: Graph, cost: Costs, a: Id, b: Id, c: Id, s: Id, times: Times)
    requires LongShortcut(g, cost, a, b, c, s)
    requires Start(times, a) == 0 && Start(times, c) == cost[b]
    ensures var steps := Steps(g, times); Succ(steps, s) == [c] && Succ(steps, c) == [b] && Succ(steps, b) == []
  {
    PreferredIsLatest(g[s], times);
    PreferredIsLatest(g[c], times);
    assert c in g[s];
  }

  lemma ShortcutIsComplete(g: Graph, cost: Costs, a: Id, b: Id, c: Id, s: Id, order: seq<Id>)
    requires LongShortcut(g, cost, a, b, c, s) && Enumerates(g, order) && DependenciesFirst(g, order)
    ensures Complete(g, order)
  {
    hide Enumerates, DependenciesFirst;
  }
}
