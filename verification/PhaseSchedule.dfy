/** The phases of packages/cli/src/core/collaboration/ExecutionGraph.ts
    (computeExecutionSchedule, lines 344-384). */
module PhaseSchedule {
  import opened Sequences
  import opened Graphs
  import opened TopologicalOrder

  /** A dependency chain that starts at `v`: each vertex is followed by a dependency of it. */
  ghost predicate Chain(g: Graph, v: Id, w: seq<Id>) {
    Walk(g, w) && w[0] == v && forall i :: 0 <= i < |w| ==> w[i] in g
  }

  /** The longest chain from `v` has exactly `k` steps. */
  ghost predicate LongestChain(g: Graph, v: Id, k: nat) {
    && (exists w :: Chain(g, v, w) && |w| == k + 1)
    && (forall w :: Chain(g, v, w) ==> |w| <= k + 1)
  }

  lemma ChainTail(g: Graph, v: Id, w: seq<Id>)
    requires Chain(g, v, w) && |w| > 1
    ensures Edge(g, v, w[1]) && w[1] in g && Chain(g, w[1], w[1..])
  {
    WalkSlice(g, w, 1, |w|);
  }

  lemma ChainPrepend(g: Graph, v: Id, d: Id, w: seq<Id>)
    requires v in g && Edge(g, v, d) && Chain(g, d, w)
    ensures Chain(g, v, [v] + w)
  {
    WalkPrepends(g, v, w);
  }

  /** One more than the largest level of the first `i` dependencies that have a level. */
  ghost predicate LevelAfter(dependencies: seq<Id>, i: nat, level: map<Id, nat>, k: nat)
    requires i <= |dependencies|
  {
    && (forall j :: 0 <= j < i && dependencies[j] in level ==> level[dependencies[j]] < k)
    && (k > 0 ==> exists j :: 0 <= j < i && dependencies[j] in level && level[dependencies[j]] == k - 1)
  }

  /** A level computed from correct dependency levels is the length of the longest chain. */
  lemma LevelIsLongestChain(g: Graph, v: Id, level: map<Id, nat>, k: nat)
    requires v in g
    requires forall b :: Edge(g, v, b) && b in g ==> b in level && LongestChain(g, b, level[b])
    requires forall b :: b in level ==> b in g
    requires LevelAfter(g[v], |g[v]|, level, k)
    ensures LongestChain(g, v, k)
  {
    if k == 0 {
      assert Chain(g, v, [v]);
    } else {
      var j :| 0 <= j < |g[v]| && g[v][j] in level && level[g[v][j]] == k - 1;
      var d := g[v][j];
      assert Edge(g, v, d);
      var w :| Chain(g, d, w) && |w| == k;
      ChainPrepend(g, v, d, w);
      assert |[v] + w| == k + 1;
    }
    forall w | Chain(g, v, w) ensures |w| <= k + 1 {
      if |w| > 1 {
        ChainTail(g, v, w);
        var j :| 0 <= j < |g[v]| && g[v][j] == w[1];
      }
    }
  }

  method NextLevel(dependencies: seq<Id>, level: map<Id, nat>) returns (k: nat)
    ensures LevelAfter(dependencies, |dependencies|, level, k)
  {
    k := 0;
    var i := 0;
    while i < |dependencies|
      invariant 0 <= i <= |dependencies|
      invariant LevelAfter(dependencies, i, level, k)
    {
      var d := dependencies[i];
      if d in level {
        k := if level[d] + 1 > k then level[d] + 1 else k;
      }
      i := i + 1;
    }
  }

  /** The vertices placed so far have their longest chain as level. */
  ghost predicate Levelled(g: Graph, placed: seq<Id>, level: map<Id, nat>) {
    && level.Keys == Elements(placed) <= g.Keys
    && forall v {:trigger level[v]} :: v in level ==> LongestChain(g, v, level[v])
  }

  ghost predicate Bucket(level: map<Id, nat>, p: nat, bucket: seq<Id>) {
    && bucket != [] && Distinct(bucket)
    && forall v :: v in bucket <==> v in level && level[v] == p
  }

  /** The buckets hold each placed vertex at its level, and none is empty. */
  ghost predicate Bucketed(level: map<Id, nat>, buckets: map<nat, seq<Id>>) {
    && (forall p {:trigger buckets[p]} :: p in buckets ==> Bucket(level, p, buckets[p]))
    && (forall v {:trigger level[v]} :: v in level ==> level[v] in buckets)
  }

  lemma PlaceLevelled(g: Graph, order: seq<Id>, i: nat, level: map<Id, nat>, k: nat)
    requires Enumerates(g, order) && DependenciesFirst(g, order) && i < |order|
    requires Levelled(g, order[..i], level) && order[i] in g
    requires LevelAfter(g[order[i]], |g[order[i]]|, level, k)
    ensures Levelled(g, order[..i + 1], level[order[i] := k]) && order[i] !in level
  {
    var v := order[i];
    forall b | Edge(g, v, b) && b in g ensures b in level && LongestChain(g, b, level[b]) {
      assert b in Elements(order[..i]);
    }
    LevelIsLongestChain(g, v, level, k);
    PrefixElements(order, i);
  }

  lemma OrderedVertex(g: Graph, order: seq<Id>, i: nat)
    requires Enumerates(g, order) && i < |order|
    ensures order[i] in g
  {
    assert order[i] in Elements(order);
  }

  lemma PrefixElements(order: seq<Id>, i: nat)
    requires Distinct(order) && i < |order|
    ensures Elements(order[..i + 1]) == Elements(order[..i]) + {order[i]}
    ensures order[i] !in Elements(order[..i])
  {
    assert order[..i + 1] == order[..i] + [order[i]];
  }

  lemma PlaceBucketed(level: map<Id, nat>, buckets: map<nat, seq<Id>>, v: Id, k: nat)
    requires Bucketed(level, buckets) && v !in level
    ensures Bucketed(level[v := k], buckets[k := (if k in buckets then buckets[k] else []) + [v]])
  {
    var level', bucket := level[v := k], (if k in buckets then buckets[k] else []) + [v];
    var buckets' := buckets[k := bucket];
    forall p | p in buckets' ensures Bucket(level', p, buckets'[p]) {
      if p in buckets {
        assert Bucket(level, p, buckets[p]);
      } else {
        forall u | u in level ensures level[u] != p {
          assert level[u] in buckets;
        }
      }
    }
  }

  /** A vertex with a longest chain of k > 0 steps has a dependency with one of k - 1. */
  lemma DeepestDependency(g: Graph, v: Id, k: nat) returns (d: Id)
    requires v in g && LongestChain(g, v, k) && k > 0
    ensures Edge(g, v, d) && d in g
    ensures forall j: nat :: LongestChain(g, d, j) ==> j == k - 1
  {
    var w :| Chain(g, v, w) && |w| == k + 1;
    d := w[1];
    ChainTail(g, v, w);
    var rest := w[1..];
    assert Chain(g, d, rest) && |rest| == k;
    forall j: nat | LongestChain(g, d, j) ensures j == k - 1 {
      var u :| Chain(g, d, u) && |u| == j + 1;
      ChainPrepend(g, v, d, u);
      assert |[v] + u| == j + 2;
    }
  }

  /** Below every used level there is a used level. */
  lemma LevelsAreContiguous(g: Graph, order: seq<Id>, level: map<Id, nat>, buckets: map<nat, seq<Id>>, p: nat)
    requires Enumerates(g, order) && Levelled(g, order, level) && Bucketed(level, buckets)
    requires p > 0 && p in buckets
    ensures p - 1 in buckets
  {
    hide LongestChain, Edge, Distinct;
    assert Bucket(level, p, buckets[p]);
    var v := buckets[p][0];
    assert v in buckets[p] && LongestChain(g, v, level[v]);
    var d := DeepestDependency(g, v, p);
    assert d in level && LongestChain(g, d, level[d]);
    assert level[d] in buckets;
  }

  /** Only the settled dependencies have a level when their turn comes. */
  lemma LevelAfterSettled(g: Graph, order: seq<Id>, i: nat, level: map<Id, nat>, k: nat)
    requires Enumerates(g, order) && i < |order| && order[i] in g && level.Keys == Elements(order[..i])
    requires LevelAfter(g[order[i]], |g[order[i]]|, level, k)
    ensures order[i] in Settled(g, order)
    ensures LevelAfter(Settled(g, order)[order[i]], |Settled(g, order)[order[i]]|, level, k)
  {
    var v := order[i];
    var all, kept := g[v], Settled(g, order)[v];
    FirstIndexIsFirst(order, v, i);
    assert order[..FirstIndex(order, v)] == order[..i];
    forall j | 0 <= j < |kept| && kept[j] in level ensures level[kept[j]] < k {
      KeepInMembers(all, order[..i], kept[j]);
    }
    if k > 0 {
      var j :| 0 <= j < |all| && all[j] in level && level[all[j]] == k - 1;
      assert all[j] in Elements(order[..i]);
      KeepInMembers(all, order[..i], all[j]);
    }
  }

  /** Every vertex gets the length of its longest chain of settled dependencies, on cyclic
      graphs too. */
  method PlaceByLevel(g: Graph, order: seq<Id>) returns (level: map<Id, nat>, buckets: map<nat, seq<Id>>)
    requires Enumerates(g, order)
    ensures Levelled(Settled(g, order), order, level) && Bucketed(level, buckets)
  {
    ghost var settled := Settled(g, order);
    hide Levelled, Bucketed, LevelAfter, DependenciesFirst, Enumerates, Settled, Elements;
    level, buckets := map[], map[];
    NothingPlaced(settled);
    var i := 0;
    while i < |order|
      invariant 0 <= i <= |order|
      invariant Levelled(settled, order[..i], level)
      invariant Bucketed(level, buckets)
    {
      var v := order[i];
      OrderedVertex(g, order, i);
      var k := NextLevel(g[v], level);
      PlaceNext(g, order, i, level, buckets, k);
      level := level[v := k];
      buckets := buckets[k := (if k in buckets then buckets[k] else []) + [v]];
      i := i + 1;
    }
    assert order[..i] == order;
  }

  lemma PlaceNext(g: Graph, order: seq<Id>, i: nat, level: map<Id, nat>, buckets: map<nat, seq<Id>>, k: nat)
    requires Enumerates(g, order) && i < |order| && order[i] in g
    requires Levelled(Settled(g, order), order[..i], level) && Bucketed(level, buckets)
    requires LevelAfter(g[order[i]], |g[order[i]]|, level, k)
    ensures var v := order[i];
            && Levelled(Settled(g, order), order[..i + 1], level[v := k])
            && Bucketed(level[v := k], buckets[k := (if k in buckets then buckets[k] else []) + [v]])
  {
    SettledFits(g, order);
    LevelAfterSettled(g, order, i, level, k);
    hide Settled, Bucketed, LevelAfter, LongestChain;
    PlaceLevelled(Settled(g, order), order, i, level, k);
    PlaceBucketed(level, buckets, order[i], k);
  }

  lemma NothingPlaced(g: Graph)
    ensures Levelled(g, [], map[]) && Bucketed(map[], map[])
  {
  }

  datatype ExecutionPhase = ExecutionPhase(phase: nat, nodes: seq<Id>, canRunParallel: bool)

  function NoneDependsOn(g: Graph, nodes: seq<Id>): bool {
    forall n, other :: n in nodes && other in nodes ==> n !in Succ(g, other)
  }

  /** Phase `p` holds, once each, the vertices whose longest chain has `p` steps; no
      phase is empty and no vertex is left over. */
  ghost predicate Layered(g: Graph, phases: seq<ExecutionPhase>) {
    && (forall p :: 0 <= p < |phases| ==>
          && phases[p].phase == p && phases[p].nodes != [] && Distinct(phases[p].nodes)
          && forall v :: v in phases[p].nodes <==> v in g && LongestChain(g, v, p))
    && (forall v :: v in g ==> exists p :: 0 <= p < |phases| && v in phases[p].nodes)
  }

  /** The phases that an order gives: layers of the settled graph, each marked as parallel
      when none of its vertices depends on another one of them. */
  ghost predicate PhasesFit(g: Graph, order: seq<Id>, phases: seq<ExecutionPhase>) {
    && Layered(Settled(g, order), phases)
    && forall p :: 0 <= p < |phases| ==> phases[p].canRunParallel == NoneDependsOn(g, phases[p].nodes)
  }

  /** On an acyclic graph the layers are those of the graph, and all are parallel. */
  ghost predicate PartitionedByDepth(g: Graph, phases: seq<ExecutionPhase>) {
    Layered(g, phases) && forall p :: 0 <= p < |phases| ==> phases[p].canRunParallel
  }

  lemma SettledChain(g: Graph, order: seq<Id>, v: Id, w: seq<Id>)
    requires Enumerates(g, order) && DependenciesFirst(g, order)
    ensures Chain(Settled(g, order), v, w) <==> Chain(g, v, w)
  {
    hide Settled, Enumerates, DependenciesFirst;
    assert Settled(g, order).Keys == g.Keys by {
      SettledKeys(g, order);
    }
    forall i, j | 0 <= i && j == i + 1 < |w|
      ensures Edge(Settled(g, order), w[i], w[j]) <==> Edge(g, w[i], w[j]) && w[j] in g
    {
      SettledKeeps(g, order, w[i], w[j]);
    }
  }

  lemma SettledKeys(g: Graph, order: seq<Id>)
    ensures Settled(g, order).Keys == g.Keys
  {
  }

  lemma SettledLongest(g: Graph, order: seq<Id>, v: Id, k: nat)
    requires Enumerates(g, order) && DependenciesFirst(g, order)
    ensures LongestChain(Settled(g, order), v, k) <==> LongestChain(g, v, k)
  {
    hide Chain, Settled, Enumerates, DependenciesFirst;
    forall w ensures Chain(Settled(g, order), v, w) <==> Chain(g, v, w) {
      SettledChain(g, order, v, w);
    }
  }

  lemma LayeredAlike(g: Graph, settled: Graph, phases: seq<ExecutionPhase>)
    requires settled.Keys == g.Keys && Layered(settled, phases)
    requires forall v, k: nat :: LongestChain(settled, v, k) <==> LongestChain(g, v, k)
    ensures Layered(g, phases)
  {
    hide LongestChain;
  }

  lemma LayersAreIndependent(g: Graph, phases: seq<ExecutionPhase>, p: nat)
    requires Layered(g, phases) && p < |phases|
    ensures NoneDependsOn(g, phases[p].nodes)
  {
    hide LongestChain;
    forall n, other | n in phases[p].nodes && other in phases[p].nodes ensures n !in Succ(g, other) {
      SamePhaseIndependent(g, other, n, p);
    }
  }

  lemma AcyclicPhases(g: Graph, order: seq<Id>, phases: seq<ExecutionPhase>)
    requires Enumerates(g, order) && DependenciesFirst(g, order) && PhasesFit(g, order, phases)
    ensures PartitionedByDepth(g, phases)
  {
    hide LongestChain, Settled, Enumerates, DependenciesFirst, Layered, NoneDependsOn;
    SettledKeys(g, order);
    forall v, k: nat ensures LongestChain(Settled(g, order), v, k) <==> LongestChain(g, v, k) {
      SettledLongest(g, order, v, k);
    }
    LayeredAlike(g, Settled(g, order), phases);
    forall p | 0 <= p < |phases| ensures NoneDependsOn(g, phases[p].nodes) {
      LayersAreIndependent(g, phases, p);
    }
  }

  lemma LongestChainUnique(g: Graph, v: Id, j: nat, k: nat)
    requires LongestChain(g, v, j) && LongestChain(g, v, k)
    ensures j == k
  {
    var w :| Chain(g, v, w) && |w| == j + 1;
    var u :| Chain(g, v, u) && |u| == k + 1;
  }

  /** Vertices of one phase never depend on each other. */
  lemma SamePhaseIndependent(g: Graph, a: Id, b: Id, k: nat)
    requires LongestChain(g, a, k) && LongestChain(g, b, k) && a in g
    ensures b !in Succ(g, a)
  {
    if Edge(g, a, b) {
      var w :| Chain(g, b, w) && |w| == k + 1;
      ChainPrepend(g, a, b, w);
    }
  }

  lemma BucketIsPhase(g: Graph, order: seq<Id>, level: map<Id, nat>, buckets: map<nat, seq<Id>>, p: nat)
    requires Enumerates(g, order) && Levelled(g, order, level) && Bucketed(level, buckets) && p in buckets
    ensures buckets[p] != [] && Distinct(buckets[p])
    ensures forall v :: v in buckets[p] <==> v in g && LongestChain(g, v, p)
  {
    assert Bucket(level, p, buckets[p]);
    forall v ensures v in buckets[p] <==> v in g && LongestChain(g, v, p) {
      if v in g {
        assert v in level && LongestChain(g, v, level[v]);
        if LongestChain(g, v, p) {
          LongestChainUnique(g, v, p, level[v]);
        }
      }
    }
  }

  method ComputePhases(g: Graph, order: seq<Id>) returns (phases: seq<ExecutionPhase>)
    requires Enumerates(g, order)
    ensures PhasesFit(g, order, phases)
    ensures DependenciesFirst(g, order) ==> PartitionedByDepth(g, phases)
  {
    hide Levelled, Bucketed, LongestChain, NoneDependsOn, Settled, PartitionedByDepth, Layered;
    ghost var settled := Settled(g, order);
    SettledFits(g, order);
    var level, buckets := PlaceByLevel(g, order);
    phases := [];
    var phaseNum: nat := 0;
    ghost var used: set<nat> := {};
    while phaseNum in buckets
      invariant |phases| == phaseNum
      invariant forall p :: 0 <= p < phaseNum ==>
        p in buckets && phases[p] == ExecutionPhase(p, buckets[p], NoneDependsOn(g, buckets[p]))
      invariant forall q :: q in used ==> q < phaseNum
      decreases buckets.Keys - used
    {
      used := used + {phaseNum};
      var nodes := buckets[phaseNum];
      phases := phases + [ExecutionPhase(phaseNum, nodes, NoneDependsOn(g, nodes))];
      phaseNum := phaseNum + 1;
    }
    PhasesPartition(settled, order, level, buckets, phases);
    if DependenciesFirst(g, order) {
      AcyclicPhases(g, order, phases);
    }
  }

  lemma PhasesPartition(g: Graph, order: seq<Id>, level: map<Id, nat>, buckets: map<nat, seq<Id>>,
                        phases: seq<ExecutionPhase>)
    requires Enumerates(g, order) && Levelled(g, order, level) && Bucketed(level, buckets)
    requires forall p :: 0 <= p < |phases| ==> p in buckets && phases[p].phase == p && phases[p].nodes == buckets[p]
    requires |phases| !in buckets
    ensures Layered(g, phases)
  {
    forall p | 0 <= p < |phases|
      ensures phases[p].nodes != [] && Distinct(phases[p].nodes)
      ensures forall v :: v in phases[p].nodes <==> v in g && LongestChain(g, v, p)
    {
      BucketIsPhase(g, order, level, buckets, p);
    }
    forall v | v in g ensures exists p :: 0 <= p < |phases| && v in phases[p].nodes {
      assert v in level && level[v] in buckets;
      var p := level[v];
      LevelBelowGap(g, order, level, buckets, |phases|, p);
      assert Bucket(level, p, buckets[p]);
    }
  }

  lemma LevelBelowGap(g: Graph, order: seq<Id>, level: map<Id, nat>, buckets: map<nat, seq<Id>>, gap: nat, p: nat)
    requires Enumerates(g, order) && Levelled(g, order, level) && Bucketed(level, buckets)
    requires p in buckets && gap !in buckets
    ensures p < gap
  {
    if p > gap {
      LevelsAreContiguous(g, order, level, buckets, p);
      LevelBelowGap(g, order, level, buckets, gap, p - 1);
    }
  }

  /** Any assignment that puts every dependency strictly earlier. */
  ghost predicate EarlierDependencies(g: Graph, slot: map<Id, nat>) {
    slot.Keys == g.Keys && forall a, b :: Edge(g, a, b) && a in g && b in g ==> slot[b] < slot[a]
  }

  lemma {:induction false} SlotBoundsChain(g: Graph, slot: map<Id, nat>, v: Id, w: seq<Id>)
    requires EarlierDependencies(g, slot) && v in g && Chain(g, v, w)
    ensures |w| <= slot[v] + 1
    decreases |w|
  {
    if |w| > 1 {
      ChainTail(g, v, w);
      SlotBoundsChain(g, slot, w[1], w[1..]);
    }
  }

  /** No schedule with dependencies in strictly earlier slots uses fewer slots, and none
      starts a vertex earlier than its phase. */
  lemma PhasesAreMinimal(g: Graph, phases: seq<ExecutionPhase>, slot: map<Id, nat>, slots: nat)
    requires Layered(g, phases) && EarlierDependencies(g, slot)
    requires forall v :: v in slot ==> slot[v] < slots
    ensures |phases| <= slots
    ensures forall p, v :: 0 <= p < |phases| && v in phases[p].nodes ==> p <= slot[v]
  {
    forall p, v | 0 <= p < |phases| && v in phases[p].nodes ensures v in g && p <= slot[v] {
      var w :| Chain(g, v, w) && |w| == p + 1;
      SlotBoundsChain(g, slot, v, w);
    }
    if phases != [] {
      var last := phases[|phases| - 1].nodes;
      assert last[0] in last;
    }
  }
}
