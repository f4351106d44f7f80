/** The class of packages/cli/src/core/collaboration/ExecutionGraph.ts: a table of
    nodes that is edited in place, with a cached topological order and phase list. */
module ExecutionGraph {
  import opened Sequences
  import opened Graphs
  import opened NodeTable
  import opened GraphEditing
  import opened TopologicalOrder
  import opened PhaseSchedule
  import opened EarliestTimes
  import opened CriticalPath
  import opened DurationEstimate
  import opened Cancellation
  import opened Readiness
  import CycleDetection

  datatype ExecutionSchedule = ExecutionSchedule(
    phases: seq<ExecutionPhase>, estimatedDuration: nat, criticalPath: seq<Id>)

  /** A cached order is the result that computing it anew could have. */
  ghost predicate OrderFits(g: Graph, order: seq<Id>) {
    Enumerates(g, order) && (DependenciesFirst(g, order) <==> Acyclic(g))
  }

  ghost predicate TableValid(nodes: Nodes, keys: seq<Id>) {
    Distinct(keys) && Elements(keys) == nodes.Keys && "" !in nodes
  }

  /** Part of a readiness pass: the keys before `i` have been looked at. */
  ghost predicate PassedOver(before: Nodes, nodes: Nodes, keys: seq<Id>, i: nat, done: Id)
    requires i <= |keys|
  {
    && nodes.Keys == before.Keys
    && (forall v :: v in nodes ==>
          nodes[v] == if v in keys[..i] then ReadyAfter(before, done)[v] else before[v])
  }

  lemma PassOver(before: Nodes, nodes: Nodes, keys: seq<Id>, i: nat, done: Id)
    requires Distinct(keys) && i < |keys| && keys[i] in nodes && PassedOver(before, nodes, keys, i, done)
    ensures BecomesReady(nodes, keys[i], done) <==> BecomesReady(before, keys[i], done)
    ensures PassedOver(before,
                       if BecomesReady(nodes, keys[i], done)
                       then nodes[keys[i] := nodes[keys[i]].(status := Ready)] else nodes,
                       keys, i + 1, done)
  {
    assert keys[..i + 1] == keys[..i] + [keys[i]];
    forall d ensures IsCompleted(nodes, d) <==> IsCompleted(before, d) {
    }
  }

  lemma PassedOverAll(before: Nodes, nodes: Nodes, keys: seq<Id>, done: Id)
    requires TableValid(before, keys) && PassedOver(before, nodes, keys, |keys|, done)
    ensures nodes == ReadyAfter(before, done)
  {
    assert keys[..|keys|] == keys;
    forall v | v in nodes ensures nodes[v] == ReadyAfter(before, done)[v] {
      assert v in Elements(keys);
    }
  }

  /** A phase lasts as long as the timeout of one of its nodes and no less than that of any. */
  ghost predicate PhaseLasts(nodes: Nodes, members: seq<Id>, d: int) {
    && (exists v :: v in members && v in nodes && nodes[v].timeout == d)
    && (forall v :: v in members ==> v in nodes && nodes[v].timeout <= d)
  }

  /** `t` are the times at which the phases begin, and the last one ends, when they run one
      after the other. */
  ghost predicate PhasesFollow(nodes: Nodes, phases: seq<ExecutionPhase>, t: seq<int>, end: int) {
    && |t| == |phases| + 1 && t[0] == 0 && t[|phases|] == end
    && forall p {:trigger phases[p]} :: 0 <= p < |phases| ==> PhaseLasts(nodes, phases[p].nodes, t[p + 1] - t[p])
  }

  class ExecutionGraph {
    var nodes: Nodes
    var keys: seq<Id>  // the keys of the table in insertion order
    var topologicalOrder: seq<Id>
    var phases: seq<ExecutionPhase>
    const defaultTimeout: nat

    ghost predicate Valid()
      reads this
    {
      && TableValid(nodes, keys)
      && (topologicalOrder == [] || OrderFits(Dependencies(nodes), topologicalOrder))
      && (phases != [] ==> OrderFits(Dependencies(nodes), topologicalOrder))
      && (phases != [] ==> PhasesFit(Dependencies(nodes), topologicalOrder, phases))
    }

    /** The order that is used next: the cached one, or else that of a new search. */
    ghost function UsedOrder(): seq<Id>
      reads this
      requires Valid()
    {
      if |topologicalOrder| == |nodes| then topologicalOrder else OrderOf(Dependencies(nodes), keys)
    }

    constructor (defaultTimeout: nat)
      ensures Valid() && nodes == map[] && WellLinked(nodes)
      ensures this.defaultTimeout == defaultTimeout
    {
      nodes, keys, topologicalOrder, phases := map[], [], [], [];
      this.defaultTimeout := defaultTimeout;
      new;
      EmptyIsWellLinked();
    }

    /** `id` is the generated identifier; a zero timeout stands for none. */
    method AddNode(id: Id, taskId: string, dependencies: seq<Id>, timeout: nat)
      requires Valid() && id !in nodes && id != ""
      modifies this
      ensures Valid() && topologicalOrder == [] && phases == []
      ensures nodes ==
        ApplyEdit(old(nodes), Add(id, taskId, dependencies, if timeout != 0 then timeout else defaultTimeout))
      ensures keys == old(keys) + [id]
      ensures id in nodes
      ensures id !in dependencies ==>
        var duration := if timeout != 0 then timeout else defaultTimeout;
        nodes[id] == Node(id, taskId, Pending, dependencies, [], duration, 0, 0, "")
      ensures old(WellLinked(nodes)) && (forall d :: d in dependencies ==> d in old(nodes)) ==> WellLinked(nodes)
    {
      hide WellLinked, Added, Register;
      var node := NewNode(id, taskId, dependencies, if timeout != 0 then timeout else defaultTimeout);
      ghost var extended := nodes[id := node];
      nodes := nodes[id := node];
      keys := keys + [id];
      var i := 0;
      RegisterNone(extended, id);
      while i < |dependencies|
        invariant 0 <= i <= |dependencies|
        invariant nodes == Register(extended, dependencies[..i], id)
        invariant keys == old(keys) + [id]
      {
        RegisterOne(extended, dependencies, i, id);
        var depId := dependencies[i];
        if depId in nodes {
          nodes := nodes[depId := nodes[depId].(dependents := nodes[depId].dependents + [id])];
        }
        i := i + 1;
      }
      assert dependencies[..i] == dependencies;
      InvalidateCache();
      AddedTable(old(nodes), old(keys), id, taskId, dependencies, node.timeout);
      if id !in dependencies {
        AddedEffect(old(nodes), id, taskId, dependencies, node.timeout, id);
      }
      if old(WellLinked(nodes)) && (forall d :: d in dependencies ==> d in old(nodes)) {
        EditKeepsWellLinked(old(nodes), Add(id, taskId, dependencies, node.timeout));
      }
    }

    method InvalidateCache()
      modifies this`topologicalOrder, this`phases
      ensures topologicalOrder == [] && phases == []
    {
      topologicalOrder, phases := [], [];
    }

    method RemoveNode(id: Id) returns (removed: bool)
      requires Valid()
      modifies this
      ensures Valid() && removed == (id in old(nodes))
      ensures nodes == ApplyEdit(old(nodes), Remove(id))
      ensures removed ==> topologicalOrder == [] && phases == []
      ensures !removed ==> topologicalOrder == old(topologicalOrder) && phases == old(phases)
      ensures old(WellLinked(nodes)) ==> WellLinked(nodes)
    {
      hide WellLinked, Unregister, Detach, Without, TableValid;
      if id !in nodes {
        return false;
      }
      var dependencies := nodes[id].dependencies;
      var i := 0;
      UnregisterNone(nodes, id);
      while i < |dependencies|
        invariant 0 <= i <= |dependencies|
        invariant nodes == Unregister(old(nodes), dependencies[..i], id) && keys == old(keys)
      {
        UnregisterOne(old(nodes), dependencies, i, id);
        var depId := dependencies[i];
        if depId in nodes {
          nodes := nodes[depId := nodes[depId].(dependents := Without(nodes[depId].dependents, id))];
        }
        i := i + 1;
      }
      assert dependencies[..i] == dependencies;
      ghost var unregistered := nodes;
      EditedKeys(old(nodes), dependencies, id);
      var dependents := nodes[id].dependents;
      i := 0;
      DetachNone(nodes, id);
      while i < |dependents|
        invariant 0 <= i <= |dependents|
        invariant nodes == Detach(unregistered, dependents[..i], id) && keys == old(keys)
      {
        DetachOne(unregistered, dependents, i, id);
        var dependentId := dependents[i];
        if dependentId in nodes {
          nodes := nodes[dependentId :=
            nodes[dependentId].(dependencies := Without(nodes[dependentId].dependencies, id))];
        }
        i := i + 1;
      }
      assert dependents[..i] == dependents;
      nodes := nodes - {id};
      keys := Without(keys, id);
      InvalidateCache();
      RemovedTable(old(nodes), old(keys), id);
      if old(WellLinked(nodes)) {
        EditKeepsWellLinked(old(nodes), Remove(id));
      }
      removed := true;
    }

    method Clear()
      modifies this
      ensures Valid() && nodes == ApplyEdit(old(nodes), Edit.Clear) && keys == [] && WellLinked(nodes)
    {
      nodes, keys := map[], [];
      InvalidateCache();
      EmptyIsWellLinked();
    }

    method UpdateNodeStatus(id: Id, status: TaskStatus, error: string, now: nat) returns (found: bool)
      requires Valid()
      modifies this`nodes
      ensures Valid() && found == (id in old(nodes))
      ensures nodes == UpdateStatus(old(nodes), id, status, error, now)
      ensures if found then StatusChanged(old(nodes), nodes, id, status, error, now) else nodes == old(nodes)
    {
      hide TableValid, OrderFits, PhasesFit, ReadyAfter, StatusChanged;
      UpdateStatusKeepsGraph(nodes, id, status, error, now);
      SameKeysValid(nodes, keys, UpdateStatus(nodes, id, status, error, now));
      if id !in nodes {
        return false;
      }
      UpdateChangesStatus(nodes, id, status, error, now);
      nodes := nodes[id := WithStatus(nodes[id], status, error, now)];
      if status == Completed {
        SameKeysValid(old(nodes), keys, nodes);
        UpdateDependentNodes(id);
      }
      found := true;
    }

    method UpdateDependentNodes(completedId: Id)
      requires TableValid(nodes, keys)
      modifies this`nodes
      ensures nodes == ReadyAfter(old(nodes), completedId)
      ensures nodes.Keys == old(nodes).Keys
      ensures forall v :: v in nodes ==>
        nodes[v] == if Unblocked(old(nodes), v, completedId) then old(nodes)[v].(status := Ready) else old(nodes)[v]
    {
      hide ReadyAfter, BecomesReady, PassedOver;
      ghost var before := nodes;
      var i := 0;
      PassedOverNone(nodes, keys, completedId);
      while i < |keys|
        invariant 0 <= i <= |keys|
        invariant nodes.Keys == before.Keys
        invariant PassedOver(before, nodes, keys, i, completedId)
      {
        assert keys[i] in Elements(keys);
        PassOver(before, nodes, keys, i, completedId);
        PassedKeys(before, nodes, keys, i, completedId);
        if BecomesReady(nodes, keys[i], completedId) {
          nodes := nodes[keys[i] := nodes[keys[i]].(status := Ready)];
        }
        i := i + 1;
      }
      PassedOverAll(before, nodes, keys, completedId);
      ReadyAfterwards(before, completedId);
    }

    /** Cancels exactly what the active dependents of `id` lead to; nothing else changes. */
    method CancelNode(id: Id, now: nat) returns (cancelled: bool, ghost chosen: set<Id>)
      requires Valid()
      modifies this`nodes
      ensures Valid()
      ensures cancelled == Active(old(nodes), id)
      ensures nodes == CancelAll(old(nodes), chosen, now)
      ensures nodes.Keys == old(nodes).Keys
      ensures forall v :: v in nodes && v in chosen ==> nodes[v] == old(nodes)[v].(
        status := Cancelled, endTime := if old(nodes)[v].endTime == 0 then now else old(nodes)[v].endTime)
      ensures forall v :: v in nodes && v !in chosen ==> nodes[v] == old(nodes)[v]
      ensures CancelledFrom(old(nodes), id, chosen)
      ensures cancelled <==> id in chosen
      ensures !cancelled ==> chosen == {}
      ensures cancelled ==> forall v :: v in chosen <==> Reaches(ActiveDependents(old(nodes)), id, v)
      decreases ActiveNodes(nodes)
    {
      hide CancelledFrom, CancellingFrom, CancelAll, OrderFits, PhasesFit, TableValid, Reaches, ActiveDependents;
      ghost var before := nodes;
      if !Active(nodes, id) {
        CancelNothing(nodes, id, now);
        CancelledNodes(nodes, {}, now);
        return false, {};
      }
      CancelOne(nodes, id, now);
      StartCancelling(before, id);
      var found := UpdateNodeStatus(id, Cancelled, "", now);
      cancelled, chosen := true, {id};
      var dependents := nodes[id].dependents;
      var i := 0;
      while i < |dependents|
        invariant 0 <= i <= |dependents| && dependents == before[id].dependents
        invariant Valid() && nodes == CancelAll(before, chosen, now)
        invariant CancellingFrom(before, id, chosen, i)
      {
        CancellingShrinks(before, id, chosen, i, now);
        var again;
        ghost var more;
        again, more := CancelNode(dependents[i], now);
        AddCancelled(before, id, chosen, i, more, now);
        CancelAllTwice(before, chosen, more, now);
        chosen := chosen + more;
        i := i + 1;
      }
      FinishCancelling(before, id, chosen);
      CancelledNodes(before, chosen, now);
      CancellingStart(before, id, chosen, i);
      forall v ensures v in chosen <==> Reaches(ActiveDependents(before), id, v) {
        CancelledIsReachable(before, id, chosen, v);
      }
    }

    method GetReadyNodes() returns (ready: seq<Id>)
      requires Valid()
      ensures ready == ReadyNodes(nodes, keys)
      ensures forall v ::
        v in ready <==>
          && v in nodes && nodes[v].status == Ready
          && (forall d :: d in nodes[v].dependencies ==> d in nodes && nodes[d].status == Completed)
      ensures forall i, j :: 0 <= i < j < |ready| ==> FirstIndex(keys, ready[i]) < FirstIndex(keys, ready[j])
      ensures Coherent(nodes) ==> forall v :: v in ready <==> v in nodes && nodes[v].status.Ready?
    {
      ready := [];
      var i := 0;
      ReadyNodesOfNone(nodes);
      while i < |keys|
        invariant 0 <= i <= |keys|
        invariant ready == ReadyNodes(nodes, keys[..i])
      {
        assert keys[..i + 1] == keys[..i] + [keys[i]];
        ReadyNodesAppend(nodes, keys[..i], keys[i]);
        var node := keys[i];
        if node in nodes && nodes[node].status.Ready? && AllCompleted(nodes, nodes[node].dependencies) {
          ready := ready + [node];
        }
        i := i + 1;
      }
      assert keys[..i] == keys;
      ReadyNodesInOrder(nodes, keys);
      forall v
        ensures v in ready <==> v in nodes && nodes[v].status == Ready && AllCompleted(nodes, nodes[v].dependencies)
      {
        ReadyNodesIff(nodes, keys, v);
        assert v in keys <==> v in Elements(keys);
      }
      if Coherent(nodes) {
        forall v ensures v in ready <==> v in nodes && nodes[v].status.Ready? {
          ReadyNodesAreTheReadyOnes(nodes, keys, v);
          assert v in keys <==> v in Elements(keys);
        }
      }
    }

    method DetectCycles() returns (cycles: seq<seq<Id>>)
      requires Valid()
      ensures forall i :: 0 <= i < |cycles| ==> ClosedWalk(Dependencies(nodes), cycles[i])
      ensures cycles == [] <==> Acyclic(Dependencies(nodes))
      ensures forall w :: ClosedWalk(Dependencies(nodes), w) ==>
        exists h :: h in CycleDetection.Heads(cycles) && h in w
    {
      cycles := CycleDetection.DetectCycles(Dependencies(nodes), keys);
    }

    /** Whether it comes from the cache or not, the order lists every node once and puts
        dependencies first exactly when there is no cycle. */
    method ComputeTopologicalOrder() returns (order: seq<Id>)
      requires Valid()
      modifies this`topologicalOrder
      ensures Valid() && topologicalOrder == order == old(UsedOrder()) == UsedOrder()
      ensures Enumerates(Dependencies(nodes), order)
      ensures DependenciesFirst(Dependencies(nodes), order) <==> Acyclic(Dependencies(nodes))
    {
      hide DependenciesFirst, Acyclic, Enumerates, PhasesFit, OrderOf;
      if |topologicalOrder| == |nodes| {
        CachedOrderFits(nodes, topologicalOrder);
        return topologicalOrder;
      }
      if OrderFits(Dependencies(nodes), topologicalOrder) {
        OrderIsFull(nodes, topologicalOrder);
      }
      order := ComputeOrder(Dependencies(nodes), keys);
      OrderIsFull(nodes, order);
      topologicalOrder := order;
    }

    /** Any graph, cyclic or not, on which the walk back of the critical path ends; on
        acyclic ones it always does, as WalkTermination.AcyclicWalkBackEnds says. */
    method ComputeExecutionSchedule() returns (schedule: ExecutionSchedule)
      requires Valid() && WalkBackEnds(Dependencies(nodes), Timeouts(nodes), UsedOrder())
      modifies this`topologicalOrder, this`phases
      ensures Valid() && phases == schedule.phases && topologicalOrder == old(UsedOrder())
      ensures Enumerates(Dependencies(nodes), topologicalOrder)
      ensures PhasesFit(Dependencies(nodes), topologicalOrder, schedule.phases)
      ensures Acyclic(Dependencies(nodes)) ==> PartitionedByDepth(Dependencies(nodes), schedule.phases)
      ensures NonemptyPhases(schedule.phases)
      ensures schedule.estimatedDuration == DurationOf(Timeouts(nodes), schedule.phases, |schedule.phases|)
      ensures exists t :: PhasesFollow(nodes, schedule.phases, t, schedule.estimatedDuration)
      ensures var times := TimesFor(Dependencies(nodes), Timeouts(nodes), topologicalOrder);
              WalkedBack(Dependencies(nodes), times, topologicalOrder, schedule.criticalPath)
    {
      hide DependenciesFirst, Acyclic, Enumerates, PhasesFit, PartitionedByDepth, WalkBackEnds, WalkedBack, TimesFor,
        OrderOf, PhasesFollow, OneAfterAnother;
      var order := ComputeTopologicalOrder();
      var phases' := ComputePhases(Dependencies(nodes), order);
      phases := phases';
      FittingPhasesNonempty(Dependencies(nodes), order, phases);
      var estimatedDuration := EstimateDuration(Timeouts(nodes), phases);
      ghost var t := TimeoutTotals(nodes, order, phases, estimatedDuration);
      order := ComputeTopologicalOrder();
      var criticalPath := FindCriticalPath(Dependencies(nodes), Timeouts(nodes), order);
      schedule := ExecutionSchedule(phases, estimatedDuration, criticalPath);
    }

    method GetExecutionPhases() returns (result: seq<ExecutionPhase>)
      requires Valid()
      requires phases == [] ==> WalkBackEnds(Dependencies(nodes), Timeouts(nodes), UsedOrder())
      modifies this`topologicalOrder, this`phases
      ensures Valid() && result == phases
      ensures old(phases) != [] ==> result == old(phases)
      ensures PhasesFit(Dependencies(nodes), topologicalOrder, result)
      ensures Acyclic(Dependencies(nodes)) ==> PartitionedByDepth(Dependencies(nodes), result)
    {
      hide DependenciesFirst, Acyclic, Enumerates, PhasesFit, PartitionedByDepth, WalkBackEnds, OrderOf;
      if |phases| == 0 {
        var schedule := ComputeExecutionSchedule();
      } else if Acyclic(Dependencies(nodes)) {
        AcyclicPhases(Dependencies(nodes), topologicalOrder, phases);
      }
      result := phases;
    }
  }

  lemma OrderIsFull(nodes: Nodes, order: seq<Id>)
    requires Enumerates(Dependencies(nodes), order)
    ensures |order| == |nodes|
  {
    DistinctCardinality(order);
    assert Dependencies(nodes).Keys == nodes.Keys;
  }

  lemma TimeoutTotals(nodes: Nodes, order: seq<Id>, phases: seq<ExecutionPhase>, duration: nat)
    returns (t: seq<int>)
    requires PhasesFit(Dependencies(nodes), order, phases)
    requires NonemptyPhases(phases)
    requires duration == DurationOf(Timeouts(nodes), phases, |phases|)
    ensures PhasesFollow(nodes, phases, t, duration)
  {
    PhaseMembers(nodes, order, phases);
    hide *;
    t := RunningTotals(Timeouts(nodes), phases, |phases|);
    InTimeouts(nodes, phases, t, duration);
  }

  lemma InTimeouts(nodes: Nodes, phases: seq<ExecutionPhase>, t: seq<int>, end: int)
    requires OneAfterAnother(Timeouts(nodes), phases, |phases|, t, end)
    requires forall p, v :: 0 <= p < |phases| && v in phases[p].nodes ==> v in nodes
    ensures PhasesFollow(nodes, phases, t, end)
  {
    hide PhaseTakes, PhaseLasts, Timeouts;
    forall p {:trigger phases[p]} | 0 <= p < |phases| ensures PhaseLasts(nodes, phases[p].nodes, t[p + 1] - t[p]) {
      TimeoutIsCost(nodes, phases[p].nodes, t[p + 1] - t[p]);
    }
  }

  lemma TimeoutIsCost(nodes: Nodes, members: seq<Id>, d: int)
    requires PhaseTakes(Timeouts(nodes), members, d) && forall v :: v in members ==> v in nodes
    ensures PhaseLasts(nodes, members, d)
  {
    forall v | v in members ensures Cost(Timeouts(nodes), v) == nodes[v].timeout {
    }
  }

  lemma PhaseMembers(nodes: Nodes, order: seq<Id>, phases: seq<ExecutionPhase>)
    requires PhasesFit(Dependencies(nodes), order, phases)
    ensures forall p, v :: 0 <= p < |phases| && v in phases[p].nodes ==> v in nodes
  {
    SettledKeys(Dependencies(nodes), order);
    hide Settled, LongestChain;
  }

  lemma FittingPhasesNonempty(g: Graph, order: seq<Id>, phases: seq<ExecutionPhase>)
    requires PhasesFit(g, order, phases)
    ensures NonemptyPhases(phases)
  {
  }

  lemma ReadyNodesOfNone(nodes: Nodes)
    ensures ReadyNodes(nodes, []) == []
  {
  }

  lemma {:induction false} ReadyNodesAppend(nodes: Nodes, keys: seq<Id>, v: Id)
    ensures ReadyNodes(nodes, keys + [v]) == ReadyNodes(nodes, keys) + ReadyNodes(nodes, [v])
  {
    if keys == [] {
      assert keys + [v] == [v];
    } else {
      assert (keys + [v])[1..] == keys[1..] + [v];
      ReadyNodesAppend(nodes, keys[1..], v);
    }
  }

  /** A cached list as long as the table is a full order, even when both are empty. */
  lemma CachedOrderFits(nodes: Nodes, order: seq<Id>)
    requires order == [] || OrderFits(Dependencies(nodes), order)
    requires |order| == |nodes|
    ensures OrderFits(Dependencies(nodes), order)
  {
    if order == [] {
      assert nodes.Keys == {};
      OrderProvesAcyclic(Dependencies(nodes), order);
    }
  }

  lemma RegisterNone(nodes: Nodes, id: Id)
    ensures Register(nodes, [], id) == nodes
  {
  }

  lemma RegisterOne(nodes: Nodes, dependencies: seq<Id>, i: nat, id: Id)
    requires i < |dependencies|
    ensures Register(nodes, dependencies[..i + 1], id)
         == PushDependent(Register(nodes, dependencies[..i], id), dependencies[i], id)
  {
    var longer := dependencies[..i + 1];
    assert longer[..|longer| - 1] == dependencies[..i];
  }

  lemma AddedTable(nodes: Nodes, keys: seq<Id>, id: Id, taskId: string, dependencies: seq<Id>, timeout: nat)
    requires TableValid(nodes, keys) && id !in nodes && id != ""
    ensures TableValid(Added(nodes, id, taskId, dependencies, timeout), keys + [id])
    ensures Added(nodes, id, taskId, dependencies, timeout)
         == Register(nodes[id := NewNode(id, taskId, dependencies, timeout)], dependencies, id)
  {
    RegisterEffect(nodes[id := NewNode(id, taskId, dependencies, timeout)], dependencies, id, id);
    assert Elements(keys + [id]) == Elements(keys) + {id};
    assert id !in Elements(keys);
  }

  lemma UnregisterNone(nodes: Nodes, id: Id)
    ensures Unregister(nodes, [], id) == nodes
  {
  }

  lemma DetachNone(nodes: Nodes, id: Id)
    ensures Detach(nodes, [], id) == nodes
  {
  }

  lemma UnregisterOne(nodes: Nodes, dependencies: seq<Id>, i: nat, id: Id)
    requires i < |dependencies|
    ensures Unregister(nodes, dependencies[..i + 1], id)
         == DropDependent(Unregister(nodes, dependencies[..i], id), dependencies[i], id)
  {
    var longer := dependencies[..i + 1];
    assert longer[..|longer| - 1] == dependencies[..i];
  }

  lemma DetachOne(nodes: Nodes, dependents: seq<Id>, i: nat, id: Id)
    requires i < |dependents|
    ensures Detach(nodes, dependents[..i + 1], id)
         == DropDependency(Detach(nodes, dependents[..i], id), dependents[i], id)
  {
    var longer := dependents[..i + 1];
    assert longer[..|longer| - 1] == dependents[..i];
  }

  lemma {:induction false} WithoutDistinct(s: seq<Id>, x: Id)
    requires Distinct(s)
    ensures Distinct(Without(s, x)) && Elements(Without(s, x)) == Elements(s) - {x}
  {
    if s != [] {
      WithoutDistinct(s[1..], x);
      assert Elements(s) == {s[0]} + Elements(s[1..]);
      assert s[0] !in Elements(s[1..]);
      var rest := Without(s[1..], x);
      assert Elements([s[0]] + rest) == {s[0]} + Elements(rest);
      assert s[0] !in Elements(rest);
    }
  }

  lemma RemovedTable(nodes: Nodes, keys: seq<Id>, id: Id)
    requires TableValid(nodes, keys) && id in nodes
    ensures TableValid(Removed(nodes, id), Without(keys, id))
  {
    WithoutDistinct(keys, id);
    EditedKeys(nodes, nodes[id].dependencies, id);
    var unregistered := Unregister(nodes, nodes[id].dependencies, id);
    EditedKeys(unregistered, unregistered[id].dependents, id);
  }

  lemma SameKeysValid(nodes: Nodes, keys: seq<Id>, after: Nodes)
    requires TableValid(nodes, keys) && after.Keys == nodes.Keys
    ensures TableValid(after, keys)
  {
  }

  lemma PassedOverNone(nodes: Nodes, keys: seq<Id>, done: Id)
    ensures PassedOver(nodes, nodes, keys, 0, done)
  {
  }

  lemma PassedKeys(before: Nodes, nodes: Nodes, keys: seq<Id>, i: nat, done: Id)
    requires i <= |keys| && PassedOver(before, nodes, keys, i, done)
    ensures nodes.Keys == before.Keys
  {
  }

  lemma ReadyAfterwards(nodes: Nodes, done: Id)
    ensures ReadyAfter(nodes, done).Keys == nodes.Keys
    ensures forall v :: v in nodes ==>
      ReadyAfter(nodes, done)[v] == if Unblocked(nodes, v, done) then nodes[v].(status := Ready) else nodes[v]
  {
  }

  lemma CancelledNodes(nodes: Nodes, chosen: set<Id>, now: nat)
    ensures CancelAll(nodes, chosen, now).Keys == nodes.Keys
    ensures forall v :: v in nodes && v in chosen ==> CancelAll(nodes, chosen, now)[v] == nodes[v].(
      status := Cancelled, endTime := if nodes[v].endTime == 0 then now else nodes[v].endTime)
    ensures forall v :: v in nodes && v !in chosen ==> CancelAll(nodes, chosen, now)[v] == nodes[v]
  {
  }

  lemma CancelNothing(nodes: Nodes, id: Id, now: nat)
    ensures CancelAll(nodes, {}, now) == nodes && CancelledFrom(nodes, id, {})
  {
  }

  lemma CancelOne(nodes: Nodes, id: Id, now: nat)
    requires id in nodes
    ensures UpdateStatus(nodes, id, Cancelled, "", now) == CancelAll(nodes, {id}, now)
    ensures CancelAll(nodes, {id}, now)[id].dependents == nodes[id].dependents
  {
  }

  lemma CancellingShrinks(nodes: Nodes, id: Id, chosen: set<Id>, i: nat, now: nat)
    requires CancellingFrom(nodes, id, chosen, i)
    ensures ActiveNodes(CancelAll(nodes, chosen, now)) < ActiveNodes(nodes)
  {
    CancelAllActive(nodes, chosen, now, id);
    assert id in ActiveNodes(nodes);
  }

  lemma CancellingStart(nodes: Nodes, id: Id, chosen: set<Id>, i: nat)
    requires CancellingFrom(nodes, id, chosen, i)
    ensures id in chosen
  {
  }
}
