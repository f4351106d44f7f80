/** Removing a node while the graph is being executed: removeNode of
    packages/cli/src/core/collaboration/ExecutionGraph.ts (lines 469-493) edits the
    dependency lists but never looks at readiness again. */
module Stranding {
  import opened Graphs
  import opened NodeTable
  import opened GraphEditing
  import opened Readiness

  /** A pending node that waits for nothing else any more. */
  predicate WaitsOnlyFor(nodes: Nodes, v: Id, id: Id)
    requires v in nodes
  {
    nodes[v].status.Pending? && forall d :: d in nodes[v].dependencies && !IsCompleted(nodes, d) ==> d == id
  }

  /** Pending, although every dependency is completed. */
  predicate Stranded(nodes: Nodes, v: Id) {
    v in nodes && nodes[v].status.Pending? && AllCompleted(nodes, nodes[v].dependencies)
  }

  lemma CompletedAfterRemoval(nodes: Nodes, id: Id, d: Id)
    requires Mirrored(nodes) && id in nodes
    ensures IsCompleted(Removed(nodes, id), d) <==> d != id && IsCompleted(nodes, d)
  {
    RemovedEffect(nodes, id, d);
    hide Removed, Mirrored, Without;
  }

  lemma OpenAfterRemoval(nodes: Nodes, id: Id, v: Id)
    requires Mirrored(nodes) && id in nodes && v in nodes && v != id
    ensures var after := Removed(nodes, id);
            && v in after && after[v].status == nodes[v].status
            && (AllCompleted(after, after[v].dependencies) <==>
                forall d :: d in nodes[v].dependencies && !IsCompleted(nodes, d) ==> d == id)
  {
    hide Removed, Mirrored, Without, IsCompleted;
    RemovedEffect(nodes, id, v);
    var after := Removed(nodes, id);
    forall d ensures d in after[v].dependencies <==> d in nodes[v].dependencies && d != id {
      WithoutMember(nodes[v].dependencies, id, d);
    }
    forall d ensures IsCompleted(after, d) <==> d != id && IsCompleted(nodes, d) {
      CompletedAfterRemoval(nodes, id, d);
    }
  }

  /** Removing a node keeps a coherent table coherent exactly when it is not all that some
      pending node still waits for. */
  lemma RemovalKeepsCoherentIff(nodes: Nodes, id: Id)
    requires Coherent(nodes) && Mirrored(nodes) && id in nodes
    ensures Coherent(Removed(nodes, id)) <==> forall v :: v in nodes && v != id ==> !WaitsOnlyFor(nodes, v, id)
  {
    hide Removed, Mirrored, AllCompleted, IsCompleted;
    var after := Removed(nodes, id);
    RemovedEffect(nodes, id, id);
    forall v | v in after
      ensures after[v].status == nodes[v].status
      ensures nodes[v].status.Pending? ==> (AllCompleted(after, after[v].dependencies) <==> WaitsOnlyFor(nodes, v, id))
      ensures !nodes[v].status.Pending? ==> AllCompleted(after, after[v].dependencies)
    {
      OpenAfterRemoval(nodes, id, v);
      StartedHasNoOpenDependency(nodes, v);
    }
    forall v | v in nodes && v != id ensures v in after {
    }
  }

  lemma StartedHasNoOpenDependency(nodes: Nodes, v: Id)
    requires Coherent(nodes) && v in nodes
    ensures !nodes[v].status.Pending? ==> forall d :: d in nodes[v].dependencies ==> IsCompleted(nodes, d)
  {
  }

  /** What waited only for the removed node is left stranded. */
  lemma RemovalStrands(nodes: Nodes, id: Id, v: Id)
    requires Mirrored(nodes) && id in nodes && v in nodes && v != id && WaitsOnlyFor(nodes, v, id)
    ensures Stranded(Removed(nodes, id), v)
  {
    hide Removed, Mirrored, AllCompleted, IsCompleted;
    OpenAfterRemoval(nodes, id, v);
  }

  lemma MoveLeavesStranded(nodes: Nodes, m: Move, now: nat, v: Id)
    requires Stranded(nodes, v) && Enabled(nodes, m)
    ensures Stranded(Apply(nodes, m, now), v)
  {
    var after := Apply(nodes, m, now);
    assert m.id !in nodes[v].dependencies by {
      assert !IsCompleted(nodes, m.id);
    }
    assert after[v] == nodes[v];
    forall d | d in nodes[v].dependencies ensures IsCompleted(after, d) {
      StartCompletes(nodes, m, now, d);
    }
  }

  /** And it stays so: whatever run follows, a stranded node never becomes ready. */
  lemma {:induction false} StrandedForEver(nodes: Nodes, run: seq<TimedMove>, v: Id)
    requires Stranded(nodes, v) && Legal(nodes, run)
    ensures Stranded(Execute(nodes, run), v)
  {
    if run != [] {
      hide Stranded;
      MoveLeavesStranded(nodes, run[0].move, run[0].now, v);
      StrandedForEver(Apply(nodes, run[0].move, run[0].now), run[1..], v);
    }
  }

  /** The smallest case: of a node and its one dependency, which is ready, the dependency is
      removed.  No move is possible any more, and the node has not been started. */
  lemma RemovedDependencyStrands(d: Id, s: Id, timeout: nat)
    requires d != s
    ensures var nodes := TwoNodes(d, s, timeout);
            && Launched(nodes) && WellLinked(nodes)
            && Removed(nodes, d).Keys == {s} && Stranded(Removed(nodes, d), s)
            && forall m :: !Enabled(Removed(nodes, d), m)
  {
    var nodes := TwoNodes(d, s, timeout);
    PairIsWellLinked(d, s, timeout);
    assert WaitsOnlyFor(nodes, s, d);
    RemovalStrands(nodes, d, s);
    RemovedEffect(nodes, d, s);
    hide Removed, WellLinked;
  }

  /** A node `d` without dependencies and a node `s` that depends on it. */
  function TwoNodes(d: Id, s: Id, timeout: nat): Nodes {
    map[d := NewNode(d, "", [], timeout).(status := Ready, dependents := [s]),
        s := NewNode(s, "", [d], timeout)]
  }

  lemma PairIsWellLinked(d: Id, s: Id, timeout: nat)
    requires d != s
    ensures WellLinked(TwoNodes(d, s, timeout))
  {
    hide Mirrored, NothingDangles, Acyclic;
    PairIsMirrored(d, s, timeout);
    PairDanglesNothing(d, s, timeout);
    PairIsAcyclic(d, s, timeout);
  }

  lemma PairIsMirrored(d: Id, s: Id, timeout: nat)
    requires d != s
    ensures Mirrored(TwoNodes(d, s, timeout))
  {
    assert forall x, y :: Occurrences([x], y) == if x == y then 1 else 0;
    assert forall y :: Occurrences([], y) == 0;
    hide Occurrences;
  }

  lemma PairDanglesNothing(d: Id, s: Id, timeout: nat)
    requires d != s
    ensures NothingDangles(TwoNodes(d, s, timeout))
  {
  }

  lemma PairIsAcyclic(d: Id, s: Id, timeout: nat)
    requires d != s
    ensures Acyclic(Dependencies(TwoNodes(d, s, timeout)))
  {
    hide Acyclic;
    RankedIsAcyclic(Dependencies(TwoNodes(d, s, timeout)), v => if v == s then 1 else 0);
  }
}
