/** Adding and removing nodes (addNode, removeNode and clear of
    packages/cli/src/core/collaboration/ExecutionGraph.ts): the two adjacency lists
    stay exact inverses, nothing dangles and the graph stays acyclic. */
module GraphEditing {
  import opened Graphs
  import opened NodeTable

  function Without(s: seq<Id>, x: Id): seq<Id> {
    if s == [] then []
    else if s[0] == x then Without(s[1..], x)
    else [s[0]] + Without(s[1..], x)
  }

  function Occurrences(s: seq<Id>, x: Id): nat {
    multiset(s)[x]
  }

  lemma {:induction false} WithoutOccurrences(s: seq<Id>, x: Id, y: Id)
    ensures Occurrences(Without(s, x), y) == if y == x then 0 else Occurrences(s, y)
  {
    if s != [] {
      assert s == [s[0]] + s[1..];
      WithoutOccurrences(s[1..], x, y);
    }
  }

  lemma OccursIff(s: seq<Id>, x: Id)
    ensures x in s <==> Occurrences(s, x) > 0
  {
  }

  lemma {:induction false} WithoutAbsent(s: seq<Id>, x: Id)
    requires x !in s
    ensures Without(s, x) == s
  {
    if s != [] {
      WithoutAbsent(s[1..], x);
    }
  }

  /** Each dependency edge is recorded as often on the one side as on the other. */
  ghost predicate Mirrored(nodes: Nodes) {
    forall a, b :: a in nodes && b in nodes ==>
      Occurrences(nodes[a].dependencies, b) == Occurrences(nodes[b].dependents, a)
  }

  ghost predicate NothingDangles(nodes: Nodes) {
    forall a, b :: a in nodes && (b in nodes[a].dependencies || b in nodes[a].dependents) ==> b in nodes
  }

  ghost predicate WellLinked(nodes: Nodes) {
    Mirrored(nodes) && NothingDangles(nodes) && Acyclic(Dependencies(nodes))
  }

  function PushDependent(nodes: Nodes, d: Id, id: Id): Nodes {
    if d in nodes then nodes[d := nodes[d].(dependents := nodes[d].dependents + [id])] else nodes
  }

  /** Registers `id` with each of the dependencies, in order. */
  function Register(nodes: Nodes, dependencies: seq<Id>, id: Id): Nodes {
    if dependencies == [] then nodes
    else PushDependent(Register(nodes, dependencies[..|dependencies| - 1], id), dependencies[|dependencies| - 1], id)
  }

  function NewNode(id: Id, taskId: string, dependencies: seq<Id>, timeout: nat): Node {
    Node(id, taskId, Pending, dependencies, [], timeout, 0, 0, "")
  }

  function Added(nodes: Nodes, id: Id, taskId: string, dependencies: seq<Id>, timeout: nat): Nodes {
    Register(nodes[id := NewNode(id, taskId, dependencies, timeout)], dependencies, id)
  }

  lemma {:induction false} RegisterEffect(nodes: Nodes, dependencies: seq<Id>, id: Id, v: Id)
    ensures Register(nodes, dependencies, id).Keys == nodes.Keys
    ensures v in nodes ==>
      && Register(nodes, dependencies, id)[v].dependencies == nodes[v].dependencies
      && forall x :: Occurrences(Register(nodes, dependencies, id)[v].dependents, x)
           == Occurrences(nodes[v].dependents, x) + if x == id then Occurrences(dependencies, v) else 0
    decreases |dependencies|
  {
    if dependencies != [] {
      var front, last := dependencies[..|dependencies| - 1], dependencies[|dependencies| - 1];
      assert dependencies == front + [last];
      RegisterEffect(nodes, front, id, v);
    }
  }

  lemma {:induction false} RegisterKeepsTheRest(nodes: Nodes, dependencies: seq<Id>, id: Id, v: Id)
    requires v in nodes && v !in dependencies
    ensures v in Register(nodes, dependencies, id) && Register(nodes, dependencies, id)[v] == nodes[v]
    decreases |dependencies|
  {
    if dependencies != [] {
      RegisterKeepsTheRest(nodes, dependencies[..|dependencies| - 1], id, v);
    }
  }

  lemma AddedEffect(nodes: Nodes, id: Id, taskId: string, dependencies: seq<Id>, timeout: nat, v: Id)
    requires id !in nodes && id !in dependencies
    ensures Added(nodes, id, taskId, dependencies, timeout).Keys == nodes.Keys + {id}
    ensures v in nodes ==>
      && Added(nodes, id, taskId, dependencies, timeout)[v].dependencies == nodes[v].dependencies
      && forall x :: Occurrences(Added(nodes, id, taskId, dependencies, timeout)[v].dependents, x)
           == Occurrences(nodes[v].dependents, x) + if x == id then Occurrences(dependencies, v) else 0
    ensures Added(nodes, id, taskId, dependencies, timeout)[id] == NewNode(id, taskId, dependencies, timeout)
  {
    var extended := nodes[id := NewNode(id, taskId, dependencies, timeout)];
    RegisterEffect(extended, dependencies, id, v);
    RegisterKeepsTheRest(extended, dependencies, id, id);
  }

  lemma AddMirrorsPair(nodes: Nodes, id: Id, taskId: string, dependencies: seq<Id>, timeout: nat, a: Id, b: Id)
    requires Mirrored(nodes) && NothingDangles(nodes) && id !in nodes && id !in dependencies
    requires a in nodes.Keys + {id} && b in nodes.Keys + {id}
    ensures var after := Added(nodes, id, taskId, dependencies, timeout);
            && after.Keys == nodes.Keys + {id}
            && Occurrences(after[a].dependencies, b) == Occurrences(after[b].dependents, a)
  {
    hide Added, Mirrored, NothingDangles;
    AddedEffect(nodes, id, taskId, dependencies, timeout, a);
    AddedEffect(nodes, id, taskId, dependencies, timeout, b);
    if a in nodes && b in nodes {
      MirroredPair(nodes, a, b);
    } else if a in nodes {
      UnknownNeverOccurs(nodes, id, a);
    } else if b in nodes {
      UnknownNeverOccurs(nodes, id, b);
    }
  }

  lemma MirroredPair(nodes: Nodes, a: Id, b: Id)
    requires Mirrored(nodes) && a in nodes && b in nodes
    ensures Occurrences(nodes[a].dependencies, b) == Occurrences(nodes[b].dependents, a)
  {
  }

  lemma UnknownNeverOccurs(nodes: Nodes, id: Id, v: Id)
    requires NothingDangles(nodes) && id !in nodes && v in nodes
    ensures Occurrences(nodes[v].dependencies, id) == Occurrences(nodes[v].dependents, id) == 0
  {
  }

  lemma AddKeepsMirrored(nodes: Nodes, id: Id, taskId: string, dependencies: seq<Id>, timeout: nat)
    requires Mirrored(nodes) && NothingDangles(nodes) && id !in nodes
    requires forall d :: d in dependencies ==> d in nodes
    ensures Mirrored(Added(nodes, id, taskId, dependencies, timeout))
  {
    hide Added;
    var after := Added(nodes, id, taskId, dependencies, timeout);
    AddedEffect(nodes, id, taskId, dependencies, timeout, id);
    forall a, b | a in after && b in after
      ensures Occurrences(after[a].dependencies, b) == Occurrences(after[b].dependents, a)
    {
      AddMirrorsPair(nodes, id, taskId, dependencies, timeout, a, b);
    }
  }

  lemma AddDanglesNothing(nodes: Nodes, id: Id, taskId: string, dependencies: seq<Id>, timeout: nat)
    requires NothingDangles(nodes) && id !in nodes
    requires forall d :: d in dependencies ==> d in nodes
    ensures NothingDangles(Added(nodes, id, taskId, dependencies, timeout))
  {
    hide Added, NothingDangles;
    var after := Added(nodes, id, taskId, dependencies, timeout);
    AddedEffect(nodes, id, taskId, dependencies, timeout, id);
    forall a, b | a in after && (b in after[a].dependencies || b in after[a].dependents) ensures b in after {
      AddedEffect(nodes, id, taskId, dependencies, timeout, a);
      if a in nodes && b !in nodes {
        UnknownNeverOccurs(nodes, b, a);
        OccursIff(after[a].dependents, b);
      }
    }
    DanglesNot(after);
  }

  lemma DanglesNot(nodes: Nodes)
    requires forall a, b :: a in nodes && (b in nodes[a].dependencies || b in nodes[a].dependents) ==> b in nodes
    ensures NothingDangles(nodes)
  {
  }

  /** A fresh node is nobody's dependency, so no closed walk can pass through it. */
  lemma AddKeepsAcyclic(nodes: Nodes, id: Id, taskId: string, dependencies: seq<Id>, timeout: nat)
    requires NothingDangles(nodes) && id !in nodes && Acyclic(Dependencies(nodes))
    requires forall d :: d in dependencies ==> d in nodes
    ensures Acyclic(Dependencies(Added(nodes, id, taskId, dependencies, timeout)))
  {
    hide Added;
    var g, after := Dependencies(nodes), Dependencies(Added(nodes, id, taskId, dependencies, timeout));
    forall a, b ensures Edge(after, a, b) ==> b != id && (a != id ==> Edge(g, a, b)) {
      AddedEffect(nodes, id, taskId, dependencies, timeout, a);
    }
    forall w ensures !ClosedWalk(after, w) {
      if ClosedWalk(after, w) {
        FreshNodeOffCycle(g, after, id, w);
      }
    }
  }

  lemma FreshNodeOffCycle(g: Graph, after: Graph, id: Id, w: seq<Id>)
    requires forall a, b :: Edge(after, a, b) ==> b != id && (a != id ==> Edge(g, a, b))
    requires ClosedWalk(after, w)
    ensures ClosedWalk(g, w)
  {
    forall i | 0 <= i < |w| ensures w[i] != id {
      if i > 0 {
        assert Edge(after, w[i - 1], w[i]);
      } else {
        assert Edge(after, w[|w| - 2], w[|w| - 1]);
      }
    }
  }

  function DropDependent(nodes: Nodes, d: Id, id: Id): Nodes {
    if d in nodes then nodes[d := nodes[d].(dependents := Without(nodes[d].dependents, id))] else nodes
  }

  function DropDependency(nodes: Nodes, d: Id, id: Id): Nodes {
    if d in nodes then nodes[d := nodes[d].(dependencies := Without(nodes[d].dependencies, id))] else nodes
  }

  function Unregister(nodes: Nodes, dependencies: seq<Id>, id: Id): Nodes {
    if dependencies == [] then nodes
    else DropDependent(Unregister(nodes, dependencies[..|dependencies| - 1], id), dependencies[|dependencies| - 1], id)
  }

  function Detach(nodes: Nodes, dependents: seq<Id>, id: Id): Nodes {
    if dependents == [] then nodes
    else DropDependency(Detach(nodes, dependents[..|dependents| - 1], id), dependents[|dependents| - 1], id)
  }

  /** removeNode as a function of the table: only the recorded neighbours are edited. */
  function Removed(nodes: Nodes, id: Id): Nodes {
    if id !in nodes then nodes
    else
      var unregistered := Unregister(nodes, nodes[id].dependencies, id);
      (if id in unregistered then Detach(unregistered, unregistered[id].dependents, id) else unregistered) - {id}
  }

  lemma {:induction false} UnregisterEffect(nodes: Nodes, dependencies: seq<Id>, id: Id, v: Id)
    requires v in nodes
    ensures v in Unregister(nodes, dependencies, id)
    ensures Unregister(nodes, dependencies, id)[v] ==
      if v in dependencies then nodes[v].(dependents := Without(nodes[v].dependents, id)) else nodes[v]
    decreases |dependencies|
  {
    if dependencies != [] {
      var front, last := dependencies[..|dependencies| - 1], dependencies[|dependencies| - 1];
      UnregisterEffect(nodes, front, id, v);
      WithoutOccurrences(nodes[v].dependents, id, id);
      WithoutAbsent(Without(nodes[v].dependents, id), id);
    }
  }

  lemma {:induction false} DetachEffect(nodes: Nodes, dependents: seq<Id>, id: Id, v: Id)
    requires v in nodes
    ensures v in Detach(nodes, dependents, id)
    ensures Detach(nodes, dependents, id)[v] ==
      if v in dependents then nodes[v].(dependencies := Without(nodes[v].dependencies, id)) else nodes[v]
    decreases |dependents|
  {
    if dependents != [] {
      var front, last := dependents[..|dependents| - 1], dependents[|dependents| - 1];
      DetachEffect(nodes, front, id, v);
      WithoutOccurrences(nodes[v].dependencies, id, id);
      WithoutAbsent(Without(nodes[v].dependencies, id), id);
    }
  }

  lemma {:induction false} EditedKeys(nodes: Nodes, ids: seq<Id>, id: Id)
    ensures Unregister(nodes, ids, id).Keys == nodes.Keys && Detach(nodes, ids, id).Keys == nodes.Keys
    decreases |ids|
  {
    if ids != [] {
      EditedKeys(nodes, ids[..|ids| - 1], id);
    }
  }

  function Erased(node: Node, id: Id): Node {
    node.(dependencies := Without(node.dependencies, id), dependents := Without(node.dependents, id))
  }

  /** Editing only the recorded neighbours erases the node from every list there is. */
  lemma RemovedEffect(nodes: Nodes, id: Id, v: Id)
    requires Mirrored(nodes) && id in nodes
    ensures Removed(nodes, id).Keys == nodes.Keys - {id}
    ensures v in nodes && v != id ==> Removed(nodes, id)[v] == Erased(nodes[v], id)
  {
    hide Unregister, Detach, Without, Mirrored;
    var unregistered := Unregister(nodes, nodes[id].dependencies, id);
    EditedKeys(nodes, nodes[id].dependencies, id);
    EditedKeys(unregistered, unregistered[id].dependents, id);
    if v in nodes && v != id {
      UnregisterEffect(nodes, nodes[id].dependencies, id, v);
      UnregisterEffect(nodes, nodes[id].dependencies, id, id);
      DetachEffect(unregistered, unregistered[id].dependents, id, v);
      WithoutOthers(nodes[id].dependents, id, v);
      NeighboursAgree(nodes, id, v);
    }
  }

  lemma WithoutOthers(s: seq<Id>, x: Id, y: Id)
    requires y != x
    ensures y in Without(s, x) <==> y in s
  {
    WithoutOccurrences(s, x, y);
    OccursIff(s, y);
    OccursIff(Without(s, x), y);
  }

  lemma NeighboursAgree(nodes: Nodes, id: Id, v: Id)
    requires Mirrored(nodes) && id in nodes && v in nodes
    ensures v !in nodes[id].dependencies ==> Without(nodes[v].dependents, id) == nodes[v].dependents
    ensures v !in nodes[id].dependents ==> Without(nodes[v].dependencies, id) == nodes[v].dependencies
  {
    MirroredPair(nodes, id, v);
    MirroredPair(nodes, v, id);
    if v !in nodes[id].dependencies {
      OccursIff(nodes[v].dependents, id);
      WithoutAbsent(nodes[v].dependents, id);
    }
    if v !in nodes[id].dependents {
      OccursIff(nodes[v].dependencies, id);
      WithoutAbsent(nodes[v].dependencies, id);
    }
  }

  lemma RemoveKeepsWellLinked(nodes: Nodes, id: Id)
    requires WellLinked(nodes) && id in nodes
    ensures WellLinked(Removed(nodes, id))
  {
    RemoveKeepsMirrored(nodes, id);
    RemoveDanglesNothing(nodes, id);
    RemoveKeepsAcyclic(nodes, id);
  }

  lemma RemoveKeepsMirrored(nodes: Nodes, id: Id)
    requires Mirrored(nodes) && id in nodes
    ensures Mirrored(Removed(nodes, id))
  {
    hide Removed;
    var after := Removed(nodes, id);
    RemovedEffect(nodes, id, id);
    forall a, b | a in after && b in after
      ensures Occurrences(after[a].dependencies, b) == Occurrences(after[b].dependents, a)
    {
      RemovedEffect(nodes, id, a);
      RemovedEffect(nodes, id, b);
      WithoutOccurrences(nodes[a].dependencies, id, b);
      WithoutOccurrences(nodes[b].dependents, id, a);
      MirroredPair(nodes, a, b);
    }
  }

  lemma RemoveDanglesNothing(nodes: Nodes, id: Id)
    requires Mirrored(nodes) && NothingDangles(nodes) && id in nodes
    ensures NothingDangles(Removed(nodes, id))
  {
    hide Removed, Mirrored;
    var after := Removed(nodes, id);
    RemovedEffect(nodes, id, id);
    forall a, b | a in after && (b in after[a].dependencies || b in after[a].dependents) ensures b in after {
      RemovedEffect(nodes, id, a);
      WithoutMember(nodes[a].dependencies, id, b);
      WithoutMember(nodes[a].dependents, id, b);
    }
    DanglesNot(after);
  }

  lemma WithoutMember(s: seq<Id>, x: Id, y: Id)
    ensures y in Without(s, x) <==> y in s && y != x
  {
    WithoutOccurrences(s, x, y);
    OccursIff(s, y);
    OccursIff(Without(s, x), y);
  }

  lemma RemoveKeepsAcyclic(nodes: Nodes, id: Id)
    requires Mirrored(nodes) && id in nodes && Acyclic(Dependencies(nodes))
    ensures Acyclic(Dependencies(Removed(nodes, id)))
  {
    hide Removed, Mirrored;
    var g, after := Dependencies(nodes), Dependencies(Removed(nodes, id));
    RemovedEffect(nodes, id, id);
    forall a, b | Edge(after, a, b) ensures Edge(g, a, b) {
      RemovedEffect(nodes, id, a);
      WithoutMember(nodes[a].dependencies, id, b);
    }
    forall w ensures !ClosedWalk(after, w) {
      assert ClosedWalk(after, w) ==> ClosedWalk(g, w);
    }
  }

  datatype Edit =
    | Add(id: Id, taskId: string, dependencies: seq<Id>, timeout: nat)
    | Remove(id: Id)
    | Clear

  function ApplyEdit(nodes: Nodes, e: Edit): Nodes {
    match e
    case Add(id, taskId, dependencies, timeout) => Added(nodes, id, taskId, dependencies, timeout)
    case Remove(id) => Removed(nodes, id)
    case Clear => map[]
  }

  /** New identifiers are fresh and dependencies exist; removals and clearing are free. */
  predicate EditAllowed(nodes: Nodes, e: Edit) {
    e.Add? ==> e.id !in nodes && forall d :: d in e.dependencies ==> d in nodes
  }

  function ApplyEdits(nodes: Nodes, edits: seq<Edit>): Nodes
    decreases |edits|
  {
    if edits == [] then nodes else ApplyEdits(ApplyEdit(nodes, edits[0]), edits[1..])
  }

  predicate EditsAllowed(nodes: Nodes, edits: seq<Edit>)
    decreases |edits|
  {
    edits != [] ==> EditAllowed(nodes, edits[0]) && EditsAllowed(ApplyEdit(nodes, edits[0]), edits[1..])
  }

  lemma EditKeepsWellLinked(nodes: Nodes, e: Edit)
    requires WellLinked(nodes) && EditAllowed(nodes, e)
    ensures WellLinked(ApplyEdit(nodes, e))
  {
    match e
    case Add(id, taskId, dependencies, timeout) =>
      AddKeepsMirrored(nodes, id, taskId, dependencies, timeout);
      AddDanglesNothing(nodes, id, taskId, dependencies, timeout);
      AddKeepsAcyclic(nodes, id, taskId, dependencies, timeout);
    case Remove(id) =>
      if id in nodes {
        RemoveKeepsWellLinked(nodes, id);
      }
    case Clear =>
      EmptyIsWellLinked();
  }

  lemma EmptyIsWellLinked()
    ensures WellLinked(map[])
  {
    RankedIsAcyclic(Dependencies(map[]), v => 0);
  }

  /** Any sequence of edits, from the empty graph on, leaves a well-linked graph. */
  lemma {:induction false} EditsKeepWellLinked(nodes: Nodes, edits: seq<Edit>)
    requires WellLinked(nodes) && EditsAllowed(nodes, edits)
    ensures WellLinked(ApplyEdits(nodes, edits))
    decreases |edits|
  {
    if edits != [] {
      hide WellLinked, EditAllowed, ApplyEdit;
      EditKeepsWellLinked(nodes, edits[0]);
      EditsKeepWellLinked(ApplyEdit(nodes, edits[0]), edits[1..]);
    }
  }
}
