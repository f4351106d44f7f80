/** What cancelNode of packages/cli/src/core/collaboration/ExecutionGraph.ts reaches:
    the active nodes connected to the given one through active dependents. */
module Cancellation {
  import opened Graphs
  import opened NodeTable

  /** Neither completed nor cancelled. */
  predicate Active(nodes: Nodes, v: Id) {
    v in nodes && !nodes[v].status.Completed? && !nodes[v].status.Cancelled?
  }

  ghost function ActiveNodes(nodes: Nodes): set<Id> {
    set v | v in nodes && Active(nodes, v)
  }

  function KeepActive(nodes: Nodes, ids: seq<Id>): seq<Id> {
    if ids == [] then []
    else if Active(nodes, ids[0]) then [ids[0]] + KeepActive(nodes, ids[1..])
    else KeepActive(nodes, ids[1..])
  }

  /** From each active node to its active dependents. */
  ghost function ActiveDependents(nodes: Nodes): Graph {
    map v | v in ActiveNodes(nodes) :: KeepActive(nodes, nodes[v].dependents)
  }

  lemma {:induction false} KeepActiveMembers(nodes: Nodes, ids: seq<Id>, v: Id)
    ensures v in KeepActive(nodes, ids) <==> v in ids && Active(nodes, v)
  {
    if ids != [] {
      KeepActiveMembers(nodes, ids[1..], v);
    }
  }

  lemma ActiveEdge(nodes: Nodes, a: Id, b: Id)
    ensures Edge(ActiveDependents(nodes), a, b) <==> Active(nodes, a) && Active(nodes, b) && b in nodes[a].dependents
  {
    if Active(nodes, a) {
      KeepActiveMembers(nodes, nodes[a].dependents, b);
    }
  }

  function CancelAll(nodes: Nodes, chosen: set<Id>, now: nat): Nodes {
    map v | v in nodes :: if v in chosen then WithStatus(nodes[v], Cancelled, "", now) else nodes[v]
  }

  lemma CancelAllTwice(nodes: Nodes, first: set<Id>, second: set<Id>, now: nat)
    requires first !! second
    ensures CancelAll(CancelAll(nodes, first, now), second, now) == CancelAll(nodes, first + second, now)
  {
  }

  lemma CancelAllActive(nodes: Nodes, chosen: set<Id>, now: nat, v: Id)
    requires chosen <= ActiveNodes(nodes)
    ensures Active(CancelAll(nodes, chosen, now), v) <==> Active(nodes, v) && v !in chosen
    ensures ActiveNodes(CancelAll(nodes, chosen, now)) == ActiveNodes(nodes) - chosen
  {
    forall u ensures Active(CancelAll(nodes, chosen, now), u) <==> Active(nodes, u) && u !in chosen {
      assert u in chosen ==> u in ActiveNodes(nodes);
    }
  }

  lemma CancellingShrinksEdges(nodes: Nodes, chosen: set<Id>, now: nat, a: Id, b: Id)
    requires chosen <= ActiveNodes(nodes)
    requires Edge(ActiveDependents(CancelAll(nodes, chosen, now)), a, b)
    ensures Edge(ActiveDependents(nodes), a, b)
  {
    ActiveEdge(CancelAll(nodes, chosen, now), a, b);
    ActiveEdge(nodes, a, b);
    CancelAllActive(nodes, chosen, now, a);
    CancelAllActive(nodes, chosen, now, b);
  }

  /** What is reachable after some cancellations was reachable before them. */
  lemma ReachesShrinks(nodes: Nodes, chosen: set<Id>, now: nat, a: Id, b: Id)
    requires chosen <= ActiveNodes(nodes)
    requires Reaches(ActiveDependents(CancelAll(nodes, chosen, now)), a, b)
    ensures Reaches(ActiveDependents(nodes), a, b)
  {
    var g', g := ActiveDependents(CancelAll(nodes, chosen, now)), ActiveDependents(nodes);
    var w :| WalkBetween(g', a, b, w);
    forall i, j | 0 <= i && j == i + 1 < |w| ensures Edge(g, w[i], w[j]) {
      CancellingShrinksEdges(nodes, chosen, now, w[i], w[j]);
    }
    assert WalkBetween(g, a, b, w);
  }

  /** The cancelled nodes of one call: all of them active and reachable, and every
      active dependent of one of them is one of them. */
  ghost predicate CancelledFrom(nodes: Nodes, id: Id, chosen: set<Id>) {
    && chosen <= ActiveNodes(nodes)
    && (forall v :: v in chosen ==> Reaches(ActiveDependents(nodes), id, v))
    && (forall v, d :: v in chosen && Edge(ActiveDependents(nodes), v, d) ==> d in chosen)
  }

  /** While the dependents of `id` are being visited, the first `i` of them are settled. */
  ghost predicate CancellingFrom(nodes: Nodes, id: Id, chosen: set<Id>, i: nat) {
    && Active(nodes, id) && i <= |nodes[id].dependents|
    && id in chosen && chosen <= ActiveNodes(nodes)
    && (forall v :: v in chosen ==> Reaches(ActiveDependents(nodes), id, v))
    && (forall v, d :: v in chosen && v != id && Edge(ActiveDependents(nodes), v, d) ==> d in chosen)
    && (forall j :: 0 <= j < i && Active(nodes, nodes[id].dependents[j]) ==> nodes[id].dependents[j] in chosen)
  }

  lemma StartCancelling(nodes: Nodes, id: Id)
    requires Active(nodes, id)
    ensures CancellingFrom(nodes, id, {id}, 0)
  {
    ReachesItself(ActiveDependents(nodes), id);
  }

  /** A recursive call on the next dependent adds what that call cancels. */
  lemma AddCancelled(nodes: Nodes, id: Id, chosen: set<Id>, i: nat, more: set<Id>, now: nat)
    requires CancellingFrom(nodes, id, chosen, i) && i < |nodes[id].dependents|
    requires var d := nodes[id].dependents[i]; var current := CancelAll(nodes, chosen, now);
             && CancelledFrom(current, d, more)
             && (Active(current, d) <==> d in more)
             && (d !in more ==> more == {})
    ensures CancellingFrom(nodes, id, chosen + more, i + 1)
    ensures chosen !! more
  {
    var d, current := nodes[id].dependents[i], CancelAll(nodes, chosen, now);
    CancelAllActive(nodes, chosen, now, d);
    forall v | v in more ensures Reaches(ActiveDependents(nodes), id, v) {
      ReachesShrinks(nodes, chosen, now, d, v);
      ActiveEdge(nodes, id, d);
      StepThenReaches(ActiveDependents(nodes), id, d, v);
    }
    forall v, e | v in chosen + more && v != id && Edge(ActiveDependents(nodes), v, e) ensures e in chosen + more {
      if v in more && e !in chosen {
        StillEdge(nodes, chosen, now, v, e);
      }
    }
  }

  lemma StillEdge(nodes: Nodes, chosen: set<Id>, now: nat, v: Id, e: Id)
    requires chosen <= ActiveNodes(nodes) && Edge(ActiveDependents(nodes), v, e) && v !in chosen && e !in chosen
    ensures Edge(ActiveDependents(CancelAll(nodes, chosen, now)), v, e)
  {
    ActiveEdge(nodes, v, e);
    ActiveEdge(CancelAll(nodes, chosen, now), v, e);
  }

  lemma FinishCancelling(nodes: Nodes, id: Id, chosen: set<Id>)
    requires Active(nodes, id) && CancellingFrom(nodes, id, chosen, |nodes[id].dependents|)
    ensures CancelledFrom(nodes, id, chosen)
  {
    forall v, d | v in chosen && Edge(ActiveDependents(nodes), v, d) ensures d in chosen {
      ActiveEdge(nodes, v, d);
    }
  }

  /** Such a set is exactly what is reachable. */
  lemma CancelledIsReachable(nodes: Nodes, id: Id, chosen: set<Id>, v: Id)
    requires CancelledFrom(nodes, id, chosen) && id in chosen
    ensures v in chosen <==> Reaches(ActiveDependents(nodes), id, v)
  {
    if Reaches(ActiveDependents(nodes), id, v) {
      var w :| WalkBetween(ActiveDependents(nodes), id, v, w);
      ClosedSetKeepsWalk(ActiveDependents(nodes), chosen, w, |w| - 1);
    }
  }

  lemma {:induction false} ClosedSetKeepsWalk(g: Graph, s: set<Id>, w: seq<Id>, i: nat)
    requires Walk(g, w) && w[0] in s && i < |w|
    requires forall v, d :: v in s && Edge(g, v, d) ==> d in s
    ensures w[i] in s
  {
    if i > 0 {
      ClosedSetKeepsWalk(g, s, w, i - 1);
      assert Edge(g, w[i - 1], w[i]);
    }
  }
}
