/** The path query of packages/cli/src/core/cognitive-graph/GraphQueryEngine.ts: a
    breadth-first search whose queue carries the path to each discovered node. */
module GraphQuery {
  import opened Wrappers
  import opened Graphs

  datatype GraphEdge = GraphEdge(from: Id, to: Id, kind: string)

  datatype Visit = Visit(id: Id, path: seq<Id>)

  function Outgoing(edges: seq<GraphEdge>, id: Id): seq<GraphEdge> {
    if edges == [] then []
    else if edges[0].from == id then [edges[0]] + Outgoing(edges[1..], id)
    else Outgoing(edges[1..], id)
  }

  function Targets(edges: seq<GraphEdge>): seq<Id> {
    seq(|edges|, i requires 0 <= i < |edges| => edges[i].to)
  }

  function Adjacency(edges: seq<GraphEdge>): Graph {
    map v | v in (set e | e in edges :: e.from) :: Targets(Outgoing(edges, v))
  }

  lemma {:induction false} OutgoingIsFilter(edges: seq<GraphEdge>, id: Id, e: GraphEdge)
    ensures e in Outgoing(edges, id) <==> e in edges && e.from == id
  {
    if edges != [] {
      OutgoingIsFilter(edges[1..], id, e);
    }
  }

  /** The adjacency map has exactly the edges of the snapshot. */
  lemma AdjacencyEdges(edges: seq<GraphEdge>, a: Id, b: Id)
    ensures Edge(Adjacency(edges), a, b) <==> exists e :: e in edges && e.from == a && e.to == b
    ensures Edge(Adjacency(edges), a, b) <==> b in Targets(Outgoing(edges, a))
  {
    var out := Outgoing(edges, a);
    if b in Targets(out) {
      var i :| 0 <= i < |out| && Targets(out)[i] == b;
      OutgoingIsFilter(edges, a, out[i]);
    }
    if e :| e in edges && e.from == a && e.to == b {
      OutgoingIsFilter(edges, a, e);
      var i :| 0 <= i < |out| && out[i] == e;
      assert Targets(out)[i] == b;
    }
  }

  lemma AdjacencyTargets(edges: seq<GraphEdge>, a: Id)
    ensures Succ(Adjacency(edges), a) == Targets(Outgoing(edges, a))
  {
    if a !in Adjacency(edges) && Outgoing(edges, a) != [] {
      OutgoingIsFilter(edges, a, Outgoing(edges, a)[0]);
    }
  }

  /** The bookkeeping of the search.  `dist` remembers, for every visited node, the
      number of edges of the path it was queued with. */
  ghost predicate SearchState(g: Graph, from: Id, queue: seq<Visit>, visited: set<Id>, dist: map<Id, nat>) {
    && dist.Keys == visited
    && from in visited && dist[from] == 0
    && (forall i :: 0 <= i < |queue| ==>
          && queue[i].id in visited
          && WalkBetween(g, from, queue[i].id, queue[i].path)
          && |queue[i].path| == dist[queue[i].id] + 1)
  }

  /** Queue entries come in order of distance and lie between `low` and `low + 1`. */
  ghost predicate Layered(queue: seq<Visit>, low: nat) {
    && (forall i :: 0 <= i < |queue| ==> low + 1 <= |queue[i].path| <= low + 2)
    && (forall i, j :: 0 <= i < j < |queue| ==> |queue[i].path| <= |queue[j].path|)
  }

  /** Every edge out of a processed node leads to a visited node at most one further away. */
  ghost predicate Explored(g: Graph, processed: set<Id>, dist: map<Id, nat>) {
    && processed <= dist.Keys
    && forall a, b :: a in processed && Edge(g, a, b) ==> b in dist && dist[b] <= dist[a] + 1
  }

  ghost predicate Queued(queue: seq<Visit>, v: Id) {
    exists i :: 0 <= i < |queue| && queue[i].id == v
  }

  ghost predicate Covered(queue: seq<Visit>, processed: set<Id>, visited: set<Id>) {
    forall v :: v in visited && v !in processed ==> Queued(queue, v)
  }

  /** A walk to an unprocessed node is at least as long as the distance of some queued node. */
  lemma {:induction false} WalkLeavesProcessed(g: Graph, processed: set<Id>, dist: map<Id, nat>, w: seq<Id>, k: nat)
    returns (j: nat)
    requires Explored(g, processed, dist)
    requires Walk(g, w) && k < |w|
    requires w[k] in dist && dist[w[k]] <= k
    requires w[|w| - 1] !in processed
    ensures k <= j < |w| && w[j] in dist && w[j] !in processed && dist[w[j]] <= j
    decreases |w| - k
  {
    if w[k] !in processed {
      j := k;
    } else {
      assert Edge(g, w[k], w[k + 1]);
      j := WalkLeavesProcessed(g, processed, dist, w, k + 1);
    }
  }

  ghost predicate ShortestBetween(g: Graph, from: Id, to: Id, p: seq<Id>) {
    && WalkBetween(g, from, to, p)
    && forall w :: WalkBetween(g, from, to, w) ==> |p| <= |w|
  }

  /** The loop invariant of the search: `processed` are the nodes taken off the queue
      for good and `low` is the distance of the last of them. */
  ghost predicate Searching(g: Graph, from: Id, queue: seq<Visit>, visited: set<Id>, dist: map<Id, nat>,
                            processed: set<Id>, low: nat) {
    && SearchState(g, from, queue, visited, dist)
    && Layered(queue, low)
    && Explored(g, processed, dist)
    && (forall a :: a in processed ==> dist[a] <= low)
    && Covered(queue, processed, visited)
  }

  /** The same, while the successors of `current` are being looked at; `done` of them are. */
  ghost predicate Expanding(g: Graph, from: Id, queue: seq<Visit>, visited: set<Id>, dist: map<Id, nat>,
                            processed: set<Id>, current: Visit, done: seq<Id>) {
    && WalkBetween(g, from, current.id, current.path)
    && current.id in visited
    && dist.Keys == visited
    && dist[current.id] + 1 == |current.path|
    && SearchState(g, from, queue, visited, dist)
    && Layered(queue, dist[current.id])
    && Explored(g, processed, dist)
    && (forall a :: a in processed ==> dist[a] <= dist[current.id])
    && Covered(queue, processed + {current.id}, visited)
    && forall b :: b in done ==> b in dist && dist[b] <= |current.path|
  }

  lemma TakeHead(g: Graph, from: Id, queue: seq<Visit>, visited: set<Id>, dist: map<Id, nat>,
                 processed: set<Id>, low: nat)
    requires Searching(g, from, queue, visited, dist, processed, low) && |queue| > 0
    ensures Expanding(g, from, queue[1..], visited, dist, processed, queue[0], [])
  {
    forall v | v in visited && v !in processed + {queue[0].id} ensures Queued(queue[1..], v) {
      assert Queued(queue, v);
      var i :| 0 <= i < |queue| && queue[i].id == v;
      assert queue[1..][i - 1].id == v;
    }
  }

  lemma SkipVisited(g: Graph, from: Id, queue: seq<Visit>, visited: set<Id>, dist: map<Id, nat>,
                    processed: set<Id>, current: Visit, done: seq<Id>, b: Id)
    requires Expanding(g, from, queue, visited, dist, processed, current, done)
    requires b in visited
    ensures Expanding(g, from, queue, visited, dist, processed, current, done + [b])
  {
    if b !in processed + {current.id} {
      assert Queued(queue, b);
    }
  }

  lemma Discover(g: Graph, from: Id, queue: seq<Visit>, visited: set<Id>, dist: map<Id, nat>,
                 processed: set<Id>, current: Visit, done: seq<Id>, b: Id)
    requires Expanding(g, from, queue, visited, dist, processed, current, done)
    requires b !in visited && Edge(g, current.id, b)
    ensures Expanding(g, from, queue + [Visit(b, current.path + [b])], visited + {b},
                      dist[b := |current.path|], processed, current, done + [b])
  {
    WalkExtends(g, current.path, b);
    StateOneMore(g, from, queue, visited, dist, Visit(b, current.path + [b]));
    LayerOneMore(queue, dist[current.id], Visit(b, current.path + [b]));
    CoverOneMore(queue, processed + {current.id}, visited, Visit(b, current.path + [b]));
    hide Covered, Layered, SearchState, Walk;
  }

  lemma StateOneMore(g: Graph, from: Id, queue: seq<Visit>, visited: set<Id>, dist: map<Id, nat>, next: Visit)
    requires SearchState(g, from, queue, visited, dist) && next.id !in visited
    requires WalkBetween(g, from, next.id, next.path)
    ensures SearchState(g, from, queue + [next], visited + {next.id}, dist[next.id := |next.path| - 1])
  {
    hide WalkBetween;
  }

  lemma LayerOneMore(queue: seq<Visit>, low: nat, next: Visit)
    requires Layered(queue, low) && |next.path| == low + 2
    ensures Layered(queue + [next], low)
  {
  }

  lemma CoverOneMore(queue: seq<Visit>, processed: set<Id>, visited: set<Id>, next: Visit)
    requires Covered(queue, processed, visited)
    ensures Covered(queue + [next], processed, visited + {next.id})
  {
    var queue' := queue + [next];
    forall v | v in visited + {next.id} && v !in processed ensures Queued(queue', v) {
      if v == next.id {
        assert queue'[|queue|].id == v;
      } else {
        assert Queued(queue, v);
        var i :| 0 <= i < |queue| && queue[i].id == v;
        assert queue'[i].id == v;
      }
    }
  }

  lemma StartSearch(g: Graph, from: Id)
    ensures Searching(g, from, [Visit(from, [from])], {from}, map[from := 0], {}, 0)
  {
    assert Queued([Visit(from, [from])], from) by {
      assert [Visit(from, [from])][0].id == from;
    }
  }

  lemma FinishExpanding(g: Graph, from: Id, queue: seq<Visit>, visited: set<Id>, dist: map<Id, nat>,
                        processed: set<Id>, current: Visit, done: seq<Id>)
    requires Expanding(g, from, queue, visited, dist, processed, current, done)
    requires done == Succ(g, current.id)
    ensures Searching(g, from, queue, visited, dist, processed + {current.id}, |current.path| - 1)
  {
  }

  lemma SomeQueuedIsNear(g: Graph, from: Id, to: Id, queue: seq<Visit>, visited: set<Id>, dist: map<Id, nat>,
                         processed: set<Id>, low: nat, w: seq<Id>)
    requires Searching(g, from, queue, visited, dist, processed, low)
    requires to !in processed && WalkBetween(g, from, to, w)
    ensures exists i :: 0 <= i < |queue| && |queue[i].path| <= |w|
  {
    var j := WalkLeavesProcessed(g, processed, dist, w, 0);
    assert Queued(queue, w[j]);
  }

  /** When the target reaches the head of the queue, its queued path is a shortest one. */
  lemma HeadIsShortest(g: Graph, from: Id, to: Id, queue: seq<Visit>, visited: set<Id>, dist: map<Id, nat>,
                       processed: set<Id>, low: nat)
    requires Searching(g, from, queue, visited, dist, processed, low)
    requires to !in processed && |queue| > 0 && queue[0].id == to
    ensures ShortestBetween(g, from, to, queue[0].path) && Reaches(g, from, to)
  {
    forall w | WalkBetween(g, from, to, w) ensures |queue[0].path| <= |w| {
      SomeQueuedIsNear(g, from, to, queue, visited, dist, processed, low, w);
    }
  }

  lemma EmptyQueueMeansUnreachable(g: Graph, from: Id, to: Id, visited: set<Id>, dist: map<Id, nat>,
                                   processed: set<Id>, low: nat)
    requires Searching(g, from, [], visited, dist, processed, low) && to !in processed
    ensures !Reaches(g, from, to)
  {
    if Reaches(g, from, to) {
      var w :| WalkBetween(g, from, to, w);
      SomeQueuedIsNear(g, from, to, [], visited, dist, processed, low, w);
    }
  }

  class GraphQueryEngine {
    const edges: seq<GraphEdge>

    constructor (edges: seq<GraphEdge>)
      ensures this.edges == edges
    {
      this.edges := edges;
    }

    method FindPath(from: Id, to: Id) returns (path: Option<seq<Id>>)
      ensures path.Some? <==> Reaches(Adjacency(edges), from, to)
      ensures path.Some? ==> ShortestBetween(Adjacency(edges), from, to, path.value)
    {
      hide Searching, Expanding, Reaches, Adjacency, Outgoing;
      ghost var g := Adjacency(edges);
      ghost var all := {from} + set e | e in edges :: e.to;
      var queue := [Visit(from, [from])];
      var visited := {from};
      ghost var dist: map<Id, nat> := map[from := 0];
      ghost var processed: set<Id> := {};
      ghost var low: nat := 0;
      StartSearch(g, from);
      while |queue| > 0
        invariant visited <= all
        invariant Searching(g, from, queue, visited, dist, processed, low)
        invariant to !in processed
        decreases all - visited, |queue|
      {
        var current := queue[0];
        if current.id == to {
          HeadIsShortest(g, from, to, queue, visited, dist, processed, low);
          return Some(current.path);
        }
        TakeHead(g, from, queue, visited, dist, processed, low);
        queue := queue[1..];
        var outgoing := Outgoing(edges, current.id);
        ghost var queue0, visited0 := queue, visited;
        var i := 0;
        while i < |outgoing|
          invariant 0 <= i <= |outgoing|
          invariant visited0 <= visited <= all
          invariant visited == visited0 ==> queue == queue0
          invariant Expanding(g, from, queue, visited, dist, processed, current, Targets(outgoing)[..i])
        {
          var edge := outgoing[i];
          OutgoingIsFilter(edges, current.id, edge);
          AdjacencyEdges(edges, current.id, edge.to);
          assert Targets(outgoing)[..i + 1] == Targets(outgoing)[..i] + [edge.to];
          if edge.to !in visited {
            Discover(g, from, queue, visited, dist, processed, current, Targets(outgoing)[..i], edge.to);
            visited := visited + {edge.to};
            queue := queue + [Visit(edge.to, current.path + [edge.to])];
            dist := dist[edge.to := |current.path|];
          } else {
            SkipVisited(g, from, queue, visited, dist, processed, current, Targets(outgoing)[..i], edge.to);
          }
          i := i + 1;
        }
        assert Targets(outgoing)[..i] == Targets(outgoing);
        AdjacencyTargets(edges, current.id);
        FinishExpanding(g, from, queue, visited, dist, processed, current, Targets(outgoing));
        processed := processed + {current.id};
        low := |current.path| - 1;
      }
      EmptyQueueMeansUnreachable(g, from, to, visited, dist, processed, low);
      return None;
    }
  }
}
