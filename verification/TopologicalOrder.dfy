/** The depth-first topological ordering of
    packages/cli/src/core/collaboration/ExecutionGraph.ts (computeTopologicalOrder). */
module TopologicalOrder {
  import opened Sequences
  import opened Graphs

  /** Every vertex of the list comes after those of its dependencies that are vertices. */
  ghost predicate DependenciesFirst(g: Graph, order: seq<Id>) {
    forall i, b :: 0 <= i < |order| && Edge(g, order[i], b) && b in g ==> b in order[..i]
  }

  /** The vertices, each exactly once. */
  ghost predicate Enumerates(g: Graph, order: seq<Id>) {
    Distinct(order) && Elements(order) == g.Keys
  }

  datatype Sorting = Sorting(visited: set<Id>, order: seq<Id>)

  /** The vertices and everything they depend on. */
  ghost predicate ClosedUnder(g: Graph, all: set<Id>) {
    forall a, b :: Edge(g, a, b) ==> b in all
  }

  /** What one call of the recursion makes of the vertices visited and listed so far. */
  ghost function Visited(g: Graph, v: Id, s: Sorting, all: set<Id>): (r: Sorting)
    requires v in all && s.visited <= all && ClosedUnder(g, all)
    ensures s.visited <= r.visited <= all
    decreases all - s.visited, 0
  {
    if v in s.visited then s
    else
      var entered := s.(visited := s.visited + {v});
      if v !in g then entered
      else
        assert forall b :: b in g[v] ==> Edge(g, v, b);
        var r := VisitedAll(g, g[v], entered, all);
        r.(order := r.order + [v])
  }

  /** The same for a list of vertices, one after the other. */
  ghost function VisitedAll(g: Graph, vs: seq<Id>, s: Sorting, all: set<Id>): (r: Sorting)
    requires Elements(vs) <= all && s.visited <= all && ClosedUnder(g, all)
    ensures s.visited <= r.visited <= all
    decreases all - s.visited, 1, |vs|
  {
    if vs == [] then s
    else
      var n := |vs| - 1;
      assert vs[n] in Elements(vs) && Elements(vs[..n]) <= Elements(vs);
      var earlier := VisitedAll(g, vs[..n], s, all);
      assert earlier.visited == s.visited || all - earlier.visited < all - s.visited by {
        if earlier.visited != s.visited {
          assert s.visited < earlier.visited;
        }
      }
      Visited(g, vs[n], earlier, all)
  }

  ghost function AllIds(g: Graph): (all: set<Id>)
    ensures g.Keys <= all && ClosedUnder(g, all)
  {
    g.Keys + set a, b | a in g && b in g[a] :: b
  }

  /** The order that the depth-first search from these keys gives. */
  ghost function OrderOf(g: Graph, keys: seq<Id>): seq<Id>
    requires Elements(keys) == g.Keys
  {
    VisitedAll(g, keys, Sorting({}, []), AllIds(g)).order
  }

  /** `path` are the vertices whose call is still running, outermost first. */
  ghost predicate Sound(g: Graph, s: Sorting, path: seq<Id>) {
    && Distinct(s.order)
    && Elements(path) <= s.visited * g.Keys
    && (path != [] ==> Walk(g, path))
    && Elements(s.order) == s.visited * g.Keys - Elements(path)
    && (Acyclic(g) ==> DependenciesFirst(g, s.order))
  }

  ghost predicate CallAllowed(g: Graph, path: seq<Id>, v: Id) {
    path != [] ==> Edge(g, path[|path| - 1], v)
  }

  lemma EnterSound(g: Graph, s: Sorting, path: seq<Id>, v: Id)
    requires Sound(g, s, path) && CallAllowed(g, path, v) && v !in s.visited && v in g
    ensures Sound(g, s.(visited := s.visited + {v}), path + [v])
  {
    if path != [] {
      WalkExtends(g, path, v);
    }
    assert Elements(path + [v]) == Elements(path) + {v};
    assert (s.visited + {v}) * g.Keys == s.visited * g.Keys + {v};
  }

  lemma MissingSound(g: Graph, s: Sorting, path: seq<Id>, v: Id)
    requires Sound(g, s, path) && v !in g
    ensures Sound(g, s.(visited := s.visited + {v}), path)
  {
    assert (s.visited + {v}) * g.Keys == s.visited * g.Keys;
  }

  lemma LeaveSound(g: Graph, s: Sorting, path: seq<Id>, v: Id)
    requires Sound(g, s, path + [v]) && v !in path
    requires forall b :: Edge(g, v, b) ==> b in s.visited
    ensures Sound(g, s.(order := s.order + [v]), path)
  {
    var longer := path + [v];
    assert longer[|path|] == v && v in Elements(longer);
    assert Elements(longer) == Elements(path) + {v};
    assert Elements(s.order + [v]) == Elements(s.order) + {v};
    if path != [] {
      WalkSlice(g, longer, 0, |path|);
      assert longer[..|path|] == path;
    }
    assert v !in Elements(s.order);
    if Acyclic(g) {
      forall b | Edge(g, v, b) && b in g ensures b in s.order {
        NotBackOntoPath(g, longer, b);
        assert b in Elements(s.order);
      }
      AppendKeepsOrder(g, s.order, v);
    }
  }

  lemma NotBackOntoPath(g: Graph, path: seq<Id>, b: Id)
    requires Acyclic(g) && path != [] && Walk(g, path) && Edge(g, path[|path| - 1], b)
    ensures b !in Elements(path)
  {
    if b in path {
      ClosingStep(g, path, b);
    }
  }

  lemma AppendKeepsOrder(g: Graph, order: seq<Id>, v: Id)
    requires DependenciesFirst(g, order)
    requires forall b :: Edge(g, v, b) && b in g ==> b in order
    ensures DependenciesFirst(g, order + [v])
  {
    var longer := order + [v];
    forall i, b | 0 <= i < |longer| && Edge(g, longer[i], b) && b in g ensures b in longer[..i] {
      assert longer[..i] == if i < |order| then order[..i] else order;
    }
  }

  method Visit(g: Graph, v: Id, s0: Sorting, ghost path: seq<Id>, ghost all: set<Id>) returns (s: Sorting)
    requires Sound(g, s0, path) && CallAllowed(g, path, v)
    requires v in all && s0.visited <= all && ClosedUnder(g, all)
    ensures Sound(g, s, path) && s == Visited(g, v, s0, all)
    ensures s0.visited + {v} <= s.visited <= all
    decreases all - s0.visited
  {
    hide Sound;
    s := s0;
    if v in s.visited {
      return;
    }
    s := s.(visited := s.visited + {v});
    if v !in g {
      MissingSound(g, s0, path, v);
      return;
    }
    EnterSound(g, s0, path, v);
    var dependencies := g[v];
    ghost var entered := s;
    assert Elements(dependencies) <= all by {
      assert forall b :: b in g[v] ==> Edge(g, v, b);
    }
    var i := 0;
    while i < |dependencies|
      invariant 0 <= i <= |dependencies|
      invariant Sound(g, s, path + [v])
      invariant Elements(dependencies[..i]) <= all && s == VisitedAll(g, dependencies[..i], entered, all)
      invariant s0.visited + {v} <= s.visited <= all
      invariant forall k :: 0 <= k < i ==> dependencies[k] in s.visited
    {
      assert Edge(g, v, dependencies[i]);
      OneMoreVisited(g, dependencies, i, entered, all);
      s := Visit(g, dependencies[i], s, path + [v], all);
      i := i + 1;
    }
    assert dependencies[..i] == dependencies;
    NotOnPath(g, s0, path, v);
    LeaveSound(g, s, path, v);
    s := s.(order := s.order + [v]);
  }

  lemma OneMoreVisited(g: Graph, vs: seq<Id>, i: nat, s: Sorting, all: set<Id>)
    requires i < |vs| && Elements(vs) <= all && s.visited <= all && ClosedUnder(g, all)
    ensures Elements(vs[..i]) <= all && Elements(vs[..i + 1]) <= all && vs[i] in all
    ensures VisitedAll(g, vs[..i + 1], s, all) == Visited(g, vs[i], VisitedAll(g, vs[..i], s, all), all)
  {
    assert vs[i] in Elements(vs) && vs[..i + 1][..i] == vs[..i];
    assert Elements(vs[..i]) <= Elements(vs) && Elements(vs[..i + 1]) <= Elements(vs);
  }

  lemma NotOnPath(g: Graph, s: Sorting, path: seq<Id>, v: Id)
    requires Sound(g, s, path) && v !in s.visited
    ensures v !in path
  {
    assert v in path ==> v in Elements(path);
  }

  /** The order always lists every vertex once, and it puts dependencies first exactly
      when the graph is acyclic. */
  method ComputeOrder(g: Graph, keys: seq<Id>) returns (order: seq<Id>)
    requires Elements(keys) == g.Keys
    ensures order == OrderOf(g, keys) && Enumerates(g, order)
    ensures DependenciesFirst(g, order) <==> Acyclic(g)
  {
    hide Sound, AllIds, ClosedUnder;
    var s := Sorting({}, []);
    ghost var all := AllIds(g);
    StartSound(g);
    var i := 0;
    while i < |keys|
      invariant 0 <= i <= |keys|
      invariant Sound(g, s, []) && s.visited <= all
      invariant Elements(keys[..i]) <= all && s == VisitedAll(g, keys[..i], Sorting({}, []), all)
      invariant forall k :: 0 <= k < i ==> keys[k] in s.visited
    {
      assert keys[i] in Elements(keys);
      OneMoreVisited(g, keys, i, Sorting({}, []), all);
      s := Visit(g, keys[i], s, [], all);
      i := i + 1;
    }
    assert keys[..i] == keys;
    order := s.order;
    SoundAtEnd(g, s);
  }

  lemma StartSound(g: Graph)
    ensures Sound(g, Sorting({}, []), [])
  {
    assert Elements<Id>([]) == {};
  }

  lemma SoundAtEnd(g: Graph, s: Sorting)
    requires Sound(g, s, []) && g.Keys <= s.visited
    ensures Enumerates(g, s.order)
    ensures DependenciesFirst(g, s.order) <==> Acyclic(g)
  {
    assert Elements<Id>([]) == {};
    if DependenciesFirst(g, s.order) {
      OrderProvesAcyclic(g, s.order);
    }
  }

  /** Dependencies that are not vertices cannot lie on a closed walk. */
  lemma OrderProvesAcyclic(g: Graph, order: seq<Id>)
    requires Enumerates(g, order) && DependenciesFirst(g, order)
    ensures Acyclic(g)
  {
    var rank := (v: Id) => if v in g then FirstIndex(order, v) else -1;
    forall a, b | Edge(g, a, b) ensures rank(b) < rank(a) {
      if b in g {
        assert a in Elements(order);
        EarlierDependency(g, order, a, b);
      }
    }
    RankedIsAcyclic(g, rank);
  }

  lemma EarlierDependency(g: Graph, order: seq<Id>, a: Id, b: Id)
    requires DependenciesFirst(g, order) && a in order && b in g && Edge(g, a, b)
    ensures FirstIndex(order, b) < FirstIndex(order, a)
  {
    var i := FirstIndex(order, a);
    assert b in order[..i];
    var j :| 0 <= j < i && order[j] == b;
    FirstIndexIsFirst(order, b, j);
  }

  // ----- what the order leaves of a graph

  function KeepIn(ids: seq<Id>, allowed: seq<Id>): seq<Id> {
    if ids == [] then []
    else
      var n := |ids| - 1;
      KeepIn(ids[..n], allowed) + if ids[n] in allowed then [ids[n]] else []
  }

  lemma {:induction false} KeepInMembers(ids: seq<Id>, allowed: seq<Id>, b: Id)
    ensures b in KeepIn(ids, allowed) <==> b in ids && b in allowed
  {
    if ids != [] {
      var n := |ids| - 1;
      KeepInMembers(ids[..n], allowed, b);
      assert b in ids <==> b in ids[..n] || b == ids[n];
    }
  }

  /** The graph without the dependencies that are missing or come later in the order: the
      ones that a pass along the order cannot take into account. */
  function Settled(g: Graph, order: seq<Id>): Graph {
    map v | v in g :: KeepIn(g[v], order[..FirstIndex(order, v)])
  }

  lemma SettledEdge(g: Graph, order: seq<Id>, v: Id, b: Id)
    ensures Edge(Settled(g, order), v, b) <==> Edge(g, v, b) && b in order[..FirstIndex(order, v)]
  {
    if v in g {
      KeepInMembers(g[v], order[..FirstIndex(order, v)], b);
    }
  }

  /** The order of any graph, cyclic or not, puts the settled dependencies first. */
  lemma SettledFits(g: Graph, order: seq<Id>)
    requires Enumerates(g, order)
    ensures Enumerates(Settled(g, order), order) && DependenciesFirst(Settled(g, order), order)
    ensures NothingMissing(Settled(g, order)) && Acyclic(Settled(g, order))
  {
    var settled := Settled(g, order);
    assert settled.Keys == g.Keys;
    forall a, b | Edge(settled, a, b) ensures b in settled {
      SettledEdge(g, order, a, b);
      assert b in Elements(order);
    }
    forall i, b | 0 <= i < |order| && Edge(settled, order[i], b) ensures b in order[..i] {
      SettledEdge(g, order, order[i], b);
      FirstIndexIsFirst(order, order[i], i);
    }
    OrderProvesAcyclic(settled, order);
  }

  /** On an order with dependencies first nothing but the missing ones is lost. */
  lemma SettledKeeps(g: Graph, order: seq<Id>, v: Id, b: Id)
    requires Enumerates(g, order) && DependenciesFirst(g, order)
    ensures Edge(Settled(g, order), v, b) <==> Edge(g, v, b) && b in g
  {
    SettledEdge(g, order, v, b);
    if v in g {
      assert v in Elements(order);
      if b in order {
        assert b in Elements(order);
      }
    }
  }
}
