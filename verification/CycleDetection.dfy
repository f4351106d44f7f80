/** The depth-first cycle detection of
    packages/cli/src/core/collaboration/ExecutionGraph.ts (detectCycles). */
module CycleDetection {
  import opened Sequences
  import opened Graphs

  /** The variables that the recursive closure shares with its caller. */
  datatype Search = Search(visited: set<Id>, recursionStack: set<Id>, path: seq<Id>, cycles: seq<seq<Id>>)

  /** The first vertices of the recorded cycles. */
  ghost function Heads(cycles: seq<seq<Id>>): set<Id> {
    set i | 0 <= i < |cycles| && cycles[i] != [] :: cycles[i][0]
  }

  /** Every successor of a vertex of the list stands before it or heads a recorded cycle. */
  ghost predicate FirstUnlessHead(g: Graph, finished: seq<Id>, heads: set<Id>) {
    forall i, b :: 0 <= i < |finished| && Edge(g, finished[i], b) ==> b in finished[..i] || b in heads
  }

  /** `finished` lists, oldest first, the vertices whose call has returned. */
  ghost predicate Sound(g: Graph, s: Search, finished: seq<Id>) {
    && Distinct(s.path)
    && Elements(s.path) == s.recursionStack <= s.visited
    && (s.path != [] ==> Walk(g, s.path))
    && (forall i :: 0 <= i < |s.cycles| ==> ClosedWalk(g, s.cycles[i]))
    && Elements(finished) == s.visited - s.recursionStack
    && FirstUnlessHead(g, finished, Heads(s.cycles))
  }

  ghost predicate CallAllowed(g: Graph, s: Search, v: Id) {
    && v !in s.visited
    && (s.path != [] ==> Edge(g, s.path[|s.path| - 1], v))
  }

  function Enter(s: Search, v: Id): (s': Search)
    ensures s'.path != [] && s'.path[|s'.path| - 1] == v
    ensures s'.visited == s.visited + {v} && s'.cycles == s.cycles
  {
    Search(s.visited + {v}, s.recursionStack + {v}, s.path + [v], s.cycles)
  }

  lemma EnterSound(g: Graph, s: Search, finished: seq<Id>, v: Id)
    requires Sound(g, s, finished) && CallAllowed(g, s, v)
    ensures Sound(g, Enter(s, v), finished)
  {
    if s.path != [] {
      WalkExtends(g, s.path, v);
    }
    assert Elements(s.path + [v]) == Elements(s.path) + {v};
    assert s.visited + {v} - (s.recursionStack + {v}) == s.visited - s.recursionStack;
  }

  function Leave(s: Search, v: Id): (s': Search)
    requires s.path != []
    ensures s'.visited == s.visited && s'.cycles == s.cycles
  {
    Search(s.visited, s.recursionStack - {v}, s.path[..|s.path| - 1], s.cycles)
  }

  lemma LeaveSound(g: Graph, s: Search, finished: seq<Id>, v: Id)
    requires Sound(g, s, finished) && s.path != [] && s.path[|s.path| - 1] == v
    requires forall b :: Edge(g, v, b) ==> b in s.visited - s.recursionStack || b in Heads(s.cycles)
    ensures Sound(g, Leave(s, v), finished + [v])
  {
    DropLast(g, s.path);
    assert Elements(finished + [v]) == Elements(finished) + {v};
    assert v in Elements(s.path);
    forall b | Edge(g, v, b) ensures b in finished || b in Heads(s.cycles) {
      assert b in s.visited - s.recursionStack ==> b in Elements(finished);
    }
    hide Heads, Distinct;
    FinishLast(g, finished, Heads(s.cycles), v);
  }

  lemma LeaveUndoesEnter(g: Graph, s0: Search, finished0: seq<Id>, s: Search, v: Id)
    requires Sound(g, s0, finished0) && v !in s0.visited
    requires s.path == Enter(s0, v).path && s.recursionStack == Enter(s0, v).recursionStack
    ensures Leave(s, v).path == s0.path && Leave(s, v).recursionStack == s0.recursionStack
  {
  }

  lemma DropLast(g: Graph, path: seq<Id>)
    requires path != [] && Distinct(path) && Walk(g, path)
    ensures Distinct(path[..|path| - 1])
    ensures Elements(path[..|path| - 1]) == Elements(path) - {path[|path| - 1]}
    ensures path[..|path| - 1] != [] ==> Walk(g, path[..|path| - 1])
  {
    var shorter := path[..|path| - 1];
    forall v | v in Elements(path) - {path[|path| - 1]} ensures v in Elements(shorter) {
      var i :| 0 <= i < |path| && path[i] == v;
      assert shorter[i] == v;
    }
  }

  lemma FinishLast(g: Graph, finished: seq<Id>, heads: set<Id>, v: Id)
    requires FirstUnlessHead(g, finished, heads)
    requires forall b :: Edge(g, v, b) ==> b in finished || b in heads
    ensures FirstUnlessHead(g, finished + [v], heads)
  {
    var longer := finished + [v];
    forall i, b | 0 <= i < |longer| && Edge(g, longer[i], b) ensures b in longer[..i] || b in heads {
      assert longer[..i] == if i < |finished| then finished[..i] else finished;
    }
  }

  function RecordCycle(s: Search, b: Id): (s': Search)
    ensures s'.cycles != [] && s'.path == s.path && s'.recursionStack == s.recursionStack && s'.visited == s.visited
  {
    s.(cycles := s.cycles + [s.path[FirstIndex(s.path, b)..] + [b]])
  }

  lemma RecordCycleSound(g: Graph, s: Search, finished: seq<Id>, b: Id)
    requires Sound(g, s, finished) && s.path != []
    requires Edge(g, s.path[|s.path| - 1], b) && b in s.recursionStack
    ensures Sound(g, RecordCycle(s, b), finished)
    ensures Heads(RecordCycle(s, b).cycles) == Heads(s.cycles) + {b}
  {
    ClosingStep(g, s.path, b);
    OneMoreHead(s.cycles, s.path[FirstIndex(s.path, b)..] + [b], b);
    hide Heads, Distinct, Elements, Walk;
  }

  lemma OneMoreHead(cycles: seq<seq<Id>>, cycle: seq<Id>, b: Id)
    requires cycle != [] && cycle[0] == b
    ensures Heads(cycles + [cycle]) == Heads(cycles) + {b}
  {
    var longer := cycles + [cycle];
    assert longer[|cycles|] == cycle;
    forall h | h in Heads(cycles) ensures h in Heads(longer) {
      var i :| 0 <= i < |cycles| && cycles[i] != [] && cycles[i][0] == h;
      assert longer[i] == cycles[i];
    }
  }

  method Dfs(g: Graph, v: Id, s0: Search, ghost finished0: seq<Id>, ghost all: set<Id>)
    returns (found: bool, s: Search, ghost finished: seq<Id>)
    requires Sound(g, s0, finished0) && CallAllowed(g, s0, v)
    requires v in all && s0.visited <= all
    requires forall a, b :: Edge(g, a, b) ==> b in all
    ensures !found
    ensures Sound(g, s, finished)
    ensures s.path == s0.path && s.recursionStack == s0.recursionStack
    ensures s0.visited + {v} <= s.visited <= all
    ensures Heads(s0.cycles) <= Heads(s.cycles)
    decreases all - s0.visited
  {
    hide Sound, RecordCycle, Enter, Leave, Heads;
    EnterSound(g, s0, finished0, v);
    s, finished := Enter(s0, v), finished0;
    ghost var entered := s;
    var dependencies := Succ(g, v);
    var i := 0;
    while i < |dependencies|
      invariant 0 <= i <= |dependencies|
      invariant Sound(g, s, finished)
      invariant s.path == entered.path && s.recursionStack == entered.recursionStack
      invariant entered.visited <= s.visited <= all
      invariant Heads(s0.cycles) <= Heads(s.cycles)
      invariant forall k :: 0 <= k < i ==>
        dependencies[k] in s.visited - s.recursionStack || dependencies[k] in Heads(s.cycles)
    {
      var d := dependencies[i];
      assert Edge(g, v, d);
      if d !in s.visited {
        NotOnStack(g, s, finished, d);
        found, s, finished := Dfs(g, d, s, finished, all);
        if found {
          return true, s, finished;
        }
      } else if d in s.recursionStack {
        RecordCycleSound(g, s, finished, d);
        s := RecordCycle(s, d);
      }
      i := i + 1;
    }
    LeaveSound(g, s, finished, v);
    LeaveUndoesEnter(g, s0, finished0, s, v);
    s, finished := Leave(s, v), finished + [v];
    found := false;
  }

  lemma NotOnStack(g: Graph, s: Search, finished: seq<Id>, v: Id)
    requires Sound(g, s, finished) && v !in s.visited
    ensures v !in s.recursionStack
  {
  }

  /** The cycles found are genuine, none is found exactly when there is none, and every
      cycle of the graph passes through the first vertex of some that was found. */
  method DetectCycles(g: Graph, keys: seq<Id>) returns (cycles: seq<seq<Id>>)
    requires Elements(keys) == g.Keys
    ensures forall i :: 0 <= i < |cycles| ==> ClosedWalk(g, cycles[i])
    ensures cycles == [] <==> Acyclic(g)
    ensures forall w :: ClosedWalk(g, w) ==> exists h :: h in Heads(cycles) && h in w
  {
    hide Sound, Heads;
    var s := Search({}, {}, [], []);
    ghost var finished: seq<Id> := [];
    ghost var all := g.Keys + set a, b | a in g && b in g[a] :: b;
    StartSound(g);
    var i := 0;
    while i < |keys|
      invariant 0 <= i <= |keys|
      invariant Sound(g, s, finished)
      invariant s.path == [] && s.recursionStack == {} && s.visited <= all
      invariant forall k :: 0 <= k < i ==> keys[k] in s.visited
    {
      assert keys[i] in Elements(keys);
      if keys[i] !in s.visited {
        var found;
        found, s, finished := Dfs(g, keys[i], s, finished, all);
      }
      i := i + 1;
    }
    cycles := s.cycles;
    SoundAtEnd(g, s, finished);
  }

  lemma StartSound(g: Graph)
    ensures Sound(g, Search({}, {}, [], []), [])
  {
  }

  lemma FinishedEarlier(g: Graph, finished: seq<Id>, heads: set<Id>, a: Id, b: Id)
    requires FirstUnlessHead(g, finished, heads) && a in finished && Edge(g, a, b) && b !in heads
    ensures b in finished && FirstIndex(finished, b) < FirstIndex(finished, a)
  {
    var i := FirstIndex(finished, a);
    assert Edge(g, finished[i], b);
    var j :| 0 <= j < i && finished[j] == b;
    FirstIndexIsFirst(finished, b, j);
  }

  /** Off the heads a walk only goes on to what was finished earlier. */
  lemma {:induction false} OffHeadsEarlier(g: Graph, finished: seq<Id>, heads: set<Id>, w: seq<Id>)
    requires FirstUnlessHead(g, finished, heads) && Walk(g, w) && |w| >= 2 && w[0] in finished
    requires forall h :: h in heads ==> h !in w
    ensures w[|w| - 1] in finished && FirstIndex(finished, w[|w| - 1]) < FirstIndex(finished, w[0])
    decreases |w|
  {
    hide FirstUnlessHead, FirstIndex;
    assert Edge(g, w[0], w[1]) && w[1] in w;
    FinishedEarlier(g, finished, heads, w[0], w[1]);
    if |w| > 2 {
      WalkSlice(g, w, 1, |w|);
      hide Walk, Edge;
      assert forall h :: h in w[1..] ==> h in w;
      OffHeadsEarlier(g, finished, heads, w[1..]);
    }
  }

  lemma EveryCycleIsHit(g: Graph, finished: seq<Id>, heads: set<Id>, w: seq<Id>)
    requires FirstUnlessHead(g, finished, heads) && g.Keys <= Elements(finished) && ClosedWalk(g, w)
    ensures exists h :: h in heads && h in w
  {
    if forall h :: h in heads ==> h !in w {
      assert Edge(g, w[0], w[1]) && w[0] in Elements(finished);
      OffHeadsEarlier(g, finished, heads, w);
    }
  }

  lemma SoundAtEnd(g: Graph, s: Search, finished: seq<Id>)
    requires Sound(g, s, finished) && s.recursionStack == {} && g.Keys <= s.visited
    ensures forall i :: 0 <= i < |s.cycles| ==> ClosedWalk(g, s.cycles[i])
    ensures s.cycles == [] <==> Acyclic(g)
    ensures forall w :: ClosedWalk(g, w) ==> exists h :: h in Heads(s.cycles) && h in w
  {
    forall w | ClosedWalk(g, w) ensures exists h :: h in Heads(s.cycles) && h in w {
      EveryCycleIsHit(g, finished, Heads(s.cycles), w);
    }
    if s.cycles != [] {
      assert ClosedWalk(g, s.cycles[0]);
    }
  }
}
