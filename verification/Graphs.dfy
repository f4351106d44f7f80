/** Directed graphs given by adjacency lists, as the execution graph, the proposal
    batch and the query engine all use them.  An identifier without an entry in the
    map (a missing dependency, say) has no outgoing edges. */
module Graphs {
  import opened Sequences

  type Id = string
  type Graph = map<Id, seq<Id>>

  function Succ(g: Graph, v: Id): seq<Id> {
    if v in g then g[v] else []
  }

  ghost predicate Edge(g: Graph, a: Id, b: Id) {
    b in Succ(g, a)
  }

  /** A nonempty sequence of vertices, each one followed by a successor of it. */
  ghost predicate Walk(g: Graph, w: seq<Id>) {
    |w| > 0 && forall i, j :: 0 <= i && j == i + 1 < |w| ==> Edge(g, w[i], w[j])
  }

  ghost predicate WalkBetween(g: Graph, a: Id, b: Id, w: seq<Id>) {
    Walk(g, w) && w[0] == a && w[|w| - 1] == b
  }

  ghost predicate Reaches(g: Graph, a: Id, b: Id) {
    exists w :: WalkBetween(g, a, b, w)
  }

  ghost predicate ClosedWalk(g: Graph, w: seq<Id>) {
    |w| >= 2 && Walk(g, w) && w[0] == w[|w| - 1]
  }

  ghost predicate Acyclic(g: Graph) {
    forall w :: !ClosedWalk(g, w)
  }

  /** Every successor has an entry of its own. */
  ghost predicate NothingMissing(g: Graph) {
    forall a, b :: Edge(g, a, b) ==> b in g
  }

  /** Every vertex of the list comes after all of its successors. */
  ghost predicate SuccessorsFirst(g: Graph, order: seq<Id>) {
    forall i, b :: 0 <= i < |order| && Edge(g, order[i], b) ==> b in order[..i]
  }

  lemma WalkExtends(g: Graph, w: seq<Id>, b: Id)
    requires Walk(g, w) && Edge(g, w[|w| - 1], b)
    ensures Walk(g, w + [b])
  {
  }

  lemma WalkPrepends(g: Graph, a: Id, w: seq<Id>)
    requires Walk(g, w) && Edge(g, a, w[0])
    ensures Walk(g, [a] + w)
  {
  }

  lemma WalkSlice(g: Graph, w: seq<Id>, lo: nat, hi: nat)
    requires Walk(g, w) && lo < hi <= |w|
    ensures Walk(g, w[lo..hi])
  {
  }

  lemma ReachesItself(g: Graph, a: Id)
    ensures Reaches(g, a, a)
  {
    assert WalkBetween(g, a, a, [a]);
  }

  lemma StepThenReaches(g: Graph, a: Id, b: Id, c: Id)
    requires Edge(g, a, b) && Reaches(g, b, c)
    ensures Reaches(g, a, c)
  {
    var w :| WalkBetween(g, b, c, w);
    WalkPrepends(g, a, w);
    assert WalkBetween(g, a, c, [a] + w);
  }

  /** A numbering that every edge lowers leaves no room for a closed walk. */
  lemma RankedIsAcyclic(g: Graph, rank: Id -> int)
    requires forall a, b :: Edge(g, a, b) ==> rank(b) < rank(a)
    ensures Acyclic(g)
  {
    forall w ensures !ClosedWalk(g, w) {
      if ClosedWalk(g, w) {
        RankFalls(g, rank, w);
      }
    }
  }

  lemma RankFalls(g: Graph, rank: Id -> int, w: seq<Id>)
    requires forall a, b :: Edge(g, a, b) ==> rank(b) < rank(a)
    requires Walk(g, w) && |w| >= 2
    ensures rank(w[|w| - 1]) < rank(w[0])
  {
    assert Edge(g, w[|w| - 2], w[|w| - 1]);
    if |w| > 2 {
      WalkSlice(g, w, 0, |w| - 1);
      RankFalls(g, rank, w[..|w| - 1]);
    }
  }

  function FirstIndex(s: seq<Id>, v: Id): (i: nat)
    ensures i <= |s|
    ensures v in s ==> i < |s| && s[i] == v && v !in s[..i]
    ensures v !in s ==> i == |s|
  {
    if s == [] then 0
    else if s[0] == v then 0
    else
      var rest := FirstIndex(s[1..], v);
      assert v in s ==> s[..rest + 1] == [s[0]] + s[1..][..rest];
      rest + 1
  }

  lemma FirstIndexIsFirst(s: seq<Id>, v: Id, j: nat)
    requires j < |s| && s[j] == v
    ensures FirstIndex(s, v) <= j
  {
    if s[0] != v {
      FirstIndexIsFirst(s[1..], v, j - 1);
    }
  }

  /** A list of all sources of edges that puts successors first proves acyclicity. */
  lemma OrderedIsAcyclic(g: Graph, order: seq<Id>)
    requires SuccessorsFirst(g, order)
    requires forall a, b :: Edge(g, a, b) ==> a in order
    ensures Acyclic(g)
  {
    forall a, b | Edge(g, a, b) ensures FirstIndex(order, b) < FirstIndex(order, a) {
      var i := FirstIndex(order, a);
      assert Edge(g, order[i], b);
      var j :| 0 <= j < i && order[j] == b;
      FirstIndexIsFirst(order, b, j);
    }
    RankedIsAcyclic(g, v => FirstIndex(order, v));
  }

  ghost predicate HasSuccessorIn(g: Graph, s: set<Id>, v: Id) {
    exists b :: b in s && Edge(g, v, b)
  }

  /** When every member of a finite nonempty set has a successor in the set, some
      closed walk exists: follow successors until a vertex repeats. */
  lemma NoSinkMeansCycle(g: Graph, s: set<Id>)
    requires s != {}
    requires forall v {:trigger HasSuccessorIn(g, s, v)} :: v in s ==> HasSuccessorIn(g, s, v)
    ensures !Acyclic(g)
  {
    var v :| v in s;
    FollowSuccessors(g, s, [v]);
  }

  lemma FollowSuccessors(g: Graph, s: set<Id>, w: seq<Id>)
    requires forall v {:trigger HasSuccessorIn(g, s, v)} :: v in s ==> HasSuccessorIn(g, s, v)
    requires Walk(g, w) && Distinct(w) && Elements(w) <= s
    ensures !Acyclic(g)
    decreases |s| - |w|
  {
    var last := w[|w| - 1];
    assert last in Elements(w);
    assert HasSuccessorIn(g, s, last);
    var b :| b in s && Edge(g, last, b);
    WalkExtends(g, w, b);
    if b in w {
      ClosingStep(g, w, b);
      assert !Acyclic(g);
    } else {
      DistinctCardinality(w + [b]);
      SubsetCardinality(Elements(w + [b]), s);
      FollowSuccessors(g, s, w + [b]);
    }
  }

  /** A step from the end of a walk back onto the walk closes a cycle. */
  lemma TailCloses(g: Graph, w: seq<Id>, i: nat)
    requires Walk(g, w) && i < |w| && Edge(g, w[|w| - 1], w[i])
    ensures ClosedWalk(g, w[i..] + [w[i]])
  {
    WalkSlice(g, w, i, |w|);
    WalkExtends(g, w[i..], w[i]);
  }

  lemma ClosingStep(g: Graph, w: seq<Id>, b: Id)
    requires Walk(g, w) && Edge(g, w[|w| - 1], b) && b in w
    ensures ClosedWalk(g, w[FirstIndex(w, b)..] + [b])
  {
    TailCloses(g, w, FirstIndex(w, b));
  }
}
