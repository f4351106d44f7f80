/** The order in which a batch of task proposals is submitted: orderProposals of
    packages/cli/src/core/coordination/CoordinationEngine.ts, Kahn's algorithm with ties
    broken by proposal identifier and a fallback for cyclic batches. */
module ProposalOrder {
  import opened Sequences
  import opened Wrappers
  import opened Graphs

  datatype Proposal = Proposal(proposalId: Id, globalTaskId: Option<Id>, dependencies: seq<Id>)

  /** How the locale's comparison ranks identifiers. */
  type Rank = Id -> int

  function IdsOf(ps: seq<Proposal>): (ids: seq<Id>)
    ensures |ids| == |ps| && forall i :: 0 <= i < |ps| ==> ids[i] == ps[i].proposalId
  {
    seq(|ps|, i requires 0 <= i < |ps| => ps[i].proposalId)
  }

  /** The first proposal with an identifier. */
  function Find(ps: seq<Proposal>, id: Id): (p: Proposal)
    requires id in IdsOf(ps)
    ensures p in ps && p.proposalId == id
  {
    if ps[0].proposalId == id then ps[0]
    else
      assert id in IdsOf(ps[1..]) by {
        var i :| 0 <= i < |ps| && IdsOf(ps)[i] == id;
        assert ps[1..][i - 1] == ps[i];
      }
      Find(ps[1..], id)
  }

  // ----- the dependency graph of a batch

  /** An empty task identifier counts as none. */
  predicate HasTask(p: Proposal) {
    p.globalTaskId.Some? && p.globalTaskId.value != ""
  }

  /** The proposal for each task; a later one replaces an earlier one. */
  function ByTask(ps: seq<Proposal>): map<Id, Proposal> {
    if ps == [] then map[]
    else
      var earlier, p := ByTask(ps[..|ps| - 1]), ps[|ps| - 1];
      if HasTask(p) then earlier[p.globalTaskId.value := p] else earlier
  }

  /** The proposals that dependencies stand for; tasks outside the batch are skipped. */
  function Resolved(byTask: map<Id, Proposal>, dependencies: seq<Id>): seq<Id> {
    if dependencies == [] then []
    else
      var n := |dependencies| - 1;
      Resolved(byTask, dependencies[..n])
      + if dependencies[n] in byTask then [byTask[dependencies[n]].proposalId] else []
  }

  function NoEdges(ps: seq<Proposal>): (g: Graph)
    ensures g.Keys == Elements(IdsOf(ps))
  {
    map id | id in IdsOf(ps) :: []
  }

  /** The edges that the first n proposals contribute. */
  function EdgesUpTo(byTask: map<Id, Proposal>, ps: seq<Proposal>, n: nat): (g: Graph)
    requires n <= |ps|
    ensures g.Keys == Elements(IdsOf(ps))
  {
    if n == 0 then NoEdges(ps)
    else
      var g, p := EdgesUpTo(byTask, ps, n - 1), ps[n - 1];
      assert IdsOf(ps)[n - 1] == p.proposalId;
      g[p.proposalId := g[p.proposalId] + Resolved(byTask, p.dependencies)]
  }

  function DependencyGraph(ps: seq<Proposal>): (g: Graph)
    ensures g.Keys == Elements(IdsOf(ps))
  {
    EdgesUpTo(ByTask(ps), ps, |ps|)
  }

  lemma {:induction false} ByTaskFromBatch(ps: seq<Proposal>)
    ensures forall t :: t in ByTask(ps) ==> ByTask(ps)[t] in ps
  {
    if ps != [] {
      ByTaskFromBatch(ps[..|ps| - 1]);
      assert forall p :: p in ps[..|ps| - 1] ==> p in ps;
    }
  }

  lemma {:induction false} ResolvedInBatch(byTask: map<Id, Proposal>, dependencies: seq<Id>, ps: seq<Proposal>)
    requires forall t :: t in byTask ==> byTask[t] in ps
    ensures forall d :: d in Resolved(byTask, dependencies) ==> d in IdsOf(ps)
  {
    if dependencies != [] {
      var n := |dependencies| - 1;
      ResolvedInBatch(byTask, dependencies[..n], ps);
      if dependencies[n] in byTask {
        InIds(ps, byTask[dependencies[n]]);
      }
    }
  }

  lemma InIds(ps: seq<Proposal>, p: Proposal)
    requires p in ps
    ensures p.proposalId in IdsOf(ps)
  {
    var i :| 0 <= i < |ps| && ps[i] == p;
    assert IdsOf(ps)[i] == p.proposalId;
  }

  lemma {:induction false} EdgesInBatch(byTask: map<Id, Proposal>, ps: seq<Proposal>, n: nat)
    requires n <= |ps| && forall t :: t in byTask ==> byTask[t] in ps
    ensures forall a, b :: a in EdgesUpTo(byTask, ps, n) && b in EdgesUpTo(byTask, ps, n)[a] ==> b in IdsOf(ps)
  {
    if n > 0 {
      EdgesInBatch(byTask, ps, n - 1);
      ResolvedInBatch(byTask, ps[n - 1].dependencies, ps);
      hide Resolved;
    }
  }

  lemma DependencyGraphIsClosed(ps: seq<Proposal>)
    ensures NothingMissing(DependencyGraph(ps))
  {
    ByTaskFromBatch(ps);
    EdgesInBatch(ByTask(ps), ps, |ps|);
    hide EdgesUpTo, ByTask;
  }

  // ----- sorting

  function InsertById(rank: Rank, p: Proposal, s: seq<Proposal>): seq<Proposal> {
    if s == [] then [p]
    else if rank(p.proposalId) < rank(s[0].proposalId) then [p] + s
    else [s[0]] + InsertById(rank, p, s[1..])
  }

  /** A stable sort by identifier. */
  function SortById(rank: Rank, s: seq<Proposal>): seq<Proposal> {
    if s == [] then [] else InsertById(rank, s[|s| - 1], SortById(rank, s[..|s| - 1]))
  }

  ghost predicate SortedById(rank: Rank, s: seq<Proposal>) {
    forall i, j :: 0 <= i < j < |s| ==> rank(s[i].proposalId) <= rank(s[j].proposalId)
  }

  lemma {:induction false} InsertAdds(rank: Rank, p: Proposal, s: seq<Proposal>)
    ensures multiset(InsertById(rank, p, s)) == multiset(s) + multiset{p}
  {
    if s != [] {
      assert s == [s[0]] + s[1..];
      InsertAdds(rank, p, s[1..]);
    }
  }

  ghost predicate NoneBelow(rank: Rank, least: int, s: seq<Proposal>) {
    forall i :: 0 <= i < |s| ==> least <= rank(s[i].proposalId)
  }

  lemma {:induction false} InsertStaysAbove(rank: Rank, least: int, p: Proposal, s: seq<Proposal>)
    requires NoneBelow(rank, least, s) && least <= rank(p.proposalId)
    ensures NoneBelow(rank, least, InsertById(rank, p, s))
  {
    if s != [] {
      InsertStaysAbove(rank, least, p, s[1..]);
    }
  }

  lemma {:induction false} InsertKeepsSorted(rank: Rank, p: Proposal, s: seq<Proposal>)
    requires SortedById(rank, s)
    ensures SortedById(rank, InsertById(rank, p, s))
  {
    if s != [] && rank(p.proposalId) >= rank(s[0].proposalId) {
      InsertKeepsSorted(rank, p, s[1..]);
      InsertStaysAbove(rank, rank(s[0].proposalId), p, s[1..]);
    }
  }

  lemma {:induction false} SortPermutes(rank: Rank, s: seq<Proposal>)
    ensures multiset(SortById(rank, s)) == multiset(s)
  {
    if s != [] {
      var front, last := s[..|s| - 1], s[|s| - 1];
      SortPermutes(rank, front);
      InsertAdds(rank, last, SortById(rank, front));
      assert s == front + [last];
    }
  }

  lemma {:induction false} SortSortsById(rank: Rank, s: seq<Proposal>)
    ensures SortedById(rank, SortById(rank, s)) && multiset(SortById(rank, s)) == multiset(s)
  {
    SortPermutes(rank, s);
    if s != [] {
      SortSortsById(rank, s[..|s| - 1]);
      InsertKeepsSorted(rank, s[|s| - 1], SortById(rank, s[..|s| - 1]));
    }
  }

  // ----- the promise

  /** A vertex that is not yet listed while everything it depends on is. */
  ghost predicate ReadyAfter(g: Graph, done: seq<Id>, x: Id) {
    x in g && x !in done && forall d :: d in g[x] ==> d in done
  }

  /** The i-th choice is the least of those that are ready. */
  ghost predicate PicksLeast(g: Graph, rank: Rank, order: seq<Id>, i: nat)
    requires i < |order|
  {
    && ReadyAfter(g, order[..i], order[i])
    && forall x :: ReadyAfter(g, order[..i], x) ==> rank(order[i]) <= rank(x)
  }

  ghost predicate Greedy(g: Graph, rank: Rank, order: seq<Id>) {
    forall i :: 0 <= i < |order| ==> PicksLeast(g, rank, order, i)
  }

  /** What a caller gets: on an acyclic batch the dependencies first and, among the
      choices left, the least identifier first; on a cyclic batch plain identifier order. */
  ghost predicate OrderedAs(ps: seq<Proposal>, rank: Rank, out: seq<Proposal>) {
    var g := DependencyGraph(ps);
    && multiset(out) == multiset(ps)
    && (Acyclic(g) ==> Greedy(g, rank, IdsOf(out)) && SuccessorsFirst(g, IdsOf(out)))
    && (!Acyclic(g) ==> SortedById(rank, out))
  }

  lemma GreedyPutsDependenciesFirst(g: Graph, rank: Rank, order: seq<Id>)
    requires Greedy(g, rank, order)
    ensures SuccessorsFirst(g, order) && Distinct(order)
    ensures forall x, d :: x in order && d in Succ(g, x) ==> d in order
  {
    forall i, b | 0 <= i < |order| && Edge(g, order[i], b) ensures b in order[..i] {
      assert PicksLeast(g, rank, order, i);
    }
    forall i, j | 0 <= i < j < |order| ensures order[i] != order[j] {
      assert PicksLeast(g, rank, order, j);
      assert order[i] in order[..j];
    }
    forall x, d | x in order && d in Succ(g, x) ensures d in order {
      var i :| 0 <= i < |order| && order[i] == x;
      assert PicksLeast(g, rank, order, i);
    }
  }

  // ----- counting edges

  /** How many positions of a list hold a vertex outside another list. */
  function Outside(s: seq<Id>, done: seq<Id>): nat {
    if s == [] then 0 else Outside(s[..|s| - 1], done) + if s[|s| - 1] in done then 0 else 1
  }

  lemma {:induction false} OutsideZeroIff(s: seq<Id>, done: seq<Id>)
    ensures Outside(s, done) == 0 <==> forall d :: d in s ==> d in done
  {
    if s != [] {
      var front, last := s[..|s| - 1], s[|s| - 1];
      OutsideZeroIff(front, done);
      assert forall d :: d in s <==> d in front || d == last;
    }
  }

  lemma {:induction false} OutsideNothing(s: seq<Id>)
    ensures Outside(s, []) == |s|
  {
    if s != [] {
      OutsideNothing(s[..|s| - 1]);
    }
  }

  lemma {:induction false} OutsideOneMore(s: seq<Id>, done: seq<Id>, n: Id)
    requires n !in done
    ensures Outside(s, done) == Outside(s, done + [n]) + multiset(s)[n]
  {
    if s != [] {
      var front, last := s[..|s| - 1], s[|s| - 1];
      OutsideOneMore(front, done, n);
      assert s == front + [last];
    }
  }

  /** The two tables agree on how often there is an edge from x to d. */
  ghost predicate CountedEdge(g: Graph, outgoing: map<Id, seq<Id>>, d: Id, x: Id)
    requires d in outgoing && x in g
  {
    multiset(outgoing[d])[x] == multiset(g[x])[d]
  }

  /** Every vertex is listed under each target of its edges, as often as there are edges. */
  ghost predicate Links(g: Graph, outgoing: map<Id, seq<Id>>) {
    && outgoing.Keys == g.Keys
    && (forall d, x :: d in g && x in g ==> CountedEdge(g, outgoing, d, x))
    && (forall d, x :: d in g && x in outgoing[d] ==> x in g)
  }

  /** The two tables that the edge loop fills. */
  ghost predicate Counted(g: Graph, indegree: map<Id, int>, outgoing: map<Id, seq<Id>>) {
    && indegree.Keys == g.Keys && Links(g, outgoing)
    && (forall x :: x in g ==> indegree[x] == |g[x]|)
  }

  lemma CountOneEdge(g: Graph, indegree: map<Id, int>, outgoing: map<Id, seq<Id>>, x: Id, d: Id)
    requires Counted(g, indegree, outgoing) && x in g && d in g
    ensures Counted(g[x := g[x] + [d]], indegree[x := indegree[x] + 1], outgoing[d := outgoing[d] + [x]])
  {
    var g', outgoing' := g[x := g[x] + [d]], outgoing[d := outgoing[d] + [x]];
    forall e, y | e in g' && y in g' ensures CountedEdge(g', outgoing', e, y) {
      assert CountedEdge(g, outgoing, e, y);
      CountedOnceMore(g, outgoing, x, d, e, y);
    }
  }

  lemma CountedOnceMore(g: Graph, outgoing: map<Id, seq<Id>>, x: Id, d: Id, e: Id, y: Id)
    requires outgoing.Keys == g.Keys && x in g && d in g && e in g && y in g && CountedEdge(g, outgoing, e, y)
    ensures CountedEdge(g[x := g[x] + [d]], outgoing[d := outgoing[d] + [x]], e, y)
  {
    assert multiset(outgoing[d] + [x])[y] == multiset(outgoing[d])[y] + multiset([x])[y];
    assert multiset(g[x] + [d])[e] == multiset(g[x])[e] + multiset([d])[e];
  }

  lemma NothingCounted(ps: seq<Proposal>)
    ensures Counted(NoEdges(ps), map id | id in IdsOf(ps) :: 0, map id | id in IdsOf(ps) :: [])
  {
  }

  lemma NoEdgesYet(byTask: map<Id, Proposal>, ps: seq<Proposal>)
    ensures EdgesUpTo(byTask, ps, 0) == EdgesUpTo(map[], ps, 0)
  {
  }

  /** The graph while the j-th dependency of a proposal is looked at. */
  ghost function Halfway(byTask: map<Id, Proposal>, ps: seq<Proposal>, i: nat, j: nat): Graph
    requires i < |ps| && j <= |ps[i].dependencies|
  {
    var g, p := EdgesUpTo(byTask, ps, i), ps[i];
    assert IdsOf(ps)[i] == p.proposalId;
    g[p.proposalId := g[p.proposalId] + Resolved(byTask, p.dependencies[..j])]
  }

  lemma OneDependency(byTask: map<Id, Proposal>, ps: seq<Proposal>, i: nat, j: nat, indegree: map<Id, int>,
                      outgoing: map<Id, seq<Id>>)
    requires i < |ps| && j < |ps[i].dependencies|
    requires forall t :: t in byTask ==> byTask[t] in ps
    requires Counted(Halfway(byTask, ps, i, j), indegree, outgoing)
    ensures ps[i].proposalId in indegree
    ensures ps[i].dependencies[j] !in byTask ==> Counted(Halfway(byTask, ps, i, j + 1), indegree, outgoing)
    ensures ps[i].dependencies[j] in byTask ==>
      var x, d := ps[i].proposalId, byTask[ps[i].dependencies[j]].proposalId;
      d in outgoing
        && Counted(Halfway(byTask, ps, i, j + 1), indegree[x := indegree[x] + 1], outgoing[d := outgoing[d] + [x]])
  {
    hide Counted;
    var p, g := ps[i], Halfway(byTask, ps, i, j);
    var known, found := EdgesUpTo(byTask, ps, i)[p.proposalId], Resolved(byTask, p.dependencies[..j]);
    assert p.dependencies[..j + 1][..j] == p.dependencies[..j];
    CountedKeys(g, indegree, outgoing);
    if p.dependencies[j] in byTask {
      var d := byTask[p.dependencies[j]].proposalId;
      InIds(ps, byTask[p.dependencies[j]]);
      CountOneEdge(g, indegree, outgoing, p.proposalId, d);
      assert known + (found + [d]) == (known + found) + [d];
      assert Halfway(byTask, ps, i, j + 1) == g[p.proposalId := g[p.proposalId] + [d]];
    } else {
      assert found + [] == found;
      assert Halfway(byTask, ps, i, j + 1) == g;
    }
  }

  lemma CountedKeys(g: Graph, indegree: map<Id, int>, outgoing: map<Id, seq<Id>>)
    requires Counted(g, indegree, outgoing)
    ensures indegree.Keys == g.Keys && outgoing.Keys == g.Keys
  {
  }

  lemma WholeProposal(byTask: map<Id, Proposal>, ps: seq<Proposal>, i: nat)
    requires i < |ps|
    ensures Halfway(byTask, ps, i, 0) == EdgesUpTo(byTask, ps, i)
    ensures Halfway(byTask, ps, i, |ps[i].dependencies|) == EdgesUpTo(byTask, ps, i + 1)
  {
    var p, g := ps[i], EdgesUpTo(byTask, ps, i);
    assert p.dependencies[..|p.dependencies|] == p.dependencies && p.dependencies[..0] == [];
    assert Resolved(byTask, []) == [] && IdsOf(ps)[i] == p.proposalId;
    assert g[p.proposalId] + [] == g[p.proposalId];
    assert g[p.proposalId := g[p.proposalId]] == g;
  }

  method TasksOf(ps: seq<Proposal>) returns (byTask: map<Id, Proposal>)
    ensures byTask == ByTask(ps)
  {
    byTask := map[];
    for i := 0 to |ps|
      invariant byTask == ByTask(ps[..i])
    {
      assert ps[..i + 1][..i] == ps[..i];
      if HasTask(ps[i]) {
        byTask := byTask[ps[i].globalTaskId.value := ps[i]];
      }
    }
    assert ps[..|ps|] == ps;
  }

  method NoCounts(ps: seq<Proposal>) returns (indegree: map<Id, int>, outgoing: map<Id, seq<Id>>)
    ensures Counted(EdgesUpTo(map[], ps, 0), indegree, outgoing)
  {
    indegree, outgoing := map[], map[];
    for i := 0 to |ps|
      invariant indegree == map id | id in IdsOf(ps)[..i] :: 0
      invariant outgoing == map id | id in IdsOf(ps)[..i] :: []
    {
      indegree := indegree[ps[i].proposalId := 0];
      outgoing := outgoing[ps[i].proposalId := []];
    }
    assert IdsOf(ps)[..|ps|] == IdsOf(ps);
    NothingCounted(ps);
  }

  /** The number of unresolved dependencies of every proposal, and who waits for whom. */
  method CountEdges(ps: seq<Proposal>) returns (indegree: map<Id, int>, outgoing: map<Id, seq<Id>>)
    ensures Counted(DependencyGraph(ps), indegree, outgoing)
  {
    hide Counted, Halfway, Resolved, EdgesUpTo, ByTask;
    var byTask := TasksOf(ps);
    ByTaskFromBatch(ps);
    indegree, outgoing := NoCounts(ps);
    assert EdgesUpTo(map[], ps, 0) == EdgesUpTo(byTask, ps, 0) by {
      NoEdgesYet(byTask, ps);
    }
    for i := 0 to |ps|
      invariant Counted(EdgesUpTo(byTask, ps, i), indegree, outgoing)
    {
      var p := ps[i];
      WholeProposal(byTask, ps, i);
      for j := 0 to |p.dependencies|
        invariant Counted(Halfway(byTask, ps, i, j), indegree, outgoing)
      {
        OneDependency(byTask, ps, i, j, indegree, outgoing);
        if p.dependencies[j] in byTask {
          var d := byTask[p.dependencies[j]].proposalId;
          indegree := indegree[p.proposalId := indegree[p.proposalId] + 1];
          outgoing := outgoing[d := outgoing[d] + [p.proposalId]];
        }
      }
    }
  }

  // ----- the main loop

  /** Everything ordered or queued is a proposal of the batch, once. */
  ghost predicate Placed(ps: seq<Proposal>, queue: seq<Proposal>, ordered: seq<Proposal>) {
    && Distinct(IdsOf(ordered) + IdsOf(queue))
    && forall p :: p in queue || p in ordered ==> p in ps
  }

  /** Each count is that of the dependencies not ordered yet, plus the releases that are
      still pending. */
  ghost predicate Tallied(g: Graph, indegree: map<Id, int>, done: seq<Id>, pending: seq<Id>) {
    && indegree.Keys == g.Keys
    && (forall x :: x in g ==> indegree[x] == Outside(g[x], done) + multiset(pending)[x])
    && (forall x :: x in pending ==> x in g && x !in done)
  }

  /** The queue holds what has no dependency left to wait for. */
  ghost predicate QueuesReady(g: Graph, indegree: map<Id, int>, queued: seq<Id>, done: seq<Id>)
    requires indegree.Keys == g.Keys
  {
    forall x :: x in g && x !in done ==> (x in queued <==> indegree[x] == 0)
  }

  /** What holds while the dependents of the proposal just ordered are being released;
      `pending` are those still to be visited. */
  ghost predicate Coherent(ps: seq<Proposal>, g: Graph, indegree: map<Id, int>, queue: seq<Proposal>,
                           ordered: seq<Proposal>, pending: seq<Id>)
  {
    && Placed(ps, queue, ordered) && g.Keys == Elements(IdsOf(ps))
    && Tallied(g, indegree, IdsOf(ordered), pending)
    && QueuesReady(g, indegree, IdsOf(queue), IdsOf(ordered))
  }

  lemma StartsCoherent(ps: seq<Proposal>, g: Graph, indegree: map<Id, int>, outgoing: map<Id, seq<Id>>,
                       queue: seq<Proposal>)
    requires Distinct(IdsOf(ps)) && Counted(g, indegree, outgoing) && g.Keys == Elements(IdsOf(ps))
    requires Distinct(IdsOf(queue)) && forall p :: p in queue <==> p in ps && indegree[p.proposalId] == 0
    ensures Coherent(ps, g, indegree, queue, [], [])
  {
    forall x | x in g ensures indegree[x] == Outside(g[x], []) {
      OutsideNothing(g[x]);
    }
    forall x | x in g ensures x in IdsOf(queue) <==> indegree[x] == 0 {
      if indegree[x] == 0 {
        var p := Find(ps, x);
        InIds(queue, p);
      }
    }
    assert IdsOf([]) + IdsOf(queue) == IdsOf(queue);
  }

  lemma IdsGrow(ps: seq<Proposal>, p: Proposal)
    ensures IdsOf(ps + [p]) == IdsOf(ps) + [p.proposalId]
  {
  }

  /** Every vertex that depends on an ordered one is ordered. */
  ghost predicate Closed(g: Graph, done: seq<Id>) {
    forall x, d :: x in done && d in Succ(g, x) ==> d in done
  }

  lemma HeadIsReady(ps: seq<Proposal>, g: Graph, indegree: map<Id, int>, queue: seq<Proposal>, ordered: seq<Proposal>)
    requires Coherent(ps, g, indegree, queue, ordered, []) && queue != []
    ensures ReadyAfter(g, IdsOf(ordered), queue[0].proposalId)
    ensures Placed(ps, queue[1..], ordered + [queue[0]])
    ensures queue[0].proposalId !in IdsOf(queue[1..])
  {
    var done, queued, n := IdsOf(ordered), IdsOf(queue), queue[0].proposalId;
    assert queued[1..] == IdsOf(queue[1..]);
    InIds(ps, queue[0]);
    IdsGrow(ordered, queue[0]);
    HeadMoves(done, queued);
    assert n in queued && n in g;
    OutsideZeroIff(g[n], done);
    hide Outside, Distinct, Succ;
  }

  lemma HeadMoves(done: seq<Id>, queued: seq<Id>)
    requires Distinct(done + queued) && queued != []
    ensures Distinct((done + [queued[0]]) + queued[1..])
    ensures queued[0] !in done && queued[0] !in queued[1..]
  {
    var all := done + queued;
    assert (done + [queued[0]]) + queued[1..] == all;
    assert all[|done|] == queued[0];
    forall i | 0 <= i < |done| ensures done[i] != queued[0] {
      assert all[i] == done[i];
    }
    forall i | 1 <= i < |queued| ensures queued[i] != queued[0] {
      assert all[|done| + i] == queued[i];
    }
  }

  lemma TakeKeepsTally(g: Graph, indegree: map<Id, int>, outgoing: map<Id, seq<Id>>, done: seq<Id>, n: Id)
    requires Tallied(g, indegree, done, []) && Links(g, outgoing) && ReadyAfter(g, done, n) && Closed(g, done)
    ensures Tallied(g, indegree, done + [n], outgoing[n])
  {
    var pending := outgoing[n];
    forall x | x in g ensures indegree[x] == Outside(g[x], done + [n]) + multiset(pending)[x] {
      assert CountedEdge(g, outgoing, n, x);
      OutsideOneMore(g[x], done, n);
    }
    forall x | x in pending ensures x in g && x !in done + [n] {
      assert CountedEdge(g, outgoing, n, x);
      assert multiset(pending)[x] > 0;
      assert n in Succ(g, x);
    }
  }

  lemma TailIsReady(g: Graph, indegree: map<Id, int>, queued: seq<Id>, done: seq<Id>)
    requires indegree.Keys == g.Keys && QueuesReady(g, indegree, queued, done) && queued != []
    ensures QueuesReady(g, indegree, queued[1..], done + [queued[0]])
  {
    assert queued == [queued[0]] + queued[1..];
  }

  /** Taking the head of the queue. */
  lemma TakeKeepsCoherent(ps: seq<Proposal>, g: Graph, indegree: map<Id, int>, outgoing: map<Id, seq<Id>>,
                          queue: seq<Proposal>, ordered: seq<Proposal>)
    requires Coherent(ps, g, indegree, queue, ordered, []) && queue != [] && Links(g, outgoing)
      && Closed(g, IdsOf(ordered))
    ensures queue[0].proposalId in outgoing
    ensures Coherent(ps, g, indegree, queue[1..], ordered + [queue[0]], outgoing[queue[0].proposalId])
  {
    HeadIsReady(ps, g, indegree, queue, ordered);
    TakeKeepsTally(g, indegree, outgoing, IdsOf(ordered), queue[0].proposalId);
    TailIsReady(g, indegree, IdsOf(queue), IdsOf(ordered));
    IdsGrow(ordered, queue[0]);
    assert IdsOf(queue)[1..] == IdsOf(queue[1..]);
    hide Tallied, Links, Placed, Closed, ReadyAfter, QueuesReady;
  }

  /** The head of the sorted queue is the least identifier that is ready. */
  lemma HeadIsLeast(ps: seq<Proposal>, g: Graph, rank: Rank, indegree: map<Id, int>, queue: seq<Proposal>,
                    ordered: seq<Proposal>)
    requires Coherent(ps, g, indegree, queue, ordered, []) && queue != [] && SortedById(rank, queue)
    requires Greedy(g, rank, IdsOf(ordered))
    ensures Greedy(g, rank, IdsOf(ordered + [queue[0]]))
  {
    var done, n := IdsOf(ordered), queue[0].proposalId;
    HeadIsReady(ps, g, indegree, queue, ordered);
    IdsGrow(ordered, queue[0]);
    var longer := done + [n];
    forall x | ReadyAfter(g, done, x) ensures rank(n) <= rank(x) {
      OutsideZeroIff(g[x], done);
      var i :| 0 <= i < |queue| && IdsOf(queue)[i] == x;
    }
    forall i | 0 <= i < |longer| ensures PicksLeast(g, rank, longer, i) {
      assert longer[..i] == done[..i];
      assert i < |done| ==> PicksLeast(g, rank, done, i);
      assert i == |done| ==> done[..i] == done;
    }
  }

  lemma ReleaseKeepsTally(g: Graph, indegree: map<Id, int>, done: seq<Id>, pending: seq<Id>)
    requires Tallied(g, indegree, done, pending) && pending != []
    ensures pending[0] in g && pending[0] !in done && indegree[pending[0]] > 0
    ensures Tallied(g, indegree[pending[0] := indegree[pending[0]] - 1], done, pending[1..])
  {
    var x := pending[0];
    assert pending == [x] + pending[1..];
    assert multiset(pending) == multiset{x} + multiset(pending[1..]);
  }

  /** Releasing a dependent that still waits for something else. */
  lemma ReleaseKeepsCoherent(ps: seq<Proposal>, g: Graph, indegree: map<Id, int>, queue: seq<Proposal>,
                             ordered: seq<Proposal>, pending: seq<Id>)
    requires Coherent(ps, g, indegree, queue, ordered, pending) && pending != []
    ensures pending[0] in g && pending[0] in indegree
    ensures indegree[pending[0]] != 1 ==>
      Coherent(ps, g, indegree[pending[0] := indegree[pending[0]] - 1], queue, ordered, pending[1..])
  {
    ReleaseKeepsTally(g, indegree, IdsOf(ordered), pending);
    hide Placed;
  }

  /** Releasing a dependent that waits for nothing else puts it into the queue. */
  lemma EnqueueKeepsCoherent(ps: seq<Proposal>, g: Graph, indegree: map<Id, int>, queue: seq<Proposal>,
                             ordered: seq<Proposal>, pending: seq<Id>, queue': seq<Proposal>)
    requires Coherent(ps, g, indegree, queue, ordered, pending) && pending != [] && pending[0] in g
      && indegree[pending[0]] == 1
    requires multiset(queue') == multiset(queue + [Find(ps, pending[0])])
    ensures Coherent(ps, g, indegree[pending[0] := 0], queue', ordered, pending[1..])
  {
    ReleaseKeepsTally(g, indegree, IdsOf(ordered), pending);
    hide Placed, Tallied, IdsOf, Elements;
    var dependent := Find(ps, pending[0]);
    EnqueueKeepsPlaced(ps, queue, ordered, dependent, queue');
    OneMoreId(queue, dependent, queue');
  }

  lemma OneMoreId(queue: seq<Proposal>, p: Proposal, queue': seq<Proposal>)
    requires multiset(queue') == multiset(queue + [p])
    ensures forall x :: x in IdsOf(queue') <==> x in IdsOf(queue) || x == p.proposalId
  {
    IdsGrow(queue, p);
    SameIds(queue + [p], queue');
    hide IdsOf;
    forall x ensures x in IdsOf(queue') <==> x in IdsOf(queue) + [p.proposalId] {
      assert x in IdsOf(queue') <==> x in multiset(IdsOf(queue'));
    }
  }

  lemma EnqueueKeepsPlaced(ps: seq<Proposal>, queue: seq<Proposal>, ordered: seq<Proposal>, p: Proposal,
                           queue': seq<Proposal>)
    requires Placed(ps, queue, ordered) && p in ps && p.proposalId !in IdsOf(queue) && p.proposalId !in IdsOf(ordered)
    requires multiset(queue') == multiset(queue + [p])
    ensures Placed(ps, queue', ordered)
  {
    var done := IdsOf(ordered);
    IdsGrow(queue, p);
    SameIds(queue + [p], queue');
    assert done + IdsOf(queue + [p]) == (done + IdsOf(queue)) + [p.proposalId];
    assert p.proposalId !in done + IdsOf(queue);
    DistinctAppend(done + IdsOf(queue), p.proposalId);
    DistinctEitherOrder(done, IdsOf(queue + [p]), IdsOf(queue'));
    forall q | q in queue' ensures q in ps {
      assert q in multiset(queue');
    }
  }

  lemma RemoveOne<T>(s: seq<T>, i: nat)
    requires i < |s|
    ensures multiset(s) == multiset(s[..i] + s[i + 1..]) + multiset{s[i]}
  {
    assert s == s[..i] + [s[i]] + s[i + 1..];
  }

  lemma IdsWithout(s: seq<Proposal>, i: nat)
    requires i < |s|
    ensures multiset(IdsOf(s)) == multiset(IdsOf(s[..i] + s[i + 1..])) + multiset{s[i].proposalId}
  {
    RemoveOne(IdsOf(s), i);
    assert IdsOf(s)[..i] + IdsOf(s)[i + 1..] == IdsOf(s[..i] + s[i + 1..]);
  }

  lemma CancelOne<T>(a: multiset<T>, b: multiset<T>, x: T)
    requires a + multiset{x} == b + multiset{x}
    ensures a == b
  {
    assert a == (a + multiset{x}) - multiset{x};
    assert b == (b + multiset{x}) - multiset{x};
  }

  lemma HeadAndTail<T>(s: seq<T>)
    requires s != []
    ensures multiset(s) == multiset(s[1..]) + multiset{s[0]}
  {
    assert s == [s[0]] + s[1..];
  }

  lemma IdsHeadAndTail(s: seq<Proposal>)
    requires s != []
    ensures multiset(IdsOf(s)) == multiset(IdsOf(s[1..])) + multiset{s[0].proposalId}
  {
    HeadAndTail(IdsOf(s));
    assert IdsOf(s)[1..] == IdsOf(s[1..]);
  }

  /** Without a shared member two arrangements still are arrangements of the same. */
  lemma SameRest<T>(a: seq<T>, b: seq<T>, i: nat)
    requires multiset(a) == multiset(b) && a != [] && i < |b| && b[i] == a[0]
    ensures multiset(a[1..]) == multiset(b[..i] + b[i + 1..])
  {
    HeadAndTail(a);
    RemoveOne(b, i);
    CancelOne(multiset(a[1..]), multiset(b[..i] + b[i + 1..]), a[0]);
  }

  lemma SharedMember<T>(a: seq<T>, b: seq<T>) returns (i: nat)
    requires multiset(a) == multiset(b) && a != []
    ensures i < |b| && b[i] == a[0]
  {
    assert a[0] in multiset(b);
    i :| i < |b| && b[i] == a[0];
  }

  lemma SameLength<T>(a: seq<T>, b: seq<T>)
    requires multiset(a) == multiset(b)
    ensures |a| == |b|
  {
    assert |multiset(a)| == |a| && |multiset(b)| == |b|;
  }

  lemma {:induction false} SameIds(a: seq<Proposal>, b: seq<Proposal>)
    requires multiset(a) == multiset(b)
    ensures multiset(IdsOf(a)) == multiset(IdsOf(b))
    decreases |a|
  {
    hide IdsOf;
    SameLength(a, b);
    if a == [] {
      assert a == b;
    } else {
      var i := SharedMember(a, b);
      SameRest(a, b, i);
      SameIds(a[1..], b[..i] + b[i + 1..]);
      IdsHeadAndTail(a);
      IdsWithout(b, i);
    }
  }

  lemma DistinctEitherOrder(front: seq<Id>, a: seq<Id>, b: seq<Id>)
    requires Distinct(front + a) && multiset(a) == multiset(b)
    ensures Distinct(front + b)
  {
    DistinctIsCount(front + a);
    assert multiset(front + b) == multiset(front + a);
    forall i, j | 0 <= i < j < |front + b| ensures (front + b)[i] != (front + b)[j] {
      if (front + b)[i] == (front + b)[j] {
        TwiceIsTwo(front + b, i, j);
        assert false;
      }
    }
  }

  lemma TwiceIsTwo(s: seq<Id>, i: nat, j: nat)
    requires i < j < |s| && s[i] == s[j]
    ensures multiset(s)[s[i]] >= 2
  {
    assert s == s[..i] + [s[i]] + s[i + 1..j] + [s[j]] + s[j + 1..];
  }

  lemma {:induction false} DistinctIsCount(s: seq<Id>)
    requires Distinct(s)
    ensures forall x :: multiset(s)[x] <= 1
  {
    if s != [] {
      var front, last := s[..|s| - 1], s[|s| - 1];
      DistinctIsCount(front);
      assert s == front + [last];
      assert last !in front;
    }
  }

  /** The whole loop invariant. */
  ghost predicate Progress(ps: seq<Proposal>, g: Graph, rank: Rank, indegree: map<Id, int>, queue: seq<Proposal>,
                           ordered: seq<Proposal>, pending: seq<Id>) {
    && Coherent(ps, g, indegree, queue, ordered, pending)
    && SortedById(rank, queue)
    && Greedy(g, rank, IdsOf(ordered))
  }

  lemma Take(ps: seq<Proposal>, g: Graph, rank: Rank, indegree: map<Id, int>, outgoing: map<Id, seq<Id>>,
             queue: seq<Proposal>, ordered: seq<Proposal>)
    requires Progress(ps, g, rank, indegree, queue, ordered, []) && queue != [] && Links(g, outgoing)
    ensures queue[0].proposalId in outgoing
    ensures Progress(ps, g, rank, indegree, queue[1..], ordered + [queue[0]], outgoing[queue[0].proposalId])
  {
    GreedyPutsDependenciesFirst(g, rank, IdsOf(ordered));
    assert SortedById(rank, queue[1..]);
    hide Coherent, Links, Greedy, SortedById;
    TakeKeepsCoherent(ps, g, indegree, outgoing, queue, ordered);
    HeadIsLeast(ps, g, rank, indegree, queue, ordered);
  }

  lemma Release(ps: seq<Proposal>, g: Graph, rank: Rank, indegree: map<Id, int>, queue: seq<Proposal>,
                ordered: seq<Proposal>, pending: seq<Id>)
    requires Progress(ps, g, rank, indegree, queue, ordered, pending) && pending != []
    ensures pending[0] in indegree && pending[0] in IdsOf(ps)
    ensures var degree := indegree[pending[0]] - 1;
            var queue' := if degree == 0 then SortById(rank, queue + [Find(ps, pending[0])]) else queue;
            Progress(ps, g, rank, indegree[pending[0] := degree], queue', ordered, pending[1..])
  {
    ReleaseKeepsCoherent(ps, g, indegree, queue, ordered, pending);
    assert pending[0] in Elements(IdsOf(ps));
    if indegree[pending[0]] == 1 {
      SortSortsById(rank, queue + [Find(ps, pending[0])]);
      hide Coherent;
      EnqueueKeepsCoherent(ps, g, indegree, queue, ordered, pending, SortById(rank, queue + [Find(ps, pending[0])]));
    }
  }

  lemma {:induction false} AllPlaced(ps: seq<Proposal>, ordered: seq<Proposal>)
    requires Distinct(IdsOf(ordered)) && |ordered| == |ps| && forall p :: p in ordered ==> p in ps
    ensures multiset(ordered) == multiset(ps)
    decreases |ps|
  {
    if ordered != [] {
      var n := |ordered| - 1;
      assert ordered[n] in ps;
      var i :| 0 <= i < |ps| && ps[i] == ordered[n];
      var rest := ps[..i] + ps[i + 1..];
      RemoveOne(ps, i);
      RemoveOne(ordered, n);
      assert ordered[..n] + ordered[n + 1..] == ordered[..n];
      assert IdsOf(ordered[..n]) == IdsOf(ordered)[..n];
      forall p | p in ordered[..n] ensures p in rest {
        var k :| 0 <= k < n && ordered[k] == p;
        assert IdsOf(ordered)[k] != IdsOf(ordered)[n] && ordered[k] in ps;
        var j :| 0 <= j < |ps| && ps[j] == p;
        assert j < i ==> rest[j] == p;
        assert j > i ==> rest[j - 1] == p;
      }
      AllPlaced(rest, ordered[..n]);
    }
  }

  lemma SomeoneLeft(ps: seq<Proposal>, ordered: seq<Proposal>)
    requires Distinct(IdsOf(ps)) && Distinct(IdsOf(ordered)) && (forall p :: p in ordered ==> p in ps)
    requires |ordered| != |ps|
    ensures Elements(IdsOf(ps)) - Elements(IdsOf(ordered)) != {}
  {
    var all, done := Elements(IdsOf(ps)), Elements(IdsOf(ordered));
    DistinctCardinality(IdsOf(ps));
    DistinctCardinality(IdsOf(ordered));
    forall x | x in done ensures x in all {
      InIds(ps, Find(ordered, x));
    }
    assert |all| == |ps| && |done| == |ordered|;
    assert all == done + (all - done);
  }

  /** What is left when the queue runs dry waits for something else that is left. */
  lemma LeftoversAreCyclic(ps: seq<Proposal>, g: Graph, indegree: map<Id, int>, ordered: seq<Proposal>)
    requires Coherent(ps, g, indegree, [], ordered, []) && NothingMissing(g)
    requires Elements(IdsOf(ps)) - Elements(IdsOf(ordered)) != {}
    ensures !Acyclic(g)
  {
    var done := IdsOf(ordered);
    var left := Elements(IdsOf(ps)) - Elements(done);
    forall x {:trigger HasSuccessorIn(g, left, x)} | x in left ensures HasSuccessorIn(g, left, x) {
      OutsideZeroIff(g[x], done);
      assert indegree[x] != 0;
      var d :| d in g[x] && d !in done;
      assert Edge(g, x, d);
    }
    NoSinkMeansCycle(g, left);
  }

  lemma Finish(ps: seq<Proposal>, rank: Rank, indegree: map<Id, int>, ordered: seq<Proposal>)
    requires Distinct(IdsOf(ps)) && Progress(ps, DependencyGraph(ps), rank, indegree, [], ordered, [])
    ensures |ordered| == |ps| ==> OrderedAs(ps, rank, ordered)
    ensures |ordered| != |ps| ==> !Acyclic(DependencyGraph(ps))
  {
    var g, done := DependencyGraph(ps), IdsOf(ordered);
    DependencyGraphIsClosed(ps);
    assert IdsOf(ordered) + IdsOf([]) == IdsOf(ordered);
    GreedyPutsDependenciesFirst(g, rank, done);
    hide Tallied, QueuesReady, Greedy, DependencyGraph;
    if |ordered| == |ps| {
      AllPlaced(ps, ordered);
      SameIds(ordered, ps);
      forall a, b | Edge(g, a, b) ensures a in done {
        assert a in multiset(IdsOf(ps));
      }
      OrderedIsAcyclic(g, done);
    } else {
      SomeoneLeft(ps, ordered);
      LeftoversAreCyclic(ps, g, indegree, ordered);
    }
  }

  /** The proposals of a batch with nothing to wait for. */
  function Sources(ps: seq<Proposal>, indegree: map<Id, int>): seq<Proposal> {
    if ps == [] then []
    else
      var last := ps[|ps| - 1];
      Sources(ps[..|ps| - 1], indegree)
      + if last.proposalId in indegree && indegree[last.proposalId] == 0 then [last] else []
  }

  lemma {:induction false} SourcesAre(ps: seq<Proposal>, indegree: map<Id, int>)
    requires forall p :: p in ps ==> p.proposalId in indegree
    ensures forall p :: p in Sources(ps, indegree) <==> p in ps && indegree[p.proposalId] == 0
  {
    if ps != [] {
      var front, last := ps[..|ps| - 1], ps[|ps| - 1];
      assert forall p :: p in ps <==> p in front || p == last;
      SourcesAre(front, indegree);
    }
  }

  /** The identifiers of the sources are among those of the batch, each once. */
  ghost predicate DistinctSources(ps: seq<Proposal>, sources: seq<Proposal>) {
    Distinct(IdsOf(sources)) && forall id :: id in IdsOf(sources) ==> id in IdsOf(ps)
  }

  lemma {:induction false} SourcesAreDistinct(ps: seq<Proposal>, indegree: map<Id, int>)
    requires Distinct(IdsOf(ps))
    ensures DistinctSources(ps, Sources(ps, indegree))
  {
    if ps != [] {
      hide IdsOf, Distinct, DistinctSources;
      var front, last := ps[..|ps| - 1], ps[|ps| - 1];
      assert ps == front + [last];
      IdsGrow(front, last);
      FrontDistinct(IdsOf(front), last.proposalId);
      SourcesAreDistinct(front, indegree);
      OneMoreSource(front, Sources(front, indegree), last);
    } else {
      NoIds();
    }
  }

  lemma NoIds()
    ensures DistinctSources([], [])
  {
  }

  lemma OneMoreSource(front: seq<Proposal>, sources: seq<Proposal>, last: Proposal)
    requires DistinctSources(front, sources) && last.proposalId !in IdsOf(front)
    ensures DistinctSources(front + [last], sources) && DistinctSources(front + [last], sources + [last])
  {
    hide IdsOf, Distinct;
    IdsGrow(front, last);
    IdsGrow(sources, last);
    DistinctAppend(IdsOf(sources), last.proposalId);
  }

  lemma FrontDistinct(s: seq<Id>, x: Id)
    requires Distinct(s + [x])
    ensures Distinct(s) && x !in s
  {
    var longer := s + [x];
    forall i, j | 0 <= i < j < |s| ensures s[i] != s[j] {
      assert longer[i] != longer[j];
    }
    forall i | 0 <= i < |s| ensures s[i] != x {
      assert longer[i] != longer[|s|];
    }
  }

  lemma DistinctAppend(s: seq<Id>, x: Id)
    requires Distinct(s)
    ensures x !in s ==> Distinct(s + [x])
  {
  }

  // ----- termination

  ghost function Waiting(indegree: map<Id, int>): set<Id> {
    set x | x in indegree && indegree[x] > 0
  }

  /** Every release either leaves the number of waiting vertices alone or lowers it by the
      one that joins the queue. */
  lemma WaitingAfter(indegree: map<Id, int>, x: Id)
    requires x in indegree
    ensures var indegree' := indegree[x := indegree[x] - 1];
            |Waiting(indegree')| == |Waiting(indegree)| - if indegree[x] == 1 then 1 else 0
  {
    var indegree' := indegree[x := indegree[x] - 1];
    if indegree[x] == 1 {
      assert Waiting(indegree) == Waiting(indegree') + {x};
    } else {
      assert Waiting(indegree') == Waiting(indegree);
    }
  }

  /** The tables and the queue only ever mention proposals of the batch. */
  ghost predicate InBatch(ps: seq<Proposal>, indegree: map<Id, int>, queue: seq<Proposal>) {
    indegree.Keys == Elements(IdsOf(ps)) && forall p :: p in queue ==> p in ps
  }

  lemma SortStaysInBatch(rank: Rank, ps: seq<Proposal>, s: seq<Proposal>)
    requires forall p :: p in s ==> p in ps
    ensures |SortById(rank, s)| == |s| && forall p :: p in SortById(rank, s) ==> p in ps
  {
    SortSortsById(rank, s);
    assert |multiset(s)| == |s| && |multiset(SortById(rank, s))| == |SortById(rank, s)|;
    forall p | p in SortById(rank, s) ensures p in ps {
      assert p in multiset(SortById(rank, s));
    }
  }

  // ----- the method

  /** Total on every batch; its promise is for batches without duplicate identifiers. */
  method OrderProposals(ps: seq<Proposal>, rank: Rank) returns (out: seq<Proposal>)
    ensures Distinct(IdsOf(ps)) ==> OrderedAs(ps, rank, out)
  {
    ghost var g, distinct := DependencyGraph(ps), Distinct(IdsOf(ps));
    var indegree, outgoing := CountEdges(ps);
    var queue, ordered := SortById(rank, Sources(ps, indegree)), [];
    hide Progress, Counted, Sources, SortById, DependencyGraph, OrderedAs, SortedById, Links, Waiting, Linked, InBatch;
    hide IdsOf, Elements, Distinct;
    Begin(ps, rank, indegree, outgoing);
    while queue != []
      invariant InBatch(ps, indegree, queue) && Links(g, outgoing) && Linked(ps, outgoing)
      invariant distinct ==> Progress(ps, g, rank, indegree, queue, ordered, [])
      decreases |Waiting(indegree)| + |queue|
    {
      var next := queue[0];
      TakeInBatch(ps, indegree, outgoing, queue);
      if distinct {
        Take(ps, g, rank, indegree, outgoing, queue, ordered);
      }
      ghost var budget := |Waiting(indegree)| + |queue|;
      queue, ordered := queue[1..], ordered + [next];
      var dependents := outgoing[next.proposalId];
      for i := 0 to |dependents|
        invariant InBatch(ps, indegree, queue)
        invariant |Waiting(indegree)| + |queue| < budget
        invariant distinct ==> Progress(ps, g, rank, indegree, queue, ordered, dependents[i..])
      {
        var dependentId := dependents[i];
        assert dependents[i..][0] == dependentId && dependents[i..][1..] == dependents[i + 1..];
        if distinct {
          Release(ps, g, rank, indegree, queue, ordered, dependents[i..]);
        }
        assert dependentId in dependents;
        ReleaseInBatch(ps, rank, indegree, queue, dependentId);
        WaitingAfter(indegree, dependentId);
        var degree := indegree[dependentId] - 1;
        indegree := indegree[dependentId := degree];
        if degree == 0 {
          queue := SortById(rank, queue + [Find(ps, dependentId)]);
        }
      }
      assert dependents[|dependents|..] == [];
    }
    if distinct {
      Finish(ps, rank, indegree, ordered);
    }
    if |ordered| != |ps| {
      Fallback(ps, rank);
      return SortById(rank, ps);
    }
    out := ordered;
  }

  lemma TakeInBatch(ps: seq<Proposal>, indegree: map<Id, int>, outgoing: map<Id, seq<Id>>, queue: seq<Proposal>)
    requires InBatch(ps, indegree, queue) && Linked(ps, outgoing) && queue != []
    ensures InBatch(ps, indegree, queue[1..]) && queue[0].proposalId in outgoing
    ensures forall x :: x in outgoing[queue[0].proposalId] ==> x in IdsOf(ps)
  {
    InIds(ps, queue[0]);
  }

  lemma ReleaseInBatch(ps: seq<Proposal>, rank: Rank, indegree: map<Id, int>, queue: seq<Proposal>, x: Id)
    requires InBatch(ps, indegree, queue) && x in IdsOf(ps)
    ensures x in indegree
    ensures var indegree', queue' := indegree[x := indegree[x] - 1], SortById(rank, queue + [Find(ps, x)]);
            InBatch(ps, indegree', queue) && |queue'| == |queue| + 1 && InBatch(ps, indegree', queue')
  {
    SortStaysInBatch(rank, ps, queue + [Find(ps, x)]);
    hide SortById;
    assert x in Elements(IdsOf(ps));
  }

  /** Every target has a list of proposals of the batch. */
  ghost predicate Linked(ps: seq<Proposal>, outgoing: map<Id, seq<Id>>) {
    && outgoing.Keys == Elements(IdsOf(ps))
    && forall d, x :: d in outgoing && x in outgoing[d] ==> x in IdsOf(ps)
  }

  lemma Begin(ps: seq<Proposal>, rank: Rank, indegree: map<Id, int>, outgoing: map<Id, seq<Id>>)
    requires Counted(DependencyGraph(ps), indegree, outgoing)
    ensures var queue := SortById(rank, Sources(ps, indegree));
            && InBatch(ps, indegree, queue) && Links(DependencyGraph(ps), outgoing) && Linked(ps, outgoing)
            && (Distinct(IdsOf(ps)) ==> Progress(ps, DependencyGraph(ps), rank, indegree, queue, [], []))
  {
    hide SortById, Sources, DependencyGraph, Progress, Counted, Linked, Links, Distinct;
    CountedInBatch(ps, DependencyGraph(ps), indegree, outgoing);
    SourcesAre(ps, indegree);
    if Distinct(IdsOf(ps)) {
      SourcesAreDistinct(ps, indegree);
    }
    SortStaysInBatch(rank, ps, Sources(ps, indegree));
    if Distinct(IdsOf(ps)) {
      BeginInOrder(ps, rank, indegree, outgoing, Sources(ps, indegree));
    }
  }

  lemma CountedInBatch(ps: seq<Proposal>, g: Graph, indegree: map<Id, int>, outgoing: map<Id, seq<Id>>)
    requires Counted(g, indegree, outgoing) && g.Keys == Elements(IdsOf(ps))
    ensures indegree.Keys == Elements(IdsOf(ps)) && Links(g, outgoing) && Linked(ps, outgoing)
    ensures forall p :: p in ps ==> p.proposalId in indegree
  {
    forall p | p in ps ensures p.proposalId in indegree {
      InIds(ps, p);
    }
    forall d, x | d in outgoing && x in outgoing[d] ensures x in IdsOf(ps) {
      assert d in g && x in g;
      assert x in Elements(IdsOf(ps));
    }
  }

  /** Sorting changes neither the members nor that their identifiers are distinct. */
  lemma SortKeepsMembers(rank: Rank, s: seq<Proposal>)
    requires Distinct(IdsOf(s))
    ensures Distinct(IdsOf(SortById(rank, s)))
    ensures forall p :: p in SortById(rank, s) <==> p in s
  {
    hide SortById;
    SortSortsById(rank, s);
    DistinctAnyOrder(s, SortById(rank, s));
    SameMembers(s, SortById(rank, s));
  }

  lemma BeginInOrder(ps: seq<Proposal>, rank: Rank, indegree: map<Id, int>, outgoing: map<Id, seq<Id>>,
                     sources: seq<Proposal>)
    requires Counted(DependencyGraph(ps), indegree, outgoing) && Distinct(IdsOf(ps))
    requires Distinct(IdsOf(sources)) && forall p :: p in sources <==> p in ps && indegree[p.proposalId] == 0
    ensures Progress(ps, DependencyGraph(ps), rank, indegree, SortById(rank, sources), [], [])
  {
    hide SortById, DependencyGraph, Coherent, Counted, IdsOf, Distinct;
    SortSortsById(rank, sources);
    SortKeepsMembers(rank, sources);
    StartsCoherent(ps, DependencyGraph(ps), indegree, outgoing, SortById(rank, sources));
    assert IdsOf([]) == [];
  }

  lemma Fallback(ps: seq<Proposal>, rank: Rank)
    ensures !Acyclic(DependencyGraph(ps)) ==> OrderedAs(ps, rank, SortById(rank, ps))
  {
    SortSortsById(rank, ps);
  }

  // ----- the same order for every arrangement of the batch

  /** No two proposals of the batch stand for the same task. */
  ghost predicate DistinctTasks(ps: seq<Proposal>) {
    forall p, q :: p in ps && q in ps && HasTask(p) && HasTask(q) && p.globalTaskId == q.globalTaskId ==> p == q
  }

  /** The locale tells the batch's identifiers apart. */
  ghost predicate Separates(rank: Rank, ids: seq<Id>) {
    forall a, b :: a in ids && b in ids && rank(a) == rank(b) ==> a == b
  }

  lemma SameIdSameProposal(ps: seq<Proposal>, p: Proposal, q: Proposal)
    requires Distinct(IdsOf(ps)) && p in ps && q in ps && p.proposalId == q.proposalId
    ensures p == q
  {
    var i :| 0 <= i < |ps| && ps[i] == p;
    var j :| 0 <= j < |ps| && ps[j] == q;
    assert IdsOf(ps)[i] == IdsOf(ps)[j];
  }

  lemma {:induction false} ByTaskIs(ps: seq<Proposal>)
    requires DistinctTasks(ps)
    ensures forall p :: p in ps && HasTask(p) ==>
      p.globalTaskId.value in ByTask(ps) && ByTask(ps)[p.globalTaskId.value] == p
    ensures forall t :: t in ByTask(ps) ==>
      ByTask(ps)[t] in ps && HasTask(ByTask(ps)[t]) && ByTask(ps)[t].globalTaskId.value == t
  {
    if ps != [] {
      var front, last := ps[..|ps| - 1], ps[|ps| - 1];
      assert ps == front + [last];
      assert forall p :: p in ps <==> p in front || p == last;
      ByTaskIs(front);
    }
  }

  lemma EdgesStep(byTask: map<Id, Proposal>, ps: seq<Proposal>, n: nat, id: Id)
    requires n < |ps| && id in IdsOf(ps)
    ensures id in EdgesUpTo(byTask, ps, n) && id in EdgesUpTo(byTask, ps, n + 1)
    ensures EdgesUpTo(byTask, ps, n + 1)[id]
         == EdgesUpTo(byTask, ps, n)[id] + if ps[n].proposalId == id then Resolved(byTask, ps[n].dependencies) else []
  {
    hide Resolved;
    assert id in Elements(IdsOf(ps)) && IdsOf(ps)[n] in Elements(IdsOf(ps));
  }

  lemma IdAt(ps: seq<Proposal>, i: nat)
    requires i < |ps|
    ensures ps[i].proposalId in IdsOf(ps) && ps[i].proposalId in Elements(IdsOf(ps))
  {
    assert IdsOf(ps)[i] == ps[i].proposalId;
  }

  lemma IdsDiffer(ps: seq<Proposal>, i: nat, j: nat)
    requires Distinct(IdsOf(ps)) && i < |ps| && j < |ps| && i != j
    ensures ps[i].proposalId != ps[j].proposalId
  {
    assert IdsOf(ps)[i] != IdsOf(ps)[j];
  }

  lemma {:induction false} EdgesOfProposal(byTask: map<Id, Proposal>, ps: seq<Proposal>, n: nat, i: nat)
    requires n <= |ps| && i < |ps| && Distinct(IdsOf(ps))
    ensures ps[i].proposalId in EdgesUpTo(byTask, ps, n)
    ensures EdgesUpTo(byTask, ps, n)[ps[i].proposalId] == if i < n then Resolved(byTask, ps[i].dependencies) else []
  {
    hide Resolved, EdgesUpTo, IdsOf, Distinct;
    IdAt(ps, i);
    assert [] + Resolved(byTask, ps[i].dependencies) == Resolved(byTask, ps[i].dependencies);
    if n == 0 {
      NoEdgesAt(byTask, ps, ps[i].proposalId);
    } else {
      EdgesOfProposal(byTask, ps, n - 1, i);
      EdgesStep(byTask, ps, n - 1, ps[i].proposalId);
      if i != n - 1 {
        IdsDiffer(ps, i, n - 1);
      }
    }
  }

  lemma NoEdgesAt(byTask: map<Id, Proposal>, ps: seq<Proposal>, id: Id)
    requires id in IdsOf(ps)
    ensures id in EdgesUpTo(byTask, ps, 0) && EdgesUpTo(byTask, ps, 0)[id] == []
  {
  }

  lemma EdgesOf(ps: seq<Proposal>, p: Proposal)
    requires Distinct(IdsOf(ps)) && p in ps
    ensures p.proposalId in DependencyGraph(ps)
      && DependencyGraph(ps)[p.proposalId] == Resolved(ByTask(ps), p.dependencies)
  {
    var i :| 0 <= i < |ps| && ps[i] == p;
    EdgesOfProposal(ByTask(ps), ps, |ps|, i);
  }

  lemma {:induction false} ResolvedIff(byTask: map<Id, Proposal>, dependencies: seq<Id>, x: Id)
    ensures x in Resolved(byTask, dependencies) <==>
      exists t :: t in dependencies && t in byTask && byTask[t].proposalId == x
  {
    if dependencies != [] {
      var n := |dependencies| - 1;
      ResolvedIff(byTask, dependencies[..n], x);
      assert forall t :: t in dependencies <==> t in dependencies[..n] || t == dependencies[n];
    }
  }

  /** The last proposal of the batch that stands for a task; the empty task stands for none. */
  ghost predicate StandsFor(ps: seq<Proposal>, k: nat, t: Id) {
    && k < |ps| && t != "" && ps[k].globalTaskId == Some(t)
    && forall j :: k < j < |ps| ==> ps[j].globalTaskId != Some(t)
  }

  lemma StandsForLonger(ps: seq<Proposal>, p: Proposal, k: nat, t: Id)
    requires k < |ps|
    ensures StandsFor(ps + [p], k, t) <==> StandsFor(ps, k, t) && p.globalTaskId != Some(t)
  {
    var longer := ps + [p];
    assert longer[|ps|] == p && longer[k] == ps[k];
    if StandsFor(longer, k, t) {
      forall j | k < j < |ps| ensures ps[j].globalTaskId != Some(t) {
        assert longer[j] == ps[j];
      }
    }
  }

  lemma {:induction false} ByTaskAt(ps: seq<Proposal>, t: Id, k: nat)
    requires StandsFor(ps, k, t)
    ensures t in ByTask(ps) && ByTask(ps)[t] == ps[k]
  {
    var n := |ps| - 1;
    assert ps == ps[..n] + [ps[n]];
    if k < n {
      StandsForLonger(ps[..n], ps[n], k, t);
      ByTaskAt(ps[..n], t, k);
    }
  }

  lemma {:induction false} ByTaskStands(ps: seq<Proposal>, t: Id) returns (k: nat)
    requires t in ByTask(ps)
    ensures StandsFor(ps, k, t)
  {
    var n := |ps| - 1;
    assert ps == ps[..n] + [ps[n]];
    if HasTask(ps[n]) && ps[n].globalTaskId == Some(t) {
      k := n;
    } else {
      k := ByTaskStands(ps[..n], t);
      StandsForLonger(ps[..n], ps[n], k, t);
      NoEmptyTask(ps[..n], t);
    }
  }

  lemma {:induction false} NoEmptyTask(ps: seq<Proposal>, t: Id)
    requires t in ByTask(ps)
    ensures t != ""
  {
    if ps != [] && t in ByTask(ps[..|ps| - 1]) {
      NoEmptyTask(ps[..|ps| - 1], t);
    }
  }

  /** What a proposal depends on: the proposals that stand for its dependencies. */
  lemma DependencyIff(ps: seq<Proposal>, p: Proposal, x: Id)
    requires Distinct(IdsOf(ps)) && p in ps
    ensures Edge(DependencyGraph(ps), p.proposalId, x) <==>
      exists t, k: nat :: t in p.dependencies && StandsFor(ps, k, t) && k < |ps| && ps[k].proposalId == x
  {
    hide DependencyGraph, ByTask, Resolved, IdsOf;
    EdgesOf(ps, p);
    ResolvedIff(ByTask(ps), p.dependencies, x);
    if t :| t in p.dependencies && t in ByTask(ps) && ByTask(ps)[t].proposalId == x {
      var k := ByTaskStands(ps, t);
      ByTaskAt(ps, t, k);
    }
    if t, k: nat :| t in p.dependencies && StandsFor(ps, k, t) && k < |ps| && ps[k].proposalId == x {
      ByTaskAt(ps, t, k);
    }
  }

  /** On an acyclic batch nothing is ordered before the proposals that it depends on. */
  lemma DependenciesComeFirst(ps: seq<Proposal>, rank: Rank, out: seq<Proposal>, i: nat, t: Id, k: nat)
    requires Distinct(IdsOf(ps)) && OrderedAs(ps, rank, out) && Acyclic(DependencyGraph(ps))
    requires i < |out| && t in out[i].dependencies && StandsFor(ps, k, t)
    ensures exists j :: 0 <= j < i && out[j] == ps[k]
  {
    hide DependencyGraph, Greedy, SortedById;
    SameMembers(out, ps);
    assert out[i] in out;
    DependencyIff(ps, out[i], ps[k].proposalId);
    assert Edge(DependencyGraph(ps), IdsOf(out)[i], ps[k].proposalId);
    assert ps[k].proposalId in IdsOf(out)[..i];
    var j :| 0 <= j < i && IdsOf(out)[j] == ps[k].proposalId;
    assert out[j] in out && ps[k] in ps;
    SameIdSameProposal(ps, out[j], ps[k]);
  }

  lemma SameMembers(ps: seq<Proposal>, qs: seq<Proposal>)
    requires multiset(ps) == multiset(qs)
    ensures forall p :: p in ps <==> p in qs
  {
    assert forall p :: p in ps <==> p in multiset(ps);
  }

  lemma SameByTask(ps: seq<Proposal>, qs: seq<Proposal>)
    requires DistinctTasks(ps) && multiset(ps) == multiset(qs)
    ensures ByTask(ps) == ByTask(qs)
  {
    SameMembers(ps, qs);
    ByTaskIs(ps);
    ByTaskIs(qs);
    hide ByTask;
  }

  lemma SameIdSet(ps: seq<Proposal>, qs: seq<Proposal>)
    requires multiset(ps) == multiset(qs)
    ensures Elements(IdsOf(ps)) == Elements(IdsOf(qs))
  {
    SameIds(ps, qs);
    hide IdsOf;
    SameElements(IdsOf(ps), IdsOf(qs));
  }

  lemma SameElements<T>(a: seq<T>, b: seq<T>)
    requires multiset(a) == multiset(b)
    ensures Elements(a) == Elements(b)
  {
    assert forall x :: x in a <==> x in multiset(a);
    assert forall x :: x in b <==> x in multiset(b);
  }

  lemma SameGraph(ps: seq<Proposal>, qs: seq<Proposal>)
    requires Distinct(IdsOf(ps)) && Distinct(IdsOf(qs)) && DistinctTasks(ps) && multiset(ps) == multiset(qs)
    ensures DependencyGraph(ps) == DependencyGraph(qs)
  {
    hide ByTask, DependencyGraph, Resolved, IdsOf, Distinct, DistinctTasks;
    SameByTask(ps, qs);
    SameMembers(ps, qs);
    SameIdSet(ps, qs);
    forall id | id in DependencyGraph(ps) ensures DependencyGraph(ps)[id] == DependencyGraph(qs)[id] {
      var p := Find(ps, id);
      EdgesOf(ps, p);
      EdgesOf(qs, p);
    }
  }

  lemma {:induction false} GreedyIsUnique(g: Graph, rank: Rank, a: seq<Id>, b: seq<Id>, n: nat)
    requires Greedy(g, rank, a) && Greedy(g, rank, b) && n <= |a| && n <= |b|
    requires forall x, y :: x in g && y in g && rank(x) == rank(y) ==> x == y
    ensures a[..n] == b[..n]
  {
    if n > 0 {
      GreedyIsUnique(g, rank, a, b, n - 1);
      assert PicksLeast(g, rank, a, n - 1) && PicksLeast(g, rank, b, n - 1);
      assert ReadyAfter(g, b[..n - 1], a[n - 1]) && ReadyAfter(g, a[..n - 1], b[n - 1]);
      assert a[..n] == a[..n - 1] + [a[n - 1]] && b[..n] == b[..n - 1] + [b[n - 1]];
    }
  }

  /** Two sorted arrangements of the same proposals. */
  ghost predicate BothSorted(rank: Rank, a: seq<Proposal>, b: seq<Proposal>) {
    && SortedById(rank, a) && SortedById(rank, b) && multiset(a) == multiset(b)
    && Distinct(IdsOf(a)) && Separates(rank, IdsOf(a))
  }

  lemma {:induction false} SortedIsUnique(rank: Rank, a: seq<Proposal>, b: seq<Proposal>)
    requires BothSorted(rank, a, b) && |a| == |b|
    ensures a == b
    decreases |a|
  {
    if a != [] {
      HeadsAgree(rank, a, b);
      TailsAgree(rank, a, b);
      hide BothSorted;
      SortedIsUnique(rank, a[1..], b[1..]);
      assert a == [a[0]] + a[1..] && b == [b[0]] + b[1..];
    }
  }

  lemma TailsAgree(rank: Rank, a: seq<Proposal>, b: seq<Proposal>)
    requires BothSorted(rank, a, b) && a != [] && b != [] && a[0] == b[0]
    ensures BothSorted(rank, a[1..], b[1..])
  {
    SameTails(a, b);
    assert IdsOf(a[1..]) == IdsOf(a)[1..];
  }

  lemma SameTails<T>(a: seq<T>, b: seq<T>)
    requires multiset(a) == multiset(b) && a != [] && b != [] && a[0] == b[0]
    ensures multiset(a[1..]) == multiset(b[1..])
  {
    SameRest(a, b, 0);
    assert b[..0] + b[0 + 1..] == b[1..];
  }

  lemma HeadsAgree(rank: Rank, a: seq<Proposal>, b: seq<Proposal>)
    requires BothSorted(rank, a, b) && a != [] && b != []
    ensures a[0] == b[0]
  {
    SameMembers(a, b);
    assert a[0] in b && b[0] in a;
    var i :| 0 <= i < |b| && b[i] == a[0];
    var j :| 0 <= j < |a| && a[j] == b[0];
    InIds(a, a[0]);
    InIds(a, b[0]);
    assert rank(a[0].proposalId) == rank(b[0].proposalId);
    SameIdSameProposal(a, a[0], b[0]);
  }

  lemma SameIdsSameProposals(ps: seq<Proposal>, a: seq<Proposal>, b: seq<Proposal>)
    requires Distinct(IdsOf(ps)) && (forall p :: p in a || p in b ==> p in ps) && IdsOf(a) == IdsOf(b)
    ensures a == b
  {
    forall i | 0 <= i < |a| ensures a[i] == b[i] {
      assert IdsOf(a)[i] == IdsOf(b)[i];
      SameIdSameProposal(ps, a[i], b[i]);
    }
  }

  lemma DistinctAnyOrder(ps: seq<Proposal>, qs: seq<Proposal>)
    requires Distinct(IdsOf(ps)) && multiset(ps) == multiset(qs)
    ensures Distinct(IdsOf(qs))
  {
    SameIds(ps, qs);
    assert [] + IdsOf(ps) == IdsOf(ps) && [] + IdsOf(qs) == IdsOf(qs);
    DistinctEitherOrder([], IdsOf(ps), IdsOf(qs));
  }

  lemma SameWhenAcyclic(ps: seq<Proposal>, g: Graph, rank: Rank, a: seq<Proposal>, b: seq<Proposal>)
    requires Distinct(IdsOf(ps)) && Separates(rank, IdsOf(ps)) && g.Keys == Elements(IdsOf(ps))
    requires multiset(a) == multiset(ps) == multiset(b)
    requires Greedy(g, rank, IdsOf(a)) && Greedy(g, rank, IdsOf(b))
    ensures a == b
  {
    SameMembers(ps, a);
    SameMembers(ps, b);
    assert |multiset(a)| == |a| && |multiset(b)| == |b|;
    GreedyIsUnique(g, rank, IdsOf(a), IdsOf(b), |a|);
    assert IdsOf(a)[..|a|] == IdsOf(a) && IdsOf(b)[..|a|] == IdsOf(b);
    SameIdsSameProposals(ps, a, b);
  }

  lemma SameWhenSorted(ps: seq<Proposal>, rank: Rank, a: seq<Proposal>, b: seq<Proposal>)
    requires Distinct(IdsOf(ps)) && Separates(rank, IdsOf(ps)) && multiset(a) == multiset(ps) == multiset(b)
    requires SortedById(rank, a) && SortedById(rank, b)
    ensures a == b
  {
    hide SortedById;
    DistinctAnyOrder(ps, a);
    SameIds(ps, a);
    assert |multiset(a)| == |a| && |multiset(b)| == |b|;
    forall x | x in IdsOf(a) ensures x in IdsOf(ps) {
      assert x in multiset(IdsOf(a));
    }
    SortedIsUnique(rank, a, b);
  }

  /** However the batch is arranged on input, the result is the same, provided that its
      proposals have distinct identifiers and stand for distinct tasks. */
  lemma SameForEveryArrangement(ps: seq<Proposal>, qs: seq<Proposal>, rank: Rank, a: seq<Proposal>, b: seq<Proposal>)
    requires Distinct(IdsOf(ps)) && DistinctTasks(ps) && Separates(rank, IdsOf(ps)) && multiset(ps) == multiset(qs)
    requires OrderedAs(ps, rank, a) && OrderedAs(qs, rank, b)
    ensures a == b
  {
    hide DependencyGraph, Greedy, SortedById, IdsOf, DistinctTasks, Separates, Distinct;
    DistinctAnyOrder(ps, qs);
    SameGraph(ps, qs);
    if Acyclic(DependencyGraph(ps)) {
      SameWhenAcyclic(ps, DependencyGraph(ps), rank, a, b);
    } else {
      SameWhenSorted(ps, rank, a, b);
    }
  }
}
