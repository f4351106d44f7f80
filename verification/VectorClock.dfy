/** packages/cli/src/core/comms/VectorClock.ts: clocks as maps from node to counter,
    where a missing counter reads as zero. */
module VectorClock {

  type NodeId = string
  type Clock = map<NodeId, nat>

  function Counter(c: Clock, n: NodeId): nat {
    if n in c then c[n] else 0
  }

  /** Componentwise order; the keys of `a` suffice, the other counters of `a` are zero. */
  predicate LessOrEqual(a: Clock, b: Clock) {
    forall n :: n in a.Keys ==> Counter(a, n) <= Counter(b, n)
  }

  predicate SameCounters(a: Clock, b: Clock) {
    LessOrEqual(a, b) && LessOrEqual(b, a)
  }

  datatype ClockComparison = Before | After | Concurrent | Equal

  /** The order of the clocks: what comparing them is for. */
  function CausalOrder(a: Clock, b: Clock): ClockComparison {
    if SameCounters(a, b) then Equal
    else if LessOrEqual(a, b) then Before
    else if LessOrEqual(b, a) then After
    else Concurrent
  }

  /** What `compare` reports.  Its two flags are cleared by the wrong one of its two
      tests, so neither Before nor After ever comes out. */
  function Reported(a: Clock, b: Clock): ClockComparison {
    if SameCounters(a, b) then Equal else Concurrent
  }

  lemma LessOrEqualEverywhere(a: Clock, b: Clock)
    ensures LessOrEqual(a, b) <==> forall n :: Counter(a, n) <= Counter(b, n)
  {
  }

  /** The report is right exactly when neither clock is strictly below the other. */
  lemma ReportIsRightIff(a: Clock, b: Clock)
    ensures Reported(a, b) == CausalOrder(a, b)
       <==> (LessOrEqual(a, b) <==> LessOrEqual(b, a))
  {
  }

  /** A clock and its successor on the same node are reported as concurrent. */
  lemma ReportMissesSuccessor(c: Clock, self: NodeId)
    ensures CausalOrder(c, Ticked(c, self)) == Before
    ensures Reported(c, Ticked(c, self)) == Concurrent
  {
    assert self in Ticked(c, self).Keys && Counter(Ticked(c, self), self) > Counter(c, self);
  }

  function Max(x: nat, y: nat): nat {
    if x < y then y else x
  }

  function Ticked(c: Clock, self: NodeId): Clock {
    c[self := Counter(c, self) + 1]
  }

  function Joined(c: Clock, incoming: Clock): Clock {
    map n | n in c.Keys + incoming.Keys :: Max(Counter(c, n), Counter(incoming, n))
  }

  /** The clock after `merge`: the componentwise maximum, then the own counter one up. */
  function Merged(c: Clock, incoming: Clock, self: NodeId): Clock {
    Ticked(Joined(c, incoming), self)
  }

  lemma MergedCounter(c: Clock, incoming: Clock, self: NodeId, n: NodeId)
    ensures Counter(Merged(c, incoming, self), n)
         == Max(Counter(c, n), Counter(incoming, n)) + if n == self then 1 else 0
  {
  }

  lemma AboveSomewhere(a: Clock, b: Clock, nodes: set<NodeId>)
    requires nodes == a.Keys + b.Keys
    ensures LessOrEqual(a, b) <==> !exists n :: n in nodes && Counter(b, n) < Counter(a, n)
  {
    if !LessOrEqual(a, b) {
      var n :| n in a.Keys && Counter(a, n) > Counter(b, n);
      assert n in nodes;
    }
  }

  method Compare(a: Clock, b: Clock) returns (c: ClockComparison)
    ensures c == Reported(a, b)
  {
    var aLessOrEqual, bLessOrEqual, strictlyLess, strictlyGreater := true, true, false, false;
    var allNodes := a.Keys + b.Keys;
    var rest := allNodes;
    while rest != {}
      invariant rest <= allNodes
      invariant aLessOrEqual == !strictlyLess && bLessOrEqual == !strictlyGreater
      invariant strictlyLess <==> exists n :: n in allNodes - rest && Counter(a, n) < Counter(b, n)
      invariant strictlyGreater <==> exists n :: n in allNodes - rest && Counter(b, n) < Counter(a, n)
      decreases rest
    {
      var node :| node in rest;
      assert allNodes - (rest - {node}) == allNodes - rest + {node};
      var aVal, bVal := Counter(a, node), Counter(b, node);
      if aVal > bVal {
        bLessOrEqual, strictlyGreater := false, true;
      }
      if bVal > aVal {
        aLessOrEqual, strictlyLess := false, true;
      }
      rest := rest - {node};
    }
    assert allNodes - rest == allNodes;
    AboveSomewhere(a, b, allNodes);
    AboveSomewhere(b, a, allNodes);
    if aLessOrEqual && strictlyLess {
      return Before;
    }
    if bLessOrEqual && strictlyGreater {
      return After;
    }
    return if !strictlyLess && !strictlyGreater then Equal else Concurrent;
  }

  /** The clock of one node.  `lastSeen` and the pruning that reads it are not modelled. */
  class VectorClock {
    const nodeId: NodeId
    var clock: Clock

    constructor (nodeId: NodeId)
      ensures this.nodeId == nodeId && clock == map[nodeId := 0]
    {
      this.nodeId := nodeId;
      clock := map[nodeId := 0];
    }

    method Tick() returns (snapshot: Clock)
      modifies this`clock
      ensures clock == Ticked(old(clock), nodeId) && snapshot == clock
    {
      var current := Counter(clock, nodeId);
      clock := clock[nodeId := current + 1];
      snapshot := clock;
    }

    method Merge(incoming: Clock)
      modifies this`clock
      ensures clock == Merged(old(clock), incoming, nodeId)
    {
      var entries := incoming.Keys;
      while entries != {}
        invariant entries <= incoming.Keys
        invariant clock.Keys == old(clock).Keys + (incoming.Keys - entries)
        invariant forall n :: n in clock ==>
          clock[n] == if n in incoming.Keys - entries then Max(Counter(old(clock), n), incoming[n]) else old(clock)[n]
        decreases entries
      {
        var node :| node in entries;
        var localCounter := Counter(clock, node);
        clock := clock[node := Max(localCounter, incoming[node])];
        entries := entries - {node};
      }
      assert clock == Joined(old(clock), incoming);
      var current := Counter(clock, nodeId);
      clock := clock[nodeId := current + 1];
    }

    method IsStale(incoming: Clock) returns (stale: bool)
      ensures stale <==> SameCounters(incoming, clock)
    {
      var comparison := Compare(incoming, clock);
      stale := comparison == Before || comparison == Equal;
    }
  }
}
