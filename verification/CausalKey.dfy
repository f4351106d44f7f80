/** The sum of a clock's counters, by which createCausalKey of
    packages/cli/src/core/comms/VectorClock.ts keys messages. */
module CausalKey {
  import opened VectorClock

  /** The sum over some nodes, in any order. */
  ghost function SumOver(c: Clock, nodes: set<NodeId>): nat {
    if nodes == {} then 0
    else
      var n :| n in nodes;
      Counter(c, n) + SumOver(c, nodes - {n})
  }

  lemma {:induction false} SumAnyFirst(c: Clock, nodes: set<NodeId>, m: NodeId)
    requires m in nodes
    ensures SumOver(c, nodes) == Counter(c, m) + SumOver(c, nodes - {m})
    decreases nodes
  {
    hide Counter;
    var n :| n in nodes && SumOver(c, nodes) == Counter(c, n) + SumOver(c, nodes - {n});
    if n != m {
      SumAnyFirst(c, nodes - {n}, m);
      SumAnyFirst(c, nodes - {m}, n);
      assert nodes - {n} - {m} == nodes - {m} - {n};
    }
  }

  lemma {:induction false} SumGrows(a: Clock, b: Clock, nodes: set<NodeId>)
    requires forall n :: n in nodes ==> Counter(a, n) <= Counter(b, n)
    ensures SumOver(a, nodes) <= SumOver(b, nodes)
    ensures (exists n :: n in nodes && Counter(a, n) < Counter(b, n)) ==> SumOver(a, nodes) < SumOver(b, nodes)
    decreases nodes
  {
    if nodes != {} {
      hide Counter;
      var m: NodeId;
      if n :| n in nodes && Counter(a, n) < Counter(b, n) {
        m := n;
      } else {
        m :| m in nodes;
      }
      SumAnyFirst(a, nodes, m);
      SumAnyFirst(b, nodes, m);
      SumGrows(a, b, nodes - {m});
    }
  }

  /** Nodes without a counter add nothing. */
  lemma {:induction false} SumIgnoresOthers(c: Clock, nodes: set<NodeId>)
    requires c.Keys <= nodes
    ensures SumOver(c, nodes) == SumOver(c, c.Keys)
    decreases nodes
  {
    var others := nodes - c.Keys;
    if others != {} {
      var n :| n in others;
      SumAnyFirst(c, nodes, n);
      SumIgnoresOthers(c, nodes - {n});
    } else {
      assert forall n :: n in nodes ==> n in others || n in c.Keys;
      assert nodes == c.Keys;
    }
  }

  /** The key's sum strictly grows along the order of the clocks, so that ordering by it
      never puts an effect before its cause. */
  lemma KeyGrowsAlongCausality(a: Clock, b: Clock)
    ensures CausalOrder(a, b) == Before ==> SumOver(a, a.Keys) < SumOver(b, b.Keys)
    ensures CausalOrder(a, b) == Equal ==> SumOver(a, a.Keys) == SumOver(b, b.Keys)
  {
    var nodes := a.Keys + b.Keys;
    SumIgnoresOthers(a, nodes);
    SumIgnoresOthers(b, nodes);
    LessOrEqualEverywhere(a, b);
    LessOrEqualEverywhere(b, a);
    if LessOrEqual(a, b) {
      SumGrows(a, b, nodes);
      if LessOrEqual(b, a) {
        SumGrows(b, a, nodes);
      } else {
        var n :| Counter(b, n) > Counter(a, n);
        assert n in nodes;
      }
    }
  }

  datatype Key = Key(sum: nat, timestamp: int, nodeId: NodeId)

  method CreateCausalKey(vectorClock: Clock, timestamp: int, nodeId: NodeId) returns (key: Key)
    ensures key == Key(SumOver(vectorClock, vectorClock.Keys), timestamp, nodeId)
  {
    var sum, rest := 0, vectorClock.Keys;
    while rest != {}
      invariant rest <= vectorClock.Keys
      invariant sum + SumOver(vectorClock, rest) == SumOver(vectorClock, vectorClock.Keys)
      decreases rest
    {
      var n :| n in rest;
      SumAnyFirst(vectorClock, rest, n);
      sum := sum + vectorClock[n];
      rest := rest - {n};
    }
    key := Key(sum, timestamp, nodeId);
  }
}
