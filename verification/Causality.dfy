/** Any number of nodes that publish messages and accept each other's, as publish and
    receiveFromNetwork of packages/cli/src/core/comms/DistributedCommsGround.ts drive
    their vector clocks: the order of the clocks is the happened-before relation. */
module Causality {
  import opened VectorClock

  /** An accepted message is named by the position of its publication. */
  datatype Action = Publish | Accept(message: nat)

  datatype Event = Event(node: NodeId, action: Action, clock: Clock)

  /** The clock a node has after the events so far. */
  function ClockOf(history: seq<Event>, node: NodeId): Clock {
    if history == [] then map[node := 0]
    else if history[|history| - 1].node == node then history[|history| - 1].clock
    else ClockOf(history[..|history| - 1], node)
  }

  /** What the next event of a node leaves as its clock. */
  function NextClock(history: seq<Event>, node: NodeId, action: Action): Clock
    requires action.Accept? ==> action.message < |history|
  {
    match action
    case Publish => Ticked(ClockOf(history, node), node)
    case Accept(m) => Merged(ClockOf(history, node), history[m].clock, node)
  }

  ghost predicate EventFits(history: seq<Event>, j: nat)
    requires j < |history|
  {
    var e := history[j];
    && (e.action.Accept? ==> e.action.message < j && history[e.action.message].action.Publish?)
    && e.clock == NextClock(history[..j], e.node, e.action)
  }

  /** A run of the system: the events of all nodes in one possible global order. */
  ghost predicate Run(history: seq<Event>) {
    forall j {:trigger history[j]} :: 0 <= j < |history| ==> EventFits(history, j)
  }

  /** Same node, or publication and acceptance of one message. */
  ghost predicate DirectlyBefore(history: seq<Event>, i: nat, j: nat)
    requires i < j < |history|
  {
    history[i].node == history[j].node || history[j].action == Accept(i)
  }

  /** Lamport's happened-before: the transitive closure of the direct steps. */
  ghost predicate HappenedBefore(history: seq<Event>, i: nat, j: nat)
    requires i < |history| && j < |history|
    decreases j
  {
    exists k: nat :: k < j && DirectlyBefore(history, k, j) && (k == i || HappenedBefore(history, i, k))
  }

  lemma HappenedBeforeIsEarlier(history: seq<Event>, i: nat, j: nat)
    requires i < |history| && j < |history| && HappenedBefore(history, i, j)
    ensures i < j
  {
  }

  /** The clock of a node is that of its latest event. */
  lemma {:induction false} LatestEvent(history: seq<Event>, node: NodeId) returns (k: int)
    ensures -1 <= k < |history|
    ensures k == -1 ==> ClockOf(history, node) == map[node := 0]
    ensures k >= 0 ==> history[k].node == node && ClockOf(history, node) == history[k].clock
    ensures forall l :: k < l < |history| ==> history[l].node != node
  {
    if history == [] {
      k := -1;
    } else if history[|history| - 1].node == node {
      k := |history| - 1;
    } else {
      k := LatestEvent(history[..|history| - 1], node);
    }
  }

  lemma FittingEvent(history: seq<Event>, j: nat)
    requires Run(history) && j < |history|
    ensures EventFits(history, j)
  {
    assert history[j] == history[j];
  }

  lemma LatestBefore(history: seq<Event>, j: nat) returns (k: int)
    requires j < |history|
    ensures -1 <= k < j
    ensures k == -1 ==> ClockOf(history[..j], history[j].node) == map[history[j].node := 0]
    ensures k >= 0 ==> history[k].node == history[j].node && ClockOf(history[..j], history[j].node) == history[k].clock
    ensures forall l :: k < l < j ==> history[l].node != history[j].node
  {
    k := LatestEvent(history[..j], history[j].node);
    forall l | k < l < j ensures history[l].node != history[j].node {
      assert history[..j][l] == history[l];
    }
  }

  /** An event's counters, read off its node's previous event and the accepted message. */
  lemma EventCounters(history: seq<Event>, j: nat) returns (k: int)
    requires Run(history) && j < |history|
    ensures -1 <= k < j && (k >= 0 ==> history[k].node == history[j].node)
    ensures forall l :: k < l < j ==> history[l].node != history[j].node
    ensures history[j].action.Accept? ==> history[j].action.message < j
    ensures forall n :: Counter(history[j].clock, n) == CounterAfter(history, j, k, n)
  {
    hide Counter, Run, ClockOf;
    var e := history[j];
    FittingEvent(history, j);
    k := LatestBefore(history, j);
    forall n ensures Counter(e.clock, n) == CounterAfter(history, j, k, n) {
      NextCounter(history[..j], e.node, e.action, n);
      FreshCounter(e.node, n);
    }
  }

  /** `k` is the previous event of the node of event `j`, or -1. */
  function CounterAfter(history: seq<Event>, j: nat, k: int, n: NodeId): nat
    requires j < |history| && k < |history|
    requires history[j].action.Accept? ==> history[j].action.message < |history|
  {
    var own := if k < 0 then 0 else Counter(history[k].clock, n);
    var heard := if history[j].action.Accept? then Counter(history[history[j].action.message].clock, n) else 0;
    Max(own, heard) + if n == history[j].node then 1 else 0
  }

  lemma FreshCounter(node: NodeId, n: NodeId)
    ensures Counter(map[node := 0], n) == 0
  {
  }

  lemma NextCounter(history: seq<Event>, node: NodeId, action: Action, n: NodeId)
    requires action.Accept? ==> action.message < |history|
    ensures Counter(NextClock(history, node, action), n) ==
      Max(Counter(ClockOf(history, node), n),
          if action.Accept? then Counter(history[action.message].clock, n) else 0) + if n == node then 1 else 0
  {
    if action.Accept? {
      MergedCounter(ClockOf(history, node), history[action.message].clock, node, n);
    }
  }

  /** Along a direct step no counter falls and the later event's own counter rises. */
  lemma DirectStepGrows(history: seq<Event>, i: nat, j: nat)
    requires Run(history) && i < j < |history| && DirectlyBefore(history, i, j)
    ensures forall n :: Counter(history[i].clock, n) <= Counter(history[j].clock, n)
    ensures Counter(history[i].clock, history[j].node) < Counter(history[j].clock, history[j].node)
    decreases j
  {
    var k := EventCounters(history, j);
    if history[j].action != Accept(i) && k != i {
      DirectStepGrows(history, i, k);
    }
  }

  lemma {:induction false} HappenedBeforeGrows(history: seq<Event>, i: nat, j: nat)
    requires Run(history) && i < |history| && j < |history| && HappenedBefore(history, i, j)
    ensures forall n :: Counter(history[i].clock, n) <= Counter(history[j].clock, n)
    ensures Counter(history[i].clock, history[j].node) < Counter(history[j].clock, history[j].node)
    decreases j
  {
    var k: nat :| k < j && DirectlyBefore(history, k, j) && (k == i || HappenedBefore(history, i, k));
    DirectStepGrows(history, k, j);
    if k != i {
      HappenedBeforeGrows(history, i, k);
    }
  }

  /** Whoever knows an event's own counter has heard of the event. */
  lemma {:induction false} KnownMeansHappenedBefore(history: seq<Event>, i: nat, j: nat)
    requires Run(history) && i < |history| && j < |history| && i != j
    requires Counter(history[i].clock, history[i].node) <= Counter(history[j].clock, history[i].node)
    ensures HappenedBefore(history, i, j)
    decreases j
  {
    var n := history[i].node;
    if history[j].node == n {
      if j < i {
        DirectStepGrows(history, j, i);
      }
      assert DirectlyBefore(history, i, j);
    } else {
      var own := EventCounters(history, i);
      var k := EventCounters(history, j);
      var source := if k >= 0 && Counter(history[k].clock, n) >= Counter(history[j].clock, n)
                    then k else history[j].action.message;
      assert DirectlyBefore(history, source, j);
      if source != i {
        KnownMeansHappenedBefore(history, i, source);
      }
    }
  }

  /** The clocks of two events are ordered exactly as the events are causally related. */
  lemma ClocksCharacterizeCausality(history: seq<Event>, i: nat, j: nat)
    requires Run(history) && i < |history| && j < |history|
    ensures CausalOrder(history[i].clock, history[j].clock) ==
      if i == j then Equal
      else if HappenedBefore(history, i, j) then Before
      else if HappenedBefore(history, j, i) then After
      else Concurrent
  {
    if i != j {
      OrderedMeansHappenedBefore(history, i, j);
      OrderedMeansHappenedBefore(history, j, i);
    }
  }

  lemma OrderedMeansHappenedBefore(history: seq<Event>, i: nat, j: nat)
    requires Run(history) && i < |history| && j < |history| && i != j
    ensures LessOrEqual(history[i].clock, history[j].clock) <==> HappenedBefore(history, i, j)
    ensures HappenedBefore(history, i, j) ==> !HappenedBefore(history, j, i)
    ensures HappenedBefore(history, i, j) ==> !LessOrEqual(history[j].clock, history[i].clock)
  {
    hide HappenedBefore, LessOrEqual, Run;
    LessOrEqualEverywhere(history[i].clock, history[j].clock);
    LessOrEqualEverywhere(history[j].clock, history[i].clock);
    if HappenedBefore(history, i, j) {
      HappenedBeforeGrows(history, i, j);
      HappenedBeforeIsEarlier(history, i, j);
      if HappenedBefore(history, j, i) {
        HappenedBeforeIsEarlier(history, j, i);
      }
    } else if LessOrEqual(history[i].clock, history[j].clock) {
      KnownMeansHappenedBefore(history, i, j);
    }
  }

  /** What `compare` makes of it: equality is reported for one and the same event only,
      and the report is causally right exactly when neither event precedes the other. */
  lemma ReportsOnRuns(history: seq<Event>, i: nat, j: nat)
    requires Run(history) && i < |history| && j < |history|
    ensures Reported(history[i].clock, history[j].clock) == Equal <==> i == j
    ensures Reported(history[i].clock, history[j].clock) == CausalOrder(history[i].clock, history[j].clock)
       <==> !HappenedBefore(history, i, j) && !HappenedBefore(history, j, i)
  {
    ClocksCharacterizeCausality(history, i, j);
    ReportIsRightIff(history[i].clock, history[j].clock);
    if i == j && HappenedBefore(history, i, i) {
      HappenedBeforeIsEarlier(history, i, i);
    }
  }

  /** The smallest failure: one node publishes twice and the first message, although it
      happened before the second, is reported as concurrent with it. */
  lemma TwoPublicationsMisreported(node: NodeId) returns (history: seq<Event>)
    ensures Run(history) && |history| == 2 && HappenedBefore(history, 0, 1)
    ensures history[0].action == history[1].action == Publish
    ensures Reported(history[0].clock, history[1].clock) == Concurrent
  {
    var first := Event(node, Publish, Ticked(map[node := 0], node));
    var second := Event(node, Publish, Ticked(first.clock, node));
    history := [first, second];
    assert history[..0] == [] && history[..1] == [first];
    assert EventFits(history, 0) && EventFits(history, 1);
    assert DirectlyBefore(history, 0, 1);
    ReportMissesSuccessor(first.clock, node);
  }

  /** The staleness test turns away nothing but the receiver's own latest publication. */
  lemma OnlyOwnLatestIsStale(history: seq<Event>, receiver: NodeId, i: nat)
    requires Run(history) && i < |history|
    ensures SameCounters(history[i].clock, ClockOf(history, receiver))
       <==> history[i].node == receiver && forall l :: i < l < |history| ==> history[l].node != receiver
  {
    var k := LatestEvent(history, receiver);
    var p := EventCounters(history, i);
    if k >= 0 {
      ReportsOnRuns(history, i, k);
    } else {
      assert history[i].node in history[i].clock.Keys;
    }
  }
}
