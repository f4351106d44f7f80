/** Where a message goes in a task's log (findCausalInsertIndex of
    packages/cli/src/core/comms/DistributedCommsGround.ts), and for which arrivals the
    log ends up in causal order. */
module ArrivalOrder {
  import opened VectorClock

  datatype Message = Message(
    id: string, taskId: string, fromNode: NodeId, clock: Clock,
    timestamp: nat, kind: string, priority: string)

  /** Whether the new message goes in front of an existing one. */
  predicate GoesBefore(m: Message, existing: Message) {
    match Reported(m.clock, existing.clock)
    case Before => true
    case Concurrent => m.timestamp < existing.timestamp
    case _ => false
  }

  function Position(log: seq<Message>, m: Message): (k: nat)
    ensures k <= |log|
    ensures k < |log| ==> GoesBefore(m, log[k])
    ensures forall i :: 0 <= i < k ==> !GoesBefore(m, log[i])
  {
    if log == [] || GoesBefore(m, log[0]) then 0 else 1 + Position(log[1..], m)
  }

  function Insert(log: seq<Message>, m: Message): seq<Message> {
    var k := Position(log, m);
    log[..k] + [m] + log[k..]
  }

  /** The log of messages that arrived one by one. */
  function Arrive(arrivals: seq<Message>): seq<Message> {
    if arrivals == [] then [] else Insert(Arrive(arrivals[..|arrivals| - 1]), arrivals[|arrivals| - 1])
  }

  predicate Precedes(a: Message, b: Message) {
    CausalOrder(a.clock, b.clock) == Before
  }

  /** No message stands behind one that it causally precedes. */
  ghost predicate CausallyOrdered(log: seq<Message>) {
    forall i, j :: 0 <= i < j < |log| ==> !Precedes(log[j], log[i])
  }

  ghost predicate DistinctClocks(messages: seq<Message>) {
    forall i, j :: 0 <= i < j < |messages| ==> !SameCounters(messages[i].clock, messages[j].clock)
  }

  /** The arrivals by position, ordered by timestamp and then by time of arrival. */
  ghost predicate SortedByArrival(arrivals: seq<Message>, order: seq<nat>) {
    && (forall i :: 0 <= i < |order| ==> order[i] < |arrivals|)
    && (forall i, j :: 0 <= i < j < |order| ==> Earlier(arrivals, order[i], order[j]))
  }

  predicate Earlier(arrivals: seq<Message>, p: nat, q: nat)
    requires p < |arrivals| && q < |arrivals|
  {
    arrivals[p].timestamp < arrivals[q].timestamp || (arrivals[p].timestamp == arrivals[q].timestamp && p < q)
  }

  ghost predicate Lists(arrivals: seq<Message>, order: seq<nat>, log: seq<Message>)
    requires SortedByArrival(arrivals, order)
  {
    && |log| == |order|
    && (forall i :: 0 <= i < |log| ==> log[i] == arrivals[order[i]])
    && (forall p: nat :: p < |arrivals| ==> p in order)
  }

  lemma PositionByTime(log: seq<Message>, m: Message)
    requires forall i :: 0 <= i < |log| ==> !SameCounters(m.clock, log[i].clock)
    ensures forall i :: 0 <= i < |log| ==> (GoesBefore(m, log[i]) <==> m.timestamp < log[i].timestamp)
  {
  }

  /** The log lists the arrivals by timestamp, ties in order of arrival. */
  lemma {:induction false} ArriveSorts(arrivals: seq<Message>) returns (order: seq<nat>)
    requires DistinctClocks(arrivals)
    ensures SortedByArrival(arrivals, order) && Lists(arrivals, order, Arrive(arrivals))
    decreases |arrivals|
  {
    if arrivals == [] {
      order := [];
    } else {
      var n := |arrivals| - 1;
      var before := ArriveSorts(arrivals[..n]);
      order := InsertSorted(arrivals, before, Arrive(arrivals[..n]));
    }
  }

  lemma InsertSorted(arrivals: seq<Message>, before: seq<nat>, log: seq<Message>) returns (order: seq<nat>)
    requires arrivals != [] && DistinctClocks(arrivals)
    requires var earlier := arrivals[..|arrivals| - 1];
             SortedByArrival(earlier, before) && Lists(earlier, before, log)
    ensures SortedByArrival(arrivals, order)
    ensures Lists(arrivals, order, Insert(log, arrivals[|arrivals| - 1]))
  {
    var n := |arrivals| - 1;
    var m := arrivals[n];
    var k := Position(log, m);
    order := before[..k] + [n] + before[k..];
    forall i | 0 <= i < |log| ensures !SameCounters(m.clock, log[i].clock) {
      assert log[i] == arrivals[before[i]];
    }
    PositionByTime(log, m);
    hide SameCounters, GoesBefore, Position, DistinctClocks;
    assert SortedByArrival(arrivals, before) by {
      LongerArrivals(arrivals, before);
    }
    InsertLatest(arrivals, before, k);
    InsertLists(arrivals, before, log, k);
  }

  lemma LongerArrivals(arrivals: seq<Message>, before: seq<nat>)
    requires arrivals != [] && SortedByArrival(arrivals[..|arrivals| - 1], before)
    ensures SortedByArrival(arrivals, before)
  {
    forall i, j | 0 <= i < j < |before| ensures Earlier(arrivals, before[i], before[j]) {
      assert Earlier(arrivals[..|arrivals| - 1], before[i], before[j]);
    }
  }

  /** The latest arrival goes behind everything that is not younger than it. */
  lemma InsertLatest(arrivals: seq<Message>, before: seq<nat>, k: nat)
    requires arrivals != [] && SortedByArrival(arrivals, before) && k <= |before|
    requires forall i :: 0 <= i < |before| ==> before[i] < |arrivals| - 1
    requires forall i :: 0 <= i < k ==> arrivals[before[i]].timestamp <= arrivals[|arrivals| - 1].timestamp
    requires k < |before| ==> arrivals[|arrivals| - 1].timestamp < arrivals[before[k]].timestamp
    ensures SortedByArrival(arrivals, before[..k] + [|arrivals| - 1] + before[k..])
  {
    var n := |arrivals| - 1;
    var order := before[..k] + [n] + before[k..];
    forall j | k <= j < |before| ensures arrivals[n].timestamp < arrivals[before[j]].timestamp {
      if k < j {
        assert Earlier(arrivals, before[k], before[j]);
      }
    }
    forall i, j | 0 <= i < j < |order| ensures Earlier(arrivals, order[i], order[j]) {
      if i != k && j != k {
        assert Earlier(arrivals, before[if i < k then i else i - 1], before[if j < k then j else j - 1]);
      }
    }
  }

  lemma InsertLists(arrivals: seq<Message>, before: seq<nat>, log: seq<Message>, k: nat)
    requires arrivals != [] && k <= |before|
    requires SortedByArrival(arrivals[..|arrivals| - 1], before) && Lists(arrivals[..|arrivals| - 1], before, log)
    requires SortedByArrival(arrivals, before[..k] + [|arrivals| - 1] + before[k..])
    ensures Lists(arrivals, before[..k] + [|arrivals| - 1] + before[k..],
                  log[..k] + [arrivals[|arrivals| - 1]] + log[k..])
  {
    var n := |arrivals| - 1;
    var order := before[..k] + [n] + before[k..];
    forall p: nat | p < |arrivals| ensures p in order {
      if p < n {
        assert p in before;
        var i :| 0 <= i < |before| && before[i] == p;
        assert order[if i < k then i else i + 1] == p;
      } else {
        assert order[k] == n;
      }
    }
  }

  /** A cause must be stamped before its effect, or equal and arrive first. */
  ghost predicate CausesComeEarlier(arrivals: seq<Message>) {
    forall p: nat, q: nat :: p < |arrivals| && q < |arrivals| && Precedes(arrivals[p], arrivals[q])
      ==> Earlier(arrivals, p, q)
  }

  /** The log is in causal order exactly when every cause has an earlier timestamp than
      its effect, or the same one and arrived first. */
  lemma LogIsCausalIff(arrivals: seq<Message>)
    requires DistinctClocks(arrivals)
    ensures CausallyOrdered(Arrive(arrivals)) <==> CausesComeEarlier(arrivals)
  {
    var log := Arrive(arrivals);
    var order := ArriveSorts(arrivals);
    hide Precedes, DistinctClocks, Arrive;
    if CausesComeEarlier(arrivals) {
      forall i, j | 0 <= i < j < |log| ensures !Precedes(log[j], log[i]) {
        assert Earlier(arrivals, order[i], order[j]);
        assert log[i] == arrivals[order[i]] && log[j] == arrivals[order[j]];
      }
    }
    if CausallyOrdered(log) {
      forall p: nat, q: nat | p < |arrivals| && q < |arrivals| && Precedes(arrivals[p], arrivals[q])
        ensures Earlier(arrivals, p, q)
      {
        CauseStandsEarlier(arrivals, order, log, p, q);
      }
    }
  }

  lemma CauseStandsEarlier(arrivals: seq<Message>, order: seq<nat>, log: seq<Message>, p: nat, q: nat)
    requires SortedByArrival(arrivals, order) && Lists(arrivals, order, log) && CausallyOrdered(log)
    requires p < |arrivals| && q < |arrivals| && Precedes(arrivals[p], arrivals[q])
    ensures Earlier(arrivals, p, q)
  {
    assert p in order && q in order;
    var i :| 0 <= i < |order| && order[i] == p;
    var j :| 0 <= j < |order| && order[j] == q;
    assert log[i] == arrivals[p] && log[j] == arrivals[q];
    assert !(j < i);
    if i < j {
      assert Earlier(arrivals, order[i], order[j]);
    }
  }

  /** Timestamps strictly increase from cause to effect. */
  ghost predicate StampedCausally(messages: seq<Message>) {
    forall a, b :: a in messages && b in messages && Precedes(a, b) ==> a.timestamp < b.timestamp
  }

  /** Every arrival order gives a causally ordered log exactly when timestamps strictly
      increase from cause to effect. */
  lemma EveryArrivalOrderIff(messages: seq<Message>)
    requires DistinctClocks(messages)
    ensures StampedCausally(messages) <==>
      forall arrivals :: multiset(arrivals) == multiset(messages) && DistinctClocks(arrivals)
        ==> CausallyOrdered(Arrive(arrivals))
  {
    hide Precedes, Arrive, CausallyOrdered;
    if StampedCausally(messages) {
      forall arrivals | multiset(arrivals) == multiset(messages) && DistinctClocks(arrivals)
        ensures CausallyOrdered(Arrive(arrivals))
      {
        SameMembers(arrivals, messages);
        LogIsCausalIff(arrivals);
      }
    } else {
      var a, b :| a in messages && b in messages && Precedes(a, b) && b.timestamp <= a.timestamp;
      var arrivals := EffectFirst(messages, a, b);
      LogIsCausalIff(arrivals);
    }
  }

  lemma SameMembers(s: seq<Message>, t: seq<Message>)
    requires multiset(s) == multiset(t)
    ensures forall m :: m in s <==> m in t
  {
    forall m ensures m in s <==> m in t {
      assert m in s <==> m in multiset(s);
      assert m in t <==> m in multiset(t);
    }
  }

  /** An arrival order in which the badly stamped effect `b` comes before its cause `a`. */
  lemma EffectFirst(messages: seq<Message>, a: Message, b: Message) returns (arrivals: seq<Message>)
    requires DistinctClocks(messages) && a in messages && b in messages
    requires Precedes(a, b) && b.timestamp <= a.timestamp
    ensures multiset(arrivals) == multiset(messages) && DistinctClocks(arrivals)
    ensures !CausesComeEarlier(arrivals)
  {
    var p :| 0 <= p < |messages| && messages[p] == a;
    var q :| 0 <= q < |messages| && messages[q] == b;
    if q < p {
      arrivals := messages;
      assert !Earlier(arrivals, p, q);
    } else {
      assert p != q by { PrecedesIsStrict(a); }
      arrivals := messages[p := b][q := a];
      assert arrivals[q] == a && arrivals[p] == b && !Earlier(arrivals, q, p);
      SwapKeepsDistinct(messages, p, q);
    }
  }

  lemma PrecedesIsStrict(a: Message)
    ensures !Precedes(a, a)
  {
  }

  lemma SwapKeepsDistinct(messages: seq<Message>, p: nat, q: nat)
    requires DistinctClocks(messages) && p < q < |messages|
    ensures DistinctClocks(messages[p := messages[q]][q := messages[p]])
    ensures multiset(messages[p := messages[q]][q := messages[p]]) == multiset(messages)
  {
    hide SameCounters;
    var swapped := messages[p := messages[q]][q := messages[p]];
    forall i, j | 0 <= i < j < |swapped| ensures !SameCounters(swapped[i].clock, swapped[j].clock) {
      var i', j' := Swapped(i, p, q), Swapped(j, p, q);
      assert swapped[i] == messages[i'] && swapped[j] == messages[j'] && i' != j';
      if j' < i' {
        SameCountersSymmetric(messages[i'].clock, messages[j'].clock);
      }
    }
  }

  function Swapped(i: nat, p: nat, q: nat): nat {
    if i == p then q else if i == q then p else i
  }

  lemma SameCountersSymmetric(a: Clock, b: Clock)
    ensures SameCounters(a, b) <==> SameCounters(b, a)
  {
  }

  /** For instance: q accepts p's message and answers it, but q's clock runs behind.  Whichever
      of the two arrives first, the answer is listed before what it answers. */
  lemma LateClockMisorders() returns (message: Message, answer: Message)
    ensures message.clock == Ticked(map["p" := 0], "p") && message.timestamp == 10
    ensures answer.clock == Ticked(Merged(map["q" := 0], message.clock, "q"), "q") && answer.timestamp == 9
    ensures Precedes(message, answer)
    ensures Arrive([message, answer]) == Arrive([answer, message]) == [answer, message]
    ensures !CausallyOrdered([answer, message])
  {
    message := Message("m", "t", "p", Ticked(map["p" := 0], "p"), 10, "question", "normal");
    var clock := Ticked(Merged(map["q" := 0], message.clock, "q"), "q");
    answer := Message("n", "t", "q", clock, 9, "answer", "normal");
    assert message.clock == map["p" := 1] && clock == map["p" := 1, "q" := 2];
    assert "q" in clock.Keys && Counter(clock, "q") > Counter(message.clock, "q");
    OutOfOrder(message, answer);
  }

  lemma OutOfOrder(a: Message, b: Message)
    requires Precedes(a, b) && b.timestamp < a.timestamp
    ensures Arrive([a, b]) == Arrive([b, a]) == [b, a] && !CausallyOrdered([b, a])
  {
    assert [a, b][..1] == [a] && [b, a][..1] == [b] && [a][..0] == [] && [b][..0] == [];
    assert Arrive([]) == [];
    assert Arrive([a]) == [a] && Arrive([b]) == [b];
    assert Insert([a], b) == [b, a] && Insert([b], a) == [b, a];
    assert [b, a][1] == a;
  }
}
