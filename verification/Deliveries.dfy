/** One communication ground over a whole run: publishing, receiving and forgetting
    (publish, receiveFromNetwork and cleanupDedup of
    packages/cli/src/core/comms/DistributedCommsGround.ts). */
module Deliveries {
  import opened Wrappers
  import opened VectorClock
  import opened ArrivalOrder
  import opened MessageLog

  type TaskId = string

  datatype Ground = Ground(self: NodeId, clock: Clock, seen: map<MsgId, nat>, logs: map<TaskId, TaskLog>)

  function LogFor(g: Ground, task: TaskId): TaskLog {
    if task in g.logs then g.logs[task] else TaskLog(map[], [])
  }

  function Store(g: Ground, task: TaskId, m: Message, limits: Limits): Ground {
    g.(logs := g.logs[task := Stored(LogFor(g, task), m, limits)])
  }

  function MarkSeen(g: Ground, id: MsgId, now: nat): Ground {
    g.(seen := g.seen[id := now])
  }

  predicate Accepts(g: Ground, m: Message) {
    m.id !in g.seen && !SameCounters(m.clock, g.clock)
  }

  /** receiveFromNetwork: duplicates are dropped, stale messages are remembered only. */
  function Received(g: Ground, m: Message, now: nat, limits: Limits): Ground {
    if m.id in g.seen then g
    else if SameCounters(m.clock, g.clock) then MarkSeen(g, m.id, now)
    else MarkSeen(Store(g.(clock := Merged(g.clock, m.clock, g.self)), m.taskId, m, limits), m.id, now)
  }

  function Draft(g: Ground, task: TaskId, id: MsgId, kind: string, priority: string, now: nat): Message {
    Message(id, task, g.self, Ticked(g.clock, g.self), now, kind, priority)
  }

  /** publish, once the rate limit has been passed. */
  function Published(g: Ground, task: TaskId, id: MsgId, kind: string, priority: string, now: nat,
                     limits: Limits): Ground
  {
    if id in g.seen then g
    else
      var m := Draft(g, task, id, kind, priority, now);
      MarkSeen(Store(g.(clock := m.clock), task, m, limits), id, now)
  }

  // ----- what receiving and publishing amount to

  ghost predicate Lists(g: Ground, task: TaskId, m: Message) {
    task in g.logs && m.id in g.logs[task].messages && g.logs[task].messages[m.id] == m
  }

  /** Accepted is what is not remembered and does not have the local counters; then every
      counter becomes the larger one, the own one goes up by one, and the message is listed
      and remembered.  Otherwise nothing changes but that it is remembered. */
  ghost predicate Reception(g: Ground, g': Ground, m: Message, now: nat, accepted: bool) {
    && (accepted <==> m.id !in g.seen && !(forall n :: Counter(m.clock, n) == Counter(g.clock, n)))
    && g'.self == g.self
    && g'.seen == (if m.id in g.seen then g.seen else g.seen[m.id := now])
    && (!accepted ==> g'.clock == g.clock && g'.logs == g.logs)
    && (accepted ==>
          && Lists(g', m.taskId, m)
          && (forall t :: t in g.logs && t != m.taskId ==> t in g'.logs && g'.logs[t] == g.logs[t])
          && forall n :: Counter(g'.clock, n) ==
               Max(Counter(g.clock, n), Counter(m.clock, n)) + (if n == g.self then 1 else 0))
  }

  /** The message carries the local clock with the own counter one up, which is the new local
      clock; it is listed and remembered. */
  ghost predicate Publication(g: Ground, g': Ground, task: TaskId, id: MsgId, kind: string, priority: string, now: nat,
                              m: Message) {
    && m == Message(id, task, g.self, g'.clock, now, kind, priority)
    && g'.self == g.self && g'.clock == g.clock[g.self := Counter(g.clock, g.self) + 1]
    && g'.seen == g.seen[id := now] && Lists(g', task, m)
    && (forall t :: t in g.logs && t != task ==> t in g'.logs && g'.logs[t] == g.logs[t])
  }

  lemma LastStored(log: TaskLog, m: Message, limits: Limits)
    ensures m.id in Stored(log, m, limits).messages && Stored(log, m, limits).messages[m.id] == m
  {
    hide Evicted;
  }

  lemma ReceivedAsSaid(g: Ground, m: Message, now: nat, limits: Limits)
    ensures Reception(g, Received(g, m, now, limits), m, now, Accepts(g, m))
  {
    hide Counter, SameCounters, Merged, Evicted, InsertIndex;
    SameCountersIff(m.clock, g.clock);
    LastStored(LogFor(g, m.taskId), m, limits);
    MergedEverywhere(g.clock, m.clock, g.self);
    assert Accepts(g, m) ==> Lists(Received(g, m, now, limits), m.taskId, m);
  }

  lemma SameCountersIff(a: Clock, b: Clock)
    ensures SameCounters(a, b) <==> forall n :: Counter(a, n) == Counter(b, n)
  {
    LessOrEqualEverywhere(a, b);
    LessOrEqualEverywhere(b, a);
    hide LessOrEqual, Counter;
  }

  lemma MergedEverywhere(c: Clock, incoming: Clock, self: NodeId)
    ensures forall n ::
      Counter(Merged(c, incoming, self), n) == Max(Counter(c, n), Counter(incoming, n)) + (if n == self then 1 else 0)
  {
    hide Counter, Merged;
    forall n ensures Counter(Merged(c, incoming, self), n) ==
      Max(Counter(c, n), Counter(incoming, n)) + (if n == self then 1 else 0)
    {
      MergedCounter(c, incoming, self, n);
    }
  }

  lemma PublishedAsSaid(g: Ground, task: TaskId, id: MsgId, kind: string, priority: string, now: nat, limits: Limits)
    requires id !in g.seen
    ensures Publication(g, Published(g, task, id, kind, priority, now, limits), task, id, kind, priority, now,
                        Draft(g, task, id, kind, priority, now))
  {
    hide Evicted, InsertIndex;
    LastStored(LogFor(g, task), Draft(g, task, id, kind, priority, now), limits);
    assert Lists(Published(g, task, id, kind, priority, now, limits), task, Draft(g, task, id, kind, priority, now));
  }

  /** cleanupDedup leaves some of the remembered identifiers. */
  function Forgotten(g: Ground, kept: set<MsgId>): Ground {
    g.(seen := map id | id in g.seen && id in kept :: g.seen[id])
  }

  /** At most `max` unexpired entries stay, and none that is older than a dropped one. */
  ghost predicate CleanedUp(before: map<MsgId, nat>, after: map<MsgId, nat>, now: nat, ttl: nat, max: nat) {
    var alive := map id | id in before && now - before[id] <= ttl :: before[id];
    && after.Keys <= alive.Keys
    && (forall id :: id in after ==> after[id] == before[id])
    && |after| == (if |alive| <= max then |alive| else max)
    && (forall id, other :: id in after && other in alive && other !in after ==> alive[other] <= alive[id])
  }

  datatype Step =
    | Deliver(message: Message, now: nat)
    | PublishNew(task: TaskId, id: MsgId, kind: string, priority: string, now: nat)
    | Forget(kept: set<MsgId>)

  function Next(g: Ground, s: Step, limits: Limits): Ground {
    match s
    case Deliver(m, now) => Received(g, m, now, limits)
    case PublishNew(task, id, kind, priority, now) => Published(g, task, id, kind, priority, now, limits)
    case Forget(kept) => Forgotten(g, kept)
  }

  function After(g: Ground, run: seq<Step>, limits: Limits): Ground
    decreases |run|
  {
    if run == [] then g else After(Next(g, run[0], limits), run[1..], limits)
  }

  /** The messages that the run's deliveries had accepted, in order. */
  function Accepted(g: Ground, run: seq<Step>, limits: Limits): seq<Message>
    decreases |run|
  {
    if run == [] then []
    else AcceptedBy(g, run[0]) + Accepted(Next(g, run[0], limits), run[1..], limits)
  }

  function AcceptedBy(g: Ground, s: Step): seq<Message> {
    if s.Deliver? && Accepts(g, s.message) then [s.message] else []
  }

  /** The ground has counted past the message: it knows all of its clock, and its own
      counter has moved on. */
  ghost predicate Dominated(m: Message, g: Ground) {
    LessOrEqual(m.clock, g.clock) && Counter(m.clock, g.self) < Counter(g.clock, g.self)
  }

  lemma MergeDominates(g: Ground, m: Message, now: nat, limits: Limits)
    requires Accepts(g, m)
    ensures Dominated(m, Received(g, m, now, limits))
  {
    forall n | n in m.clock.Keys ensures Counter(m.clock, n) <= Counter(Merged(g.clock, m.clock, g.self), n) {
      MergedCounter(g.clock, m.clock, g.self, n);
    }
    MergedCounter(g.clock, m.clock, g.self, g.self);
  }

  lemma ClockNeverFalls(g: Ground, s: Step, limits: Limits, n: NodeId)
    ensures Next(g, s, limits).self == g.self
    ensures Counter(g.clock, n) <= Counter(Next(g, s, limits).clock, n)
  {
    if s.Deliver? {
      MergedCounter(g.clock, s.message.clock, g.self, n);
    }
  }

  lemma StepKeepsDominated(g: Ground, s: Step, limits: Limits, m: Message)
    requires Dominated(m, g)
    ensures Dominated(m, Next(g, s, limits))
  {
    ClockNeverFalls(g, s, limits, g.self);
    forall n | n in m.clock.Keys ensures Counter(m.clock, n) <= Counter(Next(g, s, limits).clock, n) {
      ClockNeverFalls(g, s, limits, n);
    }
  }

  /** The local clock dominates every message accepted before, whatever happens later. */
  lemma {:induction false} AcceptedStayDominated(g: Ground, run: seq<Step>, limits: Limits, m: Message)
    requires Dominated(m, g) || m in Accepted(g, run, limits)
    ensures Dominated(m, After(g, run, limits))
    decreases |run|
  {
    if run != [] {
      hide Dominated, Accepts, Next;
      if Dominated(m, g) {
        StepKeepsDominated(g, run[0], limits, m);
      } else if m !in Accepted(Next(g, run[0], limits), run[1..], limits) {
        AcceptanceDominates(g, run[0], limits);
      }
      AcceptedStayDominated(Next(g, run[0], limits), run[1..], limits, m);
    }
  }

  lemma AcceptanceDominates(g: Ground, s: Step, limits: Limits)
    ensures s.Deliver? && Accepts(g, s.message) ==> Dominated(s.message, Next(g, s, limits))
  {
    if s.Deliver? && Accepts(g, s.message) {
      MergeDominates(g, s.message, s.now, limits);
    }
  }

  /** A second delivery is accepted exactly when the identifier has been forgotten:
      the staleness test never turns it away. */
  lemma RedeliveryAcceptedIff(g: Ground, run: seq<Step>, limits: Limits, m: Message)
    requires m in Accepted(g, run, limits)
    ensures Accepts(After(g, run, limits), m) <==> m.id !in After(g, run, limits).seen
  {
    AcceptedStayDominated(g, run, limits, m);
  }

  // ----- at most once

  /** The step stores a message under an identifier. */
  predicate Takes(g: Ground, s: Step, id: MsgId) {
    match s
    case Deliver(m, _) => m.id == id && Accepts(g, m)
    case PublishNew(_, published, _, _, _) => published == id && id !in g.seen
    case Forget(_) => false
  }

  predicate Drops(s: Step, id: MsgId) {
    s.Forget? && id !in s.kept
  }

  lemma {:induction false} AfterOneMore(g: Ground, run: seq<Step>, k: nat, limits: Limits)
    requires k < |run|
    ensures After(g, run[..k + 1], limits) == Next(After(g, run[..k], limits), run[k], limits)
    decreases k
  {
    hide Next;
    if k == 0 {
      assert run[..1][1..] == [] && run[..0] == [];
    } else {
      assert run[..k + 1][1..] == run[1..][..k] && run[..k][1..] == run[1..][..k - 1];
      AfterOneMore(Next(g, run[0], limits), run[1..], k - 1, limits);
    }
  }

  lemma TakenIsSeen(g: Ground, s: Step, limits: Limits, id: MsgId)
    ensures Takes(g, s, id) ==> id in Next(g, s, limits).seen
    ensures id in g.seen && !Drops(s, id) ==> id in Next(g, s, limits).seen
  {
    hide Stored, SameCounters, Merged, Ticked;
  }

  /** An identifier that was taken stays remembered until a cleanup drops it. */
  lemma {:induction false} RememberedUntilDropped(g: Ground, run: seq<Step>, limits: Limits, id: MsgId, p: nat, q: nat)
    requires p < q <= |run| && Takes(After(g, run[..p], limits), run[p], id)
    requires forall f :: p < f < q ==> !Drops(run[f], id)
    ensures id in After(g, run[..q], limits).seen
    decreases q
  {
    hide Next, Takes, Drops;
    var k := q - 1;
    AfterOneMore(g, run, k, limits);
    TakenIsSeen(After(g, run[..k], limits), run[k], limits, id);
    if p < k {
      RememberedUntilDropped(g, run, limits, id, p, k);
    }
  }

  /** Between two acceptances under one identifier, and between a publication and an
      acceptance, some cleanup dropped that identifier. */
  lemma AcceptedAtMostOnce(g: Ground, run: seq<Step>, limits: Limits, id: MsgId, p: nat, q: nat)
    requires p < q < |run|
    requires Takes(After(g, run[..p], limits), run[p], id) && Takes(After(g, run[..q], limits), run[q], id)
    ensures exists f :: p < f < q && Drops(run[f], id)
  {
    if forall f :: p < f < q ==> !Drops(run[f], id) {
      RememberedUntilDropped(g, run, limits, id, p, q);
    }
  }

  /** The smallest failure, for any window and size of the memory: deliver, let the window
      pass and clean up, deliver again.  The message is accepted twice and listed twice. */
  lemma AcceptedTwiceAfterForgetting(limits: Limits, ttl: nat, max: nat) returns (g: Ground, run: seq<Step>, m: Message)
    requires limits.maxMessagesPerTask > 1
    ensures g == Ground("b", map["b" := 0], map[], map[])
    ensures |run| == 3 && run[0] == Deliver(m, 10) && run[1] == Forget({}) && run[2] == Deliver(m, 12 + ttl)
    ensures CleanedUp(After(g, run[..1], limits).seen, After(g, run[..2], limits).seen, 11 + ttl, ttl, max)
    ensures Accepted(g, run, limits) == [m, m]
    ensures LogFor(After(g, run, limits), m.taskId).order == [m.id, m.id]
    ensures !Consistent(LogFor(After(g, run, limits), m.taskId))
  {
    hide Accepts, Received, Consistent, Dominated, CleanedUp;
    g := Ground("b", map["b" := 0], map[], map[]);
    m := Message("m", "t", "a", map["a" := 1], 5, "status", "normal");
    run := [Deliver(m, 10), Forget({}), Deliver(m, 12 + ttl)];
    ThreeSteps(g, run[0], run[1], run[2], limits);
    assert "a" in m.clock.Keys && Counter(m.clock, "a") > Counter(g.clock, "a");
    FirstDelivery(g, m, 10, limits);
    var g1 := Received(g, m, 10, limits);
    StepKeepsDominated(g1, Forget({}), limits, m);
    SecondDelivery(Forgotten(g1, {}), m, 12 + ttl, limits);
    FirstTwoSteps(g, run, limits);
    RealCleanup(g1, m.id, ttl, max);
  }

  lemma FirstTwoSteps(g: Ground, run: seq<Step>, limits: Limits)
    requires |run| >= 2
    ensures After(g, run[..1], limits) == Next(g, run[0], limits)
    ensures After(g, run[..2], limits) == Next(Next(g, run[0], limits), run[1], limits)
  {
    hide Next;
    AfterOneMore(g, run, 0, limits);
    AfterOneMore(g, run, 1, limits);
    assert run[..0] == [];
  }

  /** Once the window has passed, a cleanup of one entry leaves nothing. */
  lemma RealCleanup(g: Ground, id: MsgId, ttl: nat, max: nat)
    requires g.seen == map[id := 10]
    ensures CleanedUp(g.seen, Forgotten(g, {}).seen, 11 + ttl, ttl, max)
  {
    assert (map id | id in g.seen && 11 + ttl - g.seen[id] <= ttl :: g.seen[id]) == map[];
    assert Forgotten(g, {}).seen.Keys == {};
  }

  lemma FirstDelivery(g: Ground, m: Message, now: nat, limits: Limits)
    requires g.logs == map[] && m.id !in g.seen && !LessOrEqual(m.clock, g.clock) && limits.maxMessagesPerTask > 1
    ensures Accepts(g, m) && Dominated(m, Received(g, m, now, limits))
    ensures Received(g, m, now, limits).logs == map[m.taskId := TaskLog(map[m.id := m], [m.id])]
    ensures g.seen == map[] ==> Received(g, m, now, limits).seen == map[m.id := now]
  {
    assert Accepts(g, m);
    hide Stored, Merged, Accepts, SameCounters, LessOrEqual, Dominated;
    MergeDominates(g, m, now, limits);
    FirstMessage(m, limits);
    assert LogFor(g, m.taskId) == TaskLog(map[], []);
    AcceptedDelivery(g, m, now, limits);
  }

  lemma AcceptedDelivery(g: Ground, m: Message, now: nat, limits: Limits)
    requires Accepts(g, m)
    ensures Received(g, m, now, limits).logs == g.logs[m.taskId := Stored(LogFor(g, m.taskId), m, limits)]
  {
    hide Stored, Merged, SameCounters;
  }

  lemma SecondDelivery(g: Ground, m: Message, now: nat, limits: Limits)
    requires g.logs == map[m.taskId := TaskLog(map[m.id := m], [m.id])]
    requires m.id !in g.seen && Dominated(m, g) && limits.maxMessagesPerTask > 1
    ensures Accepts(g, m)
    ensures LogFor(Received(g, m, now, limits), m.taskId).order == [m.id, m.id]
    ensures !Consistent(LogFor(Received(g, m, now, limits), m.taskId))
  {
    SecondCopy(m, limits);
    hide Stored, Merged, Consistent;
  }

  lemma ThreeSteps(g: Ground, a: Step, b: Step, c: Step, limits: Limits)
    ensures After(g, [a, b, c], limits) == Next(Next(Next(g, a, limits), b, limits), c, limits)
    ensures Accepted(g, [a, b, c], limits) ==
      AcceptedBy(g, a) + AcceptedBy(Next(g, a, limits), b) + AcceptedBy(Next(Next(g, a, limits), b, limits), c)
  {
    hide Next, AcceptedBy;
    var g1 := Next(g, a, limits);
    var g2 := Next(g1, b, limits);
    var g3 := Next(g2, c, limits);
    assert [a, b, c][1..] == [b, c] && [b, c][1..] == [c] && [c][1..] == [];
    assert After(g3, [], limits) == g3 && Accepted(g3, [], limits) == [];
    assert After(g2, [c], limits) == g3 && Accepted(g2, [c], limits) == AcceptedBy(g2, c) + [];
    assert After(g1, [b, c], limits) == g3;
    assert Accepted(g1, [b, c], limits) == AcceptedBy(g1, b) + Accepted(g2, [c], limits);
  }

  lemma FirstMessage(m: Message, limits: Limits)
    requires limits.maxMessagesPerTask > 1
    ensures Stored(TaskLog(map[], []), m, limits) == TaskLog(map[m.id := m], [m.id])
  {
  }

  lemma SecondCopy(m: Message, limits: Limits)
    requires limits.maxMessagesPerTask > 1
    ensures Stored(TaskLog(map[m.id := m], [m.id]), m, limits).order == [m.id, m.id]
    ensures !Consistent(Stored(TaskLog(map[m.id := m], [m.id]), m, limits))
  {
    var log := TaskLog(map[m.id := m], [m.id]);
    assert Stored(log, m, limits) == Inserted(log, m);
    assert Inserted(log, m).order == [m.id, m.id];
    assert Inserted(log, m).order[0] == Inserted(log, m).order[1];
  }

  // ----- the logs over a run

  /** The log that a message is inserted into: a full one is evicted first. */
  function Room(log: TaskLog, limits: Limits): TaskLog {
    if |log.messages| >= limits.maxMessagesPerTask then Evicted(log, limits.protectedRecentMessages) else log
  }

  /** The task and message that a step stores, if any. */
  function Storing(g: Ground, s: Step): Option<(TaskId, Message)> {
    match s
    case Deliver(m, _) => if Accepts(g, m) then Some((m.taskId, m)) else None
    case PublishNew(task, id, kind, priority, now) =>
      if id in g.seen then None else Some((task, Draft(g, task, id, kind, priority, now)))
    case Forget(_) => None
  }

  /** The guard that keeps a log in step: what is stored is not in the log already. */
  predicate StoresNew(g: Ground, s: Step, limits: Limits) {
    var what := Storing(g, s);
    what.Some? ==> what.value.1.id !in Room(LogFor(g, what.value.0), limits).messages
  }

  ghost predicate AllConsistent(g: Ground) {
    forall task :: task in g.logs ==> Consistent(g.logs[task])
  }

  lemma StepStores(g: Ground, s: Step, limits: Limits)
    ensures var what := Storing(g, s);
            Next(g, s, limits).logs ==
              if what.None? then g.logs
              else g.logs[what.value.0 := Stored(LogFor(g, what.value.0), what.value.1, limits)]
  {
    hide Stored, Merged, SameCounters, Ticked;
  }

  lemma RoomIsConsistent(log: TaskLog, limits: Limits) returns (gone: set<MsgId>)
    requires Consistent(log)
    ensures Consistent(Room(log, limits))
    ensures Room(log, limits) == TaskLog(log.messages - gone, Keep(log.order, gone))
  {
    hide Consistent, Evicted;
    if |log.messages| >= limits.maxMessagesPerTask {
      gone := EvictionIsBounded(log, limits.protectedRecentMessages);
    } else {
      gone := {};
      KeepAll(log.order, {});
      assert log.messages - {} == log.messages;
    }
  }

  lemma LogForConsistent(g: Ground, task: TaskId)
    requires AllConsistent(g)
    ensures Consistent(LogFor(g, task))
  {
  }

  /** A step leaves every log in step exactly when what it stores is not there already. */
  lemma StepConsistentIff(g: Ground, s: Step, limits: Limits)
    requires AllConsistent(g)
    ensures AllConsistent(Next(g, s, limits)) <==> StoresNew(g, s, limits)
  {
    StepStores(g, s, limits);
    var what := Storing(g, s);
    hide Next, Storing, Consistent, Stored;
    if what.Some? {
      var task, m := what.value.0, what.value.1;
      var log := LogFor(g, task);
      LogForConsistent(g, task);
      var gone := RoomIsConsistent(log, limits);
      InsertConsistentIff(Room(log, limits), m);
      StoredInRoom(log, m, limits);
      hide Room, Inserted, LogFor;
      var next := Next(g, s, limits);
      assert next.logs[task] == Inserted(Room(log, limits), m);
      assert forall t :: t in next.logs && t != task ==> next.logs[t] == g.logs[t];
    }
  }

  lemma StoredInRoom(log: TaskLog, m: Message, limits: Limits)
    ensures Stored(log, m, limits) == Inserted(Room(log, limits), m)
  {
    hide Inserted, Evicted;
  }

  ghost predicate StoresNewThroughout(g: Ground, run: seq<Step>, limits: Limits)
    decreases |run|
  {
    run != [] ==> StoresNew(g, run[0], limits) && StoresNewThroughout(Next(g, run[0], limits), run[1..], limits)
  }

  ghost predicate ConsistentThroughout(g: Ground, run: seq<Step>, limits: Limits) {
    forall k :: 0 <= k <= |run| ==> AllConsistent(After(g, run[..k], limits))
  }

  /** Over a run, cleanups and all, every log lists each of its messages exactly once all
      along if and only if no step stores an identifier that is still in its log. */
  lemma {:induction false} RunConsistentIff(g: Ground, run: seq<Step>, limits: Limits)
    requires AllConsistent(g)
    ensures ConsistentThroughout(g, run, limits) <==> StoresNewThroughout(g, run, limits)
    decreases |run|
  {
    if run == [] {
      assert forall k :: 0 <= k <= |run| ==> run[..k] == [];
    } else {
      hide AllConsistent, StoresNew, Next, ConsistentThroughout;
      StepConsistentIff(g, run[0], limits);
      ThroughoutSplits(g, run, limits);
      if StoresNew(g, run[0], limits) {
        RunConsistentIff(Next(g, run[0], limits), run[1..], limits);
      }
    }
  }

  lemma ThroughoutSplits(g: Ground, run: seq<Step>, limits: Limits)
    requires run != [] && AllConsistent(g)
    ensures ConsistentThroughout(g, run, limits) <==>
      AllConsistent(Next(g, run[0], limits)) && ConsistentThroughout(Next(g, run[0], limits), run[1..], limits)
  {
    hide AllConsistent, Next;
    var next := Next(g, run[0], limits);
    forall k | 1 <= k <= |run| ensures After(g, run[..k], limits) == After(next, run[1..][..k - 1], limits) {
      assert run[..k][1..] == run[1..][..k - 1];
    }
    assert run[..0] == [] && run[1..][..0] == [];
    if ConsistentThroughout(g, run, limits) {
      assert AllConsistent(After(g, run[..1], limits));
      forall k | 0 <= k <= |run[1..]| ensures AllConsistent(After(next, run[1..][..k], limits)) {
        assert AllConsistent(After(g, run[..k + 1], limits));
      }
    }
    if ConsistentThroughout(next, run[1..], limits) {
      forall k | 0 <= k <= |run| ensures AllConsistent(After(g, run[..k], limits)) {
        assert k > 0 ==> AllConsistent(After(next, run[1..][..k - 1], limits));
      }
    }
  }

  // ----- time order over a run

  /** A log in step and in time order, of messages that the local clock knows. */
  ghost predicate SaneLog(g: Ground, log: TaskLog) {
    && Consistent(log)
    && SortedByTime(Transcript(log))
    && forall id :: id in log.messages ==> LessOrEqual(log.messages[id].clock, g.clock)
  }

  ghost predicate Sane(g: Ground) {
    forall task :: task in g.logs ==> SaneLog(g, g.logs[task])
  }

  /** The message's clock differs from those already in the log. */
  ghost predicate NewClock(log: TaskLog, m: Message) {
    forall id :: id in log.messages ==> !SameCounters(m.clock, log.messages[id].clock)
  }

  /** A step stores nothing twice, and deliveries that are accepted bring new clocks. */
  ghost predicate StepFits(g: Ground, s: Step, limits: Limits) {
    && StoresNew(g, s, limits)
    && (s.Deliver? && Accepts(g, s.message) ==> NewClock(Room(LogFor(g, s.message.taskId), limits), s.message))
  }

  ghost predicate RunFits(g: Ground, run: seq<Step>, limits: Limits)
    decreases |run|
  {
    run != [] ==> StepFits(g, run[0], limits) && RunFits(Next(g, run[0], limits), run[1..], limits)
  }

  /** Storing a message under a new identifier and with a new clock. */
  lemma StoreKeepsLog(log: TaskLog, m: Message, limits: Limits)
    requires Consistent(log) && SortedByTime(Transcript(log))
    requires m.id !in Room(log, limits).messages && NewClock(Room(log, limits), m)
    ensures Consistent(Stored(log, m, limits)) && SortedByTime(Transcript(Stored(log, m, limits)))
    ensures forall id :: id in Stored(log, m, limits).messages ==>
      if id == m.id then Stored(log, m, limits).messages[id] == m
      else id in log.messages && Stored(log, m, limits).messages[id] == log.messages[id]
  {
    hide Inserted, Consistent, SortedByTime, NewClock;
    var gone := RoomIsConsistent(log, limits);
    KeepKeepsSorted(log, gone);
    StoredInRoom(log, m, limits);
    InsertKeepsLog(Room(log, limits), m);
  }

  lemma InsertKeepsLog(log: TaskLog, m: Message)
    requires Consistent(log) && SortedByTime(Transcript(log)) && m.id !in log.messages && NewClock(log, m)
    ensures Consistent(Inserted(log, m)) && SortedByTime(Transcript(Inserted(log, m)))
    ensures Inserted(log, m).messages == log.messages[m.id := m]
  {
    InsertConsistentIff(log, m);
    InsertIsInsert(log, m);
    InsertKeepsSorted(Transcript(log), m);
  }

  lemma GrowingClock(g: Ground, g': Ground, log: TaskLog)
    requires SaneLog(g, log) && LessOrEqual(g.clock, g'.clock)
    ensures SaneLog(g', log)
  {
    forall id | id in log.messages ensures LessOrEqual(log.messages[id].clock, g'.clock) {
      LessOrEqualTransitive(log.messages[id].clock, g.clock, g'.clock);
    }
  }

  lemma StoreKeepsSaneLog(g: Ground, g': Ground, log: TaskLog, m: Message, limits: Limits)
    requires SaneLog(g, log) && LessOrEqual(g.clock, g'.clock) && LessOrEqual(m.clock, g'.clock)
    requires m.id !in Room(log, limits).messages && NewClock(Room(log, limits), m)
    ensures SaneLog(g', Stored(log, m, limits))
  {
    GrowingClock(g, g', log);
    StoreKeepsLog(log, m, limits);
  }

  lemma StoreKeepsSane(g: Ground, g': Ground, task: TaskId, m: Message, limits: Limits)
    requires Sane(g) && LessOrEqual(g.clock, g'.clock) && LessOrEqual(m.clock, g'.clock)
    requires m.id !in Room(LogFor(g, task), limits).messages && NewClock(Room(LogFor(g, task), limits), m)
    requires g'.logs == g.logs[task := Stored(LogFor(g, task), m, limits)]
    ensures Sane(g')
  {
    hide SaneLog, Stored, NewClock, LessOrEqual, Room;
    forall t | t in g'.logs ensures SaneLog(g', g'.logs[t]) {
      if t == task {
        EmptyLogIsSane(g);
        StoreKeepsSaneLog(g, g', LogFor(g, task), m, limits);
      } else {
        GrowingClock(g, g', g.logs[t]);
      }
    }
  }

  lemma EmptyLogIsSane(g: Ground)
    ensures SaneLog(g, TaskLog(map[], []))
  {
  }

  lemma MergedIsAbove(c: Clock, incoming: Clock, self: NodeId)
    ensures LessOrEqual(c, Merged(c, incoming, self)) && LessOrEqual(incoming, Merged(c, incoming, self))
  {
    forall n | n in c.Keys || n in incoming.Keys
      ensures Max(Counter(c, n), Counter(incoming, n)) <= Counter(Merged(c, incoming, self), n)
    {
      MergedCounter(c, incoming, self, n);
    }
  }

  lemma StepKeepsSane(g: Ground, s: Step, limits: Limits)
    requires Sane(g) && StepFits(g, s, limits)
    ensures Sane(Next(g, s, limits))
  {
    hide SaneLog, NewClock, Room, Stored;
    match s
    case Deliver(m, now) => DeliveryKeepsSane(g, m, now, limits);
    case PublishNew(task, id, kind, priority, now) => PublicationKeepsSane(g, task, id, kind, priority, now, limits);
    case Forget(kept) => ForgettingKeepsSane(g, kept);
  }

  lemma ForgettingKeepsSane(g: Ground, kept: set<MsgId>)
    requires Sane(g)
    ensures Sane(Forgotten(g, kept))
  {
    hide SaneLog;
    LessOrEqualReflexive(g.clock);
    forall task | task in g.logs ensures SaneLog(Forgotten(g, kept), g.logs[task]) {
      GrowingClock(g, Forgotten(g, kept), g.logs[task]);
    }
  }

  lemma DeliveryKeepsSane(g: Ground, m: Message, now: nat, limits: Limits)
    requires Sane(g)
    requires Accepts(g, m) ==>
      var room := Room(LogFor(g, m.taskId), limits); m.id !in room.messages && NewClock(room, m)
    ensures Sane(Received(g, m, now, limits))
  {
    hide Stored, NewClock, Merged, Room;
    var g' := Received(g, m, now, limits);
    if Accepts(g, m) {
      MergedIsAbove(g.clock, m.clock, g.self);
      hide SaneLog, LessOrEqual;
      StoreKeepsSane(g, g', m.taskId, m, limits);
    } else {
      LessOrEqualReflexive(g.clock);
      hide SaneLog, LessOrEqual;
      forall task | task in g.logs ensures SaneLog(g', g.logs[task]) {
        GrowingClock(g, g', g.logs[task]);
      }
    }
  }

  /** A freshly ticked clock differs from everything known so far. */
  lemma TickIsNew(g: Ground, log: TaskLog, m: Message, limits: Limits)
    requires SaneLog(g, log) && m.clock == Ticked(g.clock, g.self)
    ensures NewClock(Room(log, limits), m) && LessOrEqual(g.clock, m.clock)
  {
    var gone := RoomIsConsistent(log, limits);
    hide Consistent, SortedByTime, Room, Evicted;
    forall id | id in Room(log, limits).messages ensures !SameCounters(m.clock, Room(log, limits).messages[id].clock) {
      assert id in log.messages && Room(log, limits).messages[id] == log.messages[id];
      var c := log.messages[id].clock;
      assert g.self in m.clock.Keys;
      LessOrEqualEverywhere(c, g.clock);
      assert Counter(c, g.self) <= Counter(g.clock, g.self) < Counter(m.clock, g.self);
    }
  }

  lemma PublicationKeepsSane(g: Ground, task: TaskId, id: MsgId, kind: string, priority: string, now: nat,
                             limits: Limits)
    requires Sane(g) && (id !in g.seen ==> id !in Room(LogFor(g, task), limits).messages)
    ensures Sane(Published(g, task, id, kind, priority, now, limits))
  {
    hide Stored, NewClock, SaneLog, Ticked, LessOrEqual, Room;
    if id !in g.seen {
      var m := Draft(g, task, id, kind, priority, now);
      EmptyLogIsSane(g);
      TickIsNew(g, LogFor(g, task), m, limits);
      LessOrEqualReflexive(m.clock);
      StoreKeepsSane(g, Published(g, task, id, kind, priority, now, limits), task, m, limits);
    }
  }

  lemma LessOrEqualReflexive(c: Clock)
    ensures LessOrEqual(c, c)
  {
  }

  lemma LessOrEqualTransitive(a: Clock, b: Clock, c: Clock)
    requires LessOrEqual(a, b) && LessOrEqual(b, c)
    ensures LessOrEqual(a, c)
  {
    LessOrEqualEverywhere(b, c);
  }

  /** Over every run that stores nothing twice and accepts new clocks only, whatever its
      cleanups forget, each log lists each of its messages once, in time order, and hence
      in causal order whenever the timestamps of its messages follow causality. */
  lemma {:induction false} RunsKeepLogs(g: Ground, run: seq<Step>, limits: Limits, task: TaskId)
    requires Sane(g) && RunFits(g, run, limits)
    ensures Sane(After(g, run, limits))
    ensures Consistent(LogFor(After(g, run, limits), task))
    ensures var transcript := Transcript(LogFor(After(g, run, limits), task));
            SortedByTime(transcript) && (StampedCausally(transcript) ==> CausallyOrdered(transcript))
    decreases |run|
  {
    if run == [] {
      EmptyLogIsSane(g);
      var transcript := Transcript(LogFor(g, task));
      if StampedCausally(transcript) {
        SortedIsCausal(transcript);
      }
    } else {
      hide Sane, StepFits, Next, Consistent, SortedByTime, StampedCausally, CausallyOrdered;
      StepKeepsSane(g, run[0], limits);
      RunsKeepLogs(Next(g, run[0], limits), run[1..], limits, task);
    }
  }
}
