/** The class of packages/cli/src/core/comms/DistributedCommsGround.ts: messages by
    task, their order, the remembered identifiers and the rate limits, edited in place. */
module CommsGround {
  import opened Wrappers
  import opened Sequences
  import opened VectorClock
  import opened ArrivalOrder
  import opened MessageLog
  import opened Deliveries
  import opened RateLimit

  method FindCausalInsertIndex(taskOrder: seq<MsgId>, taskMessages: map<MsgId, Message>, newMessage: Message)
    returns (k: nat)
    ensures k == InsertIndex(TaskLog(taskMessages, taskOrder), newMessage)
  {
    ghost var log := TaskLog(taskMessages, taskOrder);
    var i := 0;
    while i < |taskOrder|
      invariant 0 <= i <= |taskOrder|
      invariant IndexFrom(log, newMessage, i) == InsertIndex(log, newMessage)
    {
      if taskOrder[i] in taskMessages {
        var existing := taskMessages[taskOrder[i]];
        var comparison := Compare(newMessage.clock, existing.clock);
        if comparison == Before {
          return i;
        }
        if comparison == Concurrent && newMessage.timestamp < existing.timestamp {
          return i;
        }
      }
      i := i + 1;
    }
    k := |taskOrder|;
  }

  method EvictOldMessages(log: TaskLog, protectedRecentMessages: nat) returns (log': TaskLog)
    ensures log' == Evicted(log, protectedRecentMessages)
    ensures Consistent(log) ==> Consistent(log') && 5 * (|log.messages| - |log'.messages|) <= |log.messages|
    ensures Consistent(log) ==> forall id :: id in log'.messages ==>
      id in log.messages && log'.messages[id] == log.messages[id]
    ensures Consistent(log) ==> forall id :: id in log.messages && Spared(log, protectedRecentMessages, id) ==>
      id in log'.messages
  {
    hide Consistent, Spared, Protected;
    var protectedCount := if protectedRecentMessages < |log.order| then protectedRecentMessages else |log.order|;
    var evictable: seq<MsgId> := [];
    var i := 0;
    var quota := |log.messages| / 5;
    while i < |log.order| - protectedCount && |evictable| < quota
      invariant 0 <= i <= |log.order| && |evictable| <= quota
      invariant evictable + Chosen(log, protectedRecentMessages, quota - |evictable|, i)
             == Chosen(log, protectedRecentMessages, quota, 0)
    {
      var id := log.order[i];
      if id in log.messages && !Protected(log.messages[id]) {
        assert evictable + [id] + Chosen(log, protectedRecentMessages, quota - |evictable| - 1, i + 1)
            == evictable + ([id] + Chosen(log, protectedRecentMessages, quota - |evictable| - 1, i + 1));
        evictable := evictable + [id];
      }
      i := i + 1;
    }
    assert evictable == Evictable(log, protectedRecentMessages);
    log' := log;
    var j := 0;
    while j < |evictable|
      invariant 0 <= j <= |evictable|
      invariant RemoveAll(log', evictable[j..]) == Evicted(log, protectedRecentMessages)
    {
      assert evictable[j..][1..] == evictable[j + 1..];
      log' := TaskLog(log'.messages - {evictable[j]}, RemoveFirst(log'.order, evictable[j]));
      j := j + 1;
    }
    if Consistent(log) {
      SparedSurvive(log, protectedRecentMessages);
    }
  }

  method Oldest(seen: map<MsgId, nat>) returns (id: MsgId)
    requires seen != map[]
    ensures id in seen && forall other :: other in seen ==> seen[id] <= seen[other]
  {
    id :| id in seen.Keys;
    var rest := seen.Keys - {id};
    while rest != {}
      invariant id in seen && rest <= seen.Keys
      invariant forall other :: other in seen && other !in rest ==> seen[id] <= seen[other]
      decreases rest
    {
      var other :| other in rest;
      if seen[other] < seen[id] {
        id := other;
      }
      rest := rest - {other};
    }
  }

  /** getMessage: a stored message, if it is still there. */
  function Lookup(messagesByTask: map<TaskId, map<MsgId, Message>>, taskId: TaskId, messageId: MsgId): Option<Message> {
    if taskId in messagesByTask && messageId in messagesByTask[taskId]
    then Some(messagesByTask[taskId][messageId]) else None
  }

  class CommsGround {
    const vectorClock: VectorClock
    const limits: Limits
    const maxMessagesPerMinute: nat
    const rateLimitWindow: nat
    const dedupTTL: nat
    const maxDedupSize: nat

    var messagesByTask: map<TaskId, map<MsgId, Message>>
    var messageOrderByTask: map<TaskId, seq<MsgId>>
    var seenMessages: map<MsgId, nat>
    var messageRateLimits: map<AgentId, Entry>

    constructor (nodeId: NodeId, limits: Limits, maxMessagesPerMinute: nat, dedupTTL: nat, maxDedupSize: nat)
      ensures Valid() && fresh(vectorClock)
      ensures State() == Ground(nodeId, map[nodeId := 0], map[], map[])
      ensures messageRateLimits == map[] && rateLimitWindow == 60000
    {
      vectorClock := new VectorClock(nodeId);
      this.limits, this.maxMessagesPerMinute, this.rateLimitWindow := limits, maxMessagesPerMinute, 60000;
      this.dedupTTL, this.maxDedupSize := dedupTTL, maxDedupSize;
      messagesByTask, messageOrderByTask, seenMessages, messageRateLimits := map[], map[], map[], map[];
    }

    ghost predicate Valid()
      reads this
    {
      messagesByTask.Keys == messageOrderByTask.Keys
    }

    ghost function State(): Ground
      requires Valid()
      reads this, vectorClock
    {
      Ground(vectorClock.nodeId, vectorClock.clock, seenMessages, LogsOf(messagesByTask, messageOrderByTask))
    }

    method EnsureTask(taskId: TaskId)
      requires Valid()
      modifies this`messagesByTask, this`messageOrderByTask
      ensures Valid() && taskId in messagesByTask
      ensures TaskLog(messagesByTask[taskId], messageOrderByTask[taskId]) == LogFor(old(State()), taskId)
      ensures State().logs == old(State()).logs[taskId := LogFor(old(State()), taskId)]
    {
      if taskId !in messagesByTask {
        LogsOfUpdate(messagesByTask, messageOrderByTask, taskId, TaskLog(map[], []));
        messagesByTask := messagesByTask[taskId := map[]];
        messageOrderByTask := messageOrderByTask[taskId := []];
      }
    }

    method StoreMessage(taskId: TaskId, message: Message)
      requires Valid()
      modifies this`messagesByTask, this`messageOrderByTask
      ensures Valid() && State() == Store(old(State()), taskId, message, limits)
    {
      hide Stored, Inserted, Evicted, InsertIndex, LogsOf, LogFor;
      ghost var g := State();
      EnsureTask(taskId);
      var log := TaskLog(messagesByTask[taskId], messageOrderByTask[taskId]);
      StoredSteps(log, message, limits);
      if |log.messages| >= limits.maxMessagesPerTask {
        log := EvictOldMessages(log, limits.protectedRecentMessages);
      }
      var insertIndex := FindCausalInsertIndex(log.order, log.messages, message);
      InsertedSteps(log, message);
      LogsOfUpdate(messagesByTask, messageOrderByTask, taskId, Inserted(log, message));
      OverwriteTwice(g.logs, taskId, LogFor(g, taskId), Inserted(log, message));
      messageOrderByTask :=
        messageOrderByTask[taskId := log.order[..insertIndex] + [message.id] + log.order[insertIndex..]];
      messagesByTask := messagesByTask[taskId := log.messages[message.id := message]];
    }

    method ReceiveFromNetwork(message: Message, now: nat) returns (accepted: bool)
      requires Valid()
      modifies this, vectorClock
      ensures Valid() && accepted == Accepts(old(State()), message)
      ensures State() == Received(old(State()), message, now, limits)
      ensures messageRateLimits == old(messageRateLimits)
    {
      hide Stored, SameCounters, Merged, LogFor;
      if message.id in seenMessages {
        return false;
      }
      var stale := vectorClock.IsStale(message.clock);
      if stale {
        seenMessages := seenMessages[message.id := now];
        return false;
      }
      vectorClock.Merge(message.clock);
      ghost var merged := State();
      StoreMessage(message.taskId, message);
      seenMessages := seenMessages[message.id := now];
      accepted := true;
    }

    /** Admits or turns away one call of the agent. */
    method CheckRateLimit(agentId: AgentId, now: int) returns (admitted: bool)
      modifies this`messageRateLimits
      ensures admitted == Admits(old(messageRateLimits), agentId, now, maxMessagesPerMinute)
      ensures messageRateLimits == Checked(old(messageRateLimits), agentId, now, maxMessagesPerMinute, rateLimitWindow)
      ensures agentId !in old(messageRateLimits) || now >= old(messageRateLimits)[agentId].resetAt ==>
        admitted && messageRateLimits == old(messageRateLimits)[agentId := Entry(1, now + rateLimitWindow)]
      ensures agentId in old(messageRateLimits) && now < old(messageRateLimits)[agentId].resetAt ==>
        var Entry(count, resetAt) := old(messageRateLimits)[agentId];
        if count >= maxMessagesPerMinute then !admitted && messageRateLimits == old(messageRateLimits)
        else admitted && messageRateLimits == old(messageRateLimits)[agentId := Entry(count + 1, resetAt)]
    {
      if agentId !in messageRateLimits || now >= messageRateLimits[agentId].resetAt {
        messageRateLimits := messageRateLimits[agentId := Entry(1, now + rateLimitWindow)];
        return true;
      }
      var entry := messageRateLimits[agentId];
      if entry.count >= maxMessagesPerMinute {
        return false;
      }
      messageRateLimits := messageRateLimits[agentId := Entry(entry.count + 1, entry.resetAt)];
      admitted := true;
    }

    /** `messageId` is the given or generated identifier. */
    method Publish(taskId: TaskId, sender: AgentId, messageId: MsgId, kind: string, priority: string, now: nat)
      returns (published: Option<Message>)
      requires Valid()
      modifies this, vectorClock
      ensures Valid()
      ensures messageRateLimits == Checked(old(messageRateLimits), sender, now, maxMessagesPerMinute, rateLimitWindow)
      ensures !Admits(old(messageRateLimits), sender, now, maxMessagesPerMinute) ==>
        published == None && State() == old(State())
      ensures Admits(old(messageRateLimits), sender, now, maxMessagesPerMinute) ==>
        State() == Published(old(State()), taskId, messageId, kind, priority, now, limits)
      ensures Admits(old(messageRateLimits), sender, now, maxMessagesPerMinute) && messageId !in old(seenMessages) ==>
        published == Some(Draft(old(State()), taskId, messageId, kind, priority, now))
      ensures Admits(old(messageRateLimits), sender, now, maxMessagesPerMinute) && messageId in old(seenMessages) ==>
        published == if taskId in old(messagesByTask) && messageId in old(messagesByTask)[taskId]
                     then Some(old(messagesByTask)[taskId][messageId]) else None
    {
      hide Stored, Ticked, LogFor, Admits, Checked;
      var admitted := CheckRateLimit(sender, now);
      if !admitted {
        return None;
      }
      if messageId in seenMessages {
        return Lookup(messagesByTask, taskId, messageId);
      }
      var clockSnapshot := vectorClock.Tick();
      var fullMessage := Message(messageId, taskId, vectorClock.nodeId, clockSnapshot, now, kind, priority);
      StoreMessage(taskId, fullMessage);
      seenMessages := seenMessages[messageId := now];
      published := Some(fullMessage);
    }

    method CleanupDedup(now: nat)
      requires Valid()
      modifies this`seenMessages
      ensures CleanedUp(old(seenMessages), seenMessages, now, dedupTTL, maxDedupSize)
      ensures forall id :: id in seenMessages ==>
        id in old(seenMessages) && seenMessages[id] == old(seenMessages)[id] && now - seenMessages[id] <= dedupTTL
      ensures var young := set id | id in old(seenMessages) && now - old(seenMessages)[id] <= dedupTTL;
              && (|young| <= maxDedupSize ==> seenMessages.Keys == young)
              && (|young| > maxDedupSize ==> |seenMessages| == maxDedupSize)
              && (forall id, other :: id in seenMessages && other in young && other !in seenMessages ==>
                    old(seenMessages)[other] <= old(seenMessages)[id])
      ensures Valid() && State() == Forgotten(old(State()), seenMessages.Keys)
    {
      hide CleanedUp, LogsOf;
      ghost var before := seenMessages;
      seenMessages := DropExpired(seenMessages, now, dedupTTL);
      ghost var young := seenMessages;
      if |seenMessages| > maxDedupSize {
        seenMessages := DropOldest(seenMessages, maxDedupSize);
      }
      KeptIsClean(before, young, seenMessages, now, dedupTTL, maxDedupSize);
      WhatCleanupKeeps(before, seenMessages, now, dedupTTL, maxDedupSize);
      KeptIsRest(before, seenMessages);
    }
  }

  function LogsOf(messages: map<TaskId, map<MsgId, Message>>, orders: map<TaskId, seq<MsgId>>): map<TaskId, TaskLog>
    requires messages.Keys == orders.Keys
  {
    map task | task in messages :: TaskLog(messages[task], orders[task])
  }

  lemma OverwriteTwice(logs: map<TaskId, TaskLog>, task: TaskId, first: TaskLog, second: TaskLog)
    ensures logs[task := first][task := second] == logs[task := second]
  {
  }

  lemma LogsOfUpdate(messages: map<TaskId, map<MsgId, Message>>, orders: map<TaskId, seq<MsgId>>, task: TaskId,
                     log: TaskLog)
    requires messages.Keys == orders.Keys
    ensures messages[task := log.messages].Keys == orders[task := log.order].Keys
    ensures LogsOf(messages[task := log.messages], orders[task := log.order]) == LogsOf(messages, orders)[task := log]
  {
  }

  method DropExpired(seen: map<MsgId, nat>, now: nat, ttl: nat) returns (left: map<MsgId, nat>)
    ensures left == map id | id in seen && now - seen[id] <= ttl :: seen[id]
  {
    left := seen;
    var entries := seen.Keys;
    while entries != {}
      invariant entries <= seen.Keys
      invariant left == map id | id in seen && (id in entries || now - seen[id] <= ttl) :: seen[id]
      decreases entries
    {
      var id :| id in entries;
      if now - seen[id] > ttl {
        left := left - {id};
      }
      entries := entries - {id};
    }
  }

  /** Drops the oldest entries, one by one, until `max` are left. */
  method DropOldest(seen: map<MsgId, nat>, max: nat) returns (left: map<MsgId, nat>)
    requires |seen| > max
    ensures left.Keys <= seen.Keys && |left| == max
    ensures forall id :: id in left ==> left[id] == seen[id]
    ensures forall id, other :: id in left && other in seen && other !in left ==> seen[other] <= seen[id]
  {
    left := seen;
    while |left| > max
      invariant left.Keys <= seen.Keys && |left| >= max
      invariant forall id :: id in left ==> left[id] == seen[id]
      invariant forall id, other :: id in left && other in seen && other !in left ==> seen[other] <= seen[id]
      decreases |left|
    {
      var id := Oldest(left);
      OneLess(left, id);
      left := left - {id};
    }
  }

  lemma KeptIsClean(before: map<MsgId, nat>, young: map<MsgId, nat>, after: map<MsgId, nat>, now: nat, ttl: nat,
                    max: nat)
    requires young == map id | id in before && now - before[id] <= ttl :: before[id]
    requires after.Keys <= young.Keys && |after| == if |young| <= max then |young| else max
    requires forall id :: id in after ==> after[id] == young[id]
    requires forall id, other :: id in after && other in young && other !in after ==> young[other] <= young[id]
    ensures CleanedUp(before, after, now, ttl, max)
  {
  }

  lemma KeptIsRest(before: map<MsgId, nat>, after: map<MsgId, nat>)
    requires forall id :: id in after ==> id in before && after[id] == before[id]
    ensures after == map id | id in before && id in after.Keys :: before[id]
  {
  }

  lemma WhatCleanupKeeps(before: map<MsgId, nat>, after: map<MsgId, nat>, now: nat, ttl: nat, max: nat)
    requires CleanedUp(before, after, now, ttl, max)
    ensures forall id :: id in after ==> id in before && after[id] == before[id] && now - after[id] <= ttl
    ensures var young := set id | id in before && now - before[id] <= ttl;
            && (|young| <= max ==> after.Keys == young)
            && (|young| > max ==> |after| == max)
            && (forall id, other :: id in after && other in young && other !in after ==> before[other] <= before[id])
  {
    var alive := map id | id in before && now - before[id] <= ttl :: before[id];
    var young := set id | id in before && now - before[id] <= ttl;
    assert alive.Keys == young;
    if |young| <= max {
      SubsetCardinality(after.Keys, young);
    }
  }

  lemma StoredSteps(log: TaskLog, m: Message, limits: Limits)
    ensures var full := |log.messages| >= limits.maxMessagesPerTask;
            Stored(log, m, limits) == Inserted(if full then Evicted(log, limits.protectedRecentMessages) else log, m)
  {
  }

  lemma InsertedSteps(log: TaskLog, m: Message)
    ensures Inserted(log, m) ==
      TaskLog(log.messages[m.id := m], log.order[..InsertIndex(log, m)] + [m.id] + log.order[InsertIndex(log, m)..])
  {
  }

  lemma OneLess(seen: map<MsgId, nat>, id: MsgId)
    requires id in seen
    ensures |seen - {id}| == |seen| - 1
  {
    assert (seen - {id}).Keys == seen.Keys - {id};
  }
}
