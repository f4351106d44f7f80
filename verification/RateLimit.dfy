/** The fixed-window limiter of packages/cli/src/core/comms/DistributedCommsGround.ts
    (checkRateLimit), over whole runs of calls by any number of agents. */
module RateLimit {

  type AgentId = string

  datatype Entry = Entry(count: nat, resetAt: int)

  /** Whether a call is admitted. */
  predicate Admits(entries: map<AgentId, Entry>, agent: AgentId, now: int, limit: nat) {
    agent !in entries || now >= entries[agent].resetAt || entries[agent].count < limit
  }

  /** Whether a call opens a new window. */
  predicate Opens(entries: map<AgentId, Entry>, agent: AgentId, now: int) {
    agent !in entries || now >= entries[agent].resetAt
  }

  function Checked(entries: map<AgentId, Entry>, agent: AgentId, now: int, limit: nat,
                   window: nat): map<AgentId, Entry>
  {
    if Opens(entries, agent, now) then entries[agent := Entry(1, now + window)]
    else if entries[agent].count >= limit then entries
    else entries[agent := Entry(entries[agent].count + 1, entries[agent].resetAt)]
  }

  datatype Call = Call(agent: AgentId, time: int)

  /** The entries after some calls, with the admitted times of one agent and the times
      at which its windows were opened. */
  datatype Account = Account(entries: map<AgentId, Entry>, admitted: seq<int>, openings: seq<int>)

  function Step(a: Account, agent: AgentId, c: Call, limit: nat, window: nat): Account {
    Account(
      Checked(a.entries, c.agent, c.time, limit, window),
      if c.agent == agent && Admits(a.entries, agent, c.time, limit) then a.admitted + [c.time] else a.admitted,
      if c.agent == agent && Opens(a.entries, agent, c.time) then a.openings + [c.time] else a.openings)
  }

  function Replay(agent: AgentId, calls: seq<Call>, limit: nat, window: nat): Account {
    if calls == [] then Account(map[], [], [])
    else Step(Replay(agent, calls[..|calls| - 1], limit, window), agent, calls[|calls| - 1], limit, window)
  }

  /** How many of the times lie in the half-open interval [from, to). */
  function Count(times: seq<int>, from: int, to: int): nat {
    if times == [] then 0
    else Count(times[..|times| - 1], from, to) + if from <= times[|times| - 1] < to then 1 else 0
  }

  function CountDuring(times: seq<int>, from: int, window: nat): nat {
    Count(times, from, from + window)
  }

  lemma CountAppend(times: seq<int>, t: int, from: int, to: int)
    ensures Count(times + [t], from, to) == Count(times, from, to) + if from <= t < to then 1 else 0
  {
    assert (times + [t])[..|times|] == times;
  }

  lemma {:induction false} CountSplit(times: seq<int>, from: int, mid: int, to: int)
    requires from <= mid <= to
    ensures Count(times, from, to) == Count(times, from, mid) + Count(times, mid, to)
  {
    if times != [] {
      CountSplit(times[..|times| - 1], from, mid, to);
    }
  }

  lemma {:induction false} CountOutside(times: seq<int>, from: int, to: int)
    requires forall i :: 0 <= i < |times| ==> times[i] < from
    ensures Count(times, from, to) == 0
  {
    if times != [] {
      CountOutside(times[..|times| - 1], from, to);
    }
  }

  lemma {:induction false} CountGrows(times: seq<int>, from: int, to: int, from': int, to': int)
    requires from' <= from && to <= to'
    ensures Count(times, from, to) <= Count(times, from', to')
  {
    if times != [] {
      CountGrows(times[..|times| - 1], from, to, from', to');
    }
  }

  /** The bound that holds whatever the limit: a new window always admits its first call. */
  function Bound(limit: nat): nat {
    if limit == 0 then 1 else limit
  }

  /** What is known of an agent whose current window is [start, start + window). */
  ghost predicate WindowHolds(admitted: seq<int>, count: nat, start: int, limit: nat, window: nat) {
    && (forall i :: 0 <= i < |admitted| ==> admitted[i] < start + window)
    && Count(admitted, start, start + window) == count <= Bound(limit)
    && (forall from :: start - window <= from <= start ==> Count(admitted, from, start) <= Bound(limit))
    && (forall from :: CountDuring(admitted, from, window) <= 2 * Bound(limit))
  }

  ghost predicate Holds(a: Account, agent: AgentId, limit: nat, window: nat) {
    && (agent !in a.entries ==> a.admitted == [] && a.openings == [])
    && (agent in a.entries ==>
          WindowHolds(a.admitted, a.entries[agent].count, a.entries[agent].resetAt - window, limit, window))
    && (forall i :: 0 <= i < |a.openings| ==>
          && Count(a.admitted, a.openings[i], a.openings[i] + window) <= Bound(limit)
          && agent in a.entries
          && (a.openings[i] + 2 * window <= a.entries[agent].resetAt
            || a.openings[i] + window == a.entries[agent].resetAt))
  }

  /** The last stretch before a new window holds calls of the current window only. */
  lemma TailBound(admitted: seq<int>, count: nat, start: int, limit: nat, window: nat, from: int, to: int)
    requires WindowHolds(admitted, count, start, limit, window) && start <= from
    ensures Count(admitted, from, to) <= Bound(limit)
  {
    if to <= start + window {
      CountGrows(admitted, from, to, start, start + window);
    } else if from <= start + window {
      CountSplit(admitted, from, start + window, to);
      CountOutside(admitted, start + window, to);
      CountGrows(admitted, from, start + window, start, start + window);
    } else {
      CountOutside(admitted, from, to);
    }
  }

  /** A call that opens a window. */
  lemma OpenHolds(admitted: seq<int>, count: nat, start: int, limit: nat, window: nat, now: int)
    requires window > 0 && WindowHolds(admitted, count, start, limit, window) && start + window <= now
    ensures WindowHolds(admitted + [now], 1, now, limit, window)
  {
    CountOutside(admitted, now, now + window);
    CountAppend(admitted, now, now, now + window);
    forall from | now - window <= from <= now ensures Count(admitted + [now], from, now) <= Bound(limit) {
      CountAppend(admitted, now, from, now);
      TailBound(admitted, count, start, limit, window, from, now);
    }
    forall from ensures CountDuring(admitted + [now], from, window) <= 2 * Bound(limit) {
      assert CountDuring(admitted, from, window) <= 2 * Bound(limit);
      CountAppend(admitted, now, from, from + window);
      if from <= now < from + window {
        TailBound(admitted, count, start, limit, window, from, from + window);
      }
    }
  }

  /** A call that is admitted into the current window. */
  lemma AdmitHolds(admitted: seq<int>, count: nat, start: int, limit: nat, window: nat, now: int)
    requires WindowHolds(admitted, count, start, limit, window) && start <= now < start + window && count < limit
    ensures WindowHolds(admitted + [now], count + 1, start, limit, window)
  {
    CountAppend(admitted, now, start, start + window);
    forall from | start - window <= from <= start ensures Count(admitted + [now], from, start) <= Bound(limit) {
      CountAppend(admitted, now, from, start);
    }
    forall from ensures CountDuring(admitted + [now], from, window) <= 2 * Bound(limit) {
      assert CountDuring(admitted, from, window) <= 2 * Bound(limit);
      CountAppend(admitted, now, from, from + window);
      if from <= now < from + window {
        if from < start {
          CountSplit(admitted, from, start, from + window);
          CountGrows(admitted, start, from + window, start, start + window);
        } else {
          TailBound(admitted, count, start, limit, window, from, from + window);
        }
      }
    }
  }

  /** Times never run backwards. */
  ghost predicate Ordered(calls: seq<Call>) {
    forall i, j :: 0 <= i < j < |calls| ==> calls[i].time <= calls[j].time
  }

  /** The current window cannot have been opened in the future. */
  ghost predicate OpenedBy(a: Account, agent: AgentId, now: int, window: nat) {
    agent in a.entries ==> a.entries[agent].resetAt - window <= now
  }

  lemma FirstCallHolds(now: int, limit: nat, window: nat)
    requires window > 0
    ensures WindowHolds([now], 1, now, limit, window)
  {
    assert [] + [now] == [now];
    forall from, to ensures Count([now], from, to) == if from <= now < to then 1 else 0 {
      CountAppend([], now, from, to);
    }
  }

  lemma StepHolds(a: Account, agent: AgentId, c: Call, limit: nat, window: nat)
    requires window > 0 && Holds(a, agent, limit, window) && OpenedBy(a, agent, c.time, window)
    ensures Holds(Step(a, agent, c, limit, window), agent, limit, window)
    ensures OpenedBy(Step(a, agent, c, limit, window), agent, c.time, window)
  {
    hide WindowHolds, Count;
    if c.agent == agent {
      if agent !in a.entries {
        assert a.admitted + [c.time] == [c.time];
        FirstCallHolds(c.time, limit, window);
        OpenedWindowBound([c.time], 1, c.time, limit, window);
      } else {
        var count, start := a.entries[agent].count, a.entries[agent].resetAt - window;
        if Opens(a.entries, agent, c.time) {
          OpenHolds(a.admitted, count, start, limit, window, c.time);
          OpenedWindowBound(a.admitted + [c.time], 1, c.time, limit, window);
        } else if count < limit {
          AdmitHolds(a.admitted, count, start, limit, window, c.time);
          OpenedWindowBound(a.admitted + [c.time], count + 1, start, limit, window);
        }
      }
      forall i | 0 <= i < |a.openings| {
        CountAppend(a.admitted, c.time, a.openings[i], a.openings[i] + window);
      }
    }
  }

  lemma OpenedWindowBound(admitted: seq<int>, count: nat, start: int, limit: nat, window: nat)
    requires WindowHolds(admitted, count, start, limit, window)
    ensures Count(admitted, start, start + window) <= Bound(limit)
  {
  }

  lemma {:induction false} ReplayHolds(agent: AgentId, calls: seq<Call>, limit: nat, window: nat)
    requires window > 0 && Ordered(calls)
    ensures Holds(Replay(agent, calls, limit, window), agent, limit, window)
    ensures calls != [] ==> OpenedBy(Replay(agent, calls, limit, window), agent, calls[|calls| - 1].time, window)
  {
    if calls != [] {
      hide Holds;
      var front, last := calls[..|calls| - 1], calls[|calls| - 1];
      ReplayHolds(agent, front, limit, window);
      if front == [] {
        NothingHolds(agent, limit, window);
      } else {
        assert front[|front| - 1].time <= last.time;
      }
      StepHolds(Replay(agent, front, limit, window), agent, last, limit, window);
    }
  }

  lemma NothingHolds(agent: AgentId, limit: nat, window: nat)
    ensures Holds(Account(map[], [], []), agent, limit, window)
  {
  }

  /** Whatever the other agents do: at most `limit` admissions in each of the agent's
      windows, and at most twice that in any half-open interval of window length.  A
      limit of zero counts as one. */
  lemma AdmissionsBounded(agent: AgentId, calls: seq<Call>, limit: nat, window: nat, from: int)
    requires window > 0 && Ordered(calls)
    ensures var a := Replay(agent, calls, limit, window);
            && CountDuring(a.admitted, from, window) <= 2 * Bound(limit)
            && forall i :: 0 <= i < |a.openings| ==>
                 Count(a.admitted, a.openings[i], a.openings[i] + window) <= Bound(limit)
  {
    ReplayHolds(agent, calls, limit, window);
    assert Count([], from, from + window) == 0;
  }

  /** A zero limit is not respected: the very first call is admitted. */
  lemma ZeroLimitAdmits(agent: AgentId, time: int, window: nat)
    requires window > 0
    ensures Count(Replay(agent, [Call(agent, time)], 0, window).admitted, time, time + window) == 1
  {
    assert [Call(agent, time)][..0] == [];
    CountAppend([], time, time, time + window);
    assert [] + [time] == [time];
  }

  /** The window bound is the limit itself exactly for positive limits. */
  lemma LimitRespectedIff(limit: nat, window: nat)
    requires window > 0
    ensures limit >= 1 <==>
      forall agent, calls, i :: Ordered(calls) && 0 <= i < |Replay(agent, calls, limit, window).openings| ==>
        var a := Replay(agent, calls, limit, window);
        Count(a.admitted, a.openings[i], a.openings[i] + window) <= limit
  {
    if limit >= 1 {
      forall agent, calls, i | Ordered(calls) && 0 <= i < |Replay(agent, calls, limit, window).openings|
        ensures var a := Replay(agent, calls, limit, window);
                Count(a.admitted, a.openings[i], a.openings[i] + window) <= limit
      {
        AdmissionsBounded(agent, calls, limit, window, 0);
      }
    } else {
      var calls := [Call("", 0)];
      ZeroLimitAdmits("", 0, window);
      assert calls[..0] == [];
      assert Replay("", calls, limit, window).openings == [0];
    }
  }

  /** A window is opened when there is none or the last one is over; a call is admitted when
      it opens one, or when fewer than `limit` of the current one have been. */
  lemma AdmittedIff(agent: AgentId, calls: seq<Call>, now: int, limit: nat, window: nat)
    requires window > 0 && Ordered(calls)
    ensures var a := Replay(agent, calls, limit, window);
            var next := Replay(agent, calls + [Call(agent, now)], limit, window);
            var opens := a.openings == [] || now >= a.openings[|a.openings| - 1] + window;
            && next.openings == a.openings + (if opens then [now] else [])
            && next.admitted == a.admitted +
                 (if opens || CountDuring(a.admitted, a.openings[|a.openings| - 1], window) < limit then [now] else [])
  {
    hide Replay, Count, Ordered, CountDuring, Step;
    ReplayOneMore(agent, calls, Call(agent, now), limit, window);
    CurrentWindow(agent, calls, limit, window);
    CurrentCount(agent, calls, limit, window);
    StepAdmits(Replay(agent, calls, limit, window), agent, now, limit, window);
  }

  lemma ReplayOneMore(agent: AgentId, calls: seq<Call>, c: Call, limit: nat, window: nat)
    ensures Replay(agent, calls + [c], limit, window)
         == Step(Replay(agent, calls, limit, window), agent, c, limit, window)
  {
    hide Step;
    assert (calls + [c])[..|calls|] == calls;
  }

  lemma StepAdmits(a: Account, agent: AgentId, now: int, limit: nat, window: nat)
    requires agent in a.entries <==> a.openings != []
    requires agent in a.entries ==> a.entries[agent].resetAt == a.openings[|a.openings| - 1] + window
    requires agent in a.entries ==>
      a.entries[agent].count == CountDuring(a.admitted, a.entries[agent].resetAt - window, window)
    ensures var next := Step(a, agent, Call(agent, now), limit, window);
            var opens := a.openings == [] || now >= a.openings[|a.openings| - 1] + window;
            && next.openings == a.openings + (if opens then [now] else [])
            && next.admitted == a.admitted +
                 (if opens || CountDuring(a.admitted, a.openings[|a.openings| - 1], window) < limit then [now] else [])
  {
    hide Checked, Count;
    assert a.openings + [] == a.openings && a.admitted + [] == a.admitted;
  }

  lemma CurrentCount(agent: AgentId, calls: seq<Call>, limit: nat, window: nat)
    requires window > 0 && Ordered(calls)
    ensures var a := Replay(agent, calls, limit, window);
            agent in a.entries ==>
              a.entries[agent].count == CountDuring(a.admitted, a.entries[agent].resetAt - window, window)
  {
    ReplayHolds(agent, calls, limit, window);
    hide Replay, Ordered, Count;
  }

  /** The entry of an agent is that of the window it opened last. */
  lemma {:induction false} CurrentWindow(agent: AgentId, calls: seq<Call>, limit: nat, window: nat)
    ensures var a := Replay(agent, calls, limit, window);
            && (agent in a.entries <==> a.openings != [])
            && (a.openings != [] ==> a.entries[agent].resetAt == a.openings[|a.openings| - 1] + window)
  {
    if calls != [] {
      CurrentWindow(agent, calls[..|calls| - 1], limit, window);
    }
  }

  /** Calls of others, and no call at all, admit nothing for the agent. */
  lemma OthersCallsAreNotCounted(agent: AgentId, calls: seq<Call>, c: Call, limit: nat, window: nat)
    requires c.agent != agent
    ensures Replay(agent, [], limit, window).admitted == Replay(agent, [], limit, window).openings == []
    ensures var a, next := Replay(agent, calls, limit, window), Replay(agent, calls + [c], limit, window);
            next.openings == a.openings && next.admitted == a.admitted
  {
    ReplayOneMore(agent, calls, c, limit, window);
  }
}
