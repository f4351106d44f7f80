/** Resource leases and task reservations:
    packages/cli/src/core/coordination/CoordinationEngine.ts.  Times are integers,
    generated identifiers are parameters, and a mission's stored snapshot is a value. */
module ResourceLeases {
  import opened Wrappers
  import opened JsonStrings
  import StableSerialize

  type MissionId = string
  type TaskId = string
  type AgentId = string
  type ResourceId = Text
  type HoldId = string

  datatype Mode = Read | Write

  datatype HoldStatus = Active | Released

  datatype Lease = Lease(
    id: HoldId, resourceId: ResourceId, taskId: TaskId, agentId: AgentId, mode: Mode,
    acquiredAt: int, expiresAt: int, status: HoldStatus)

  datatype Reservation = Reservation(
    id: HoldId, taskId: TaskId, agentId: AgentId, resourceIds: seq<ResourceId>, createdAt: int, status: HoldStatus)

  datatype Coordination = Coordination(version: nat, leases: seq<Lease>, reservations: seq<Reservation>)

  const UNTOUCHED := Coordination(0, [], [])

  datatype Error =
    | BadTtl
    | Invalid
    | LeaseConflict(id: HoldId)
    | ReservationConflict(id: HoldId)
    | LeaseNotFound
    | ReservationNotFound

  datatype Outcome = Granted(state: Coordination) | Denied(error: Error)

  // ----- leases

  /** An active lease holds until it expires. */
  predicate Live(l: Lease, now: int) {
    l.status.Active? && now < l.expiresAt
  }

  /** Whether a lease stands in the way of a request by a task. */
  predicate Blocks(l: Lease, task: TaskId, resource: ResourceId, mode: Mode, now: int) {
    Live(l, now) && l.resourceId == resource && l.taskId != task && (l.mode.Write? || mode.Write?)
  }

  function FirstBlocking(leases: seq<Lease>, task: TaskId, resource: ResourceId, mode: Mode,
                         now: int): (blocking: Option<Lease>)
    ensures blocking.Some? ==> blocking.value in leases && Blocks(blocking.value, task, resource, mode, now)
    ensures blocking.None? ==> forall l :: l in leases ==> !Blocks(l, task, resource, mode, now)
  {
    if leases == [] then None
    else if Blocks(leases[0], task, resource, mode, now) then Some(leases[0])
    else FirstBlocking(leases[1..], task, resource, mode, now)
  }

  /** A request as it would be recorded; an empty identifier does not pass the schema. */
  datatype LeaseRequest = LeaseRequest(taskId: TaskId, agentId: AgentId, resourceId: ResourceId, mode: Mode, ttl: int)

  predicate Recordable(q: LeaseRequest) {
    q.taskId != "" && q.agentId != "" && q.resourceId != []
  }

  function LeaseFor(q: LeaseRequest, now: int, id: HoldId): Lease {
    Lease(id, q.resourceId, q.taskId, q.agentId, q.mode, now, now + q.ttl, Active)
  }

  function Leased(c: Coordination, q: LeaseRequest, now: int, id: HoldId): Outcome {
    if q.ttl <= 0 then Denied(BadTtl)
    else
      var blocking := FirstBlocking(c.leases, q.taskId, q.resourceId, q.mode, now);
      if blocking.Some? then Denied(LeaseConflict(blocking.value.id))
      else if !Recordable(q) then Denied(Invalid)
      else Granted(c.(version := c.version + 1, leases := c.leases + [LeaseFor(q, now, id)]))
  }

  /** The position of the first hold with an identifier, or the length when there is none. */
  function FirstWith<H>(holds: seq<H>, idOf: H -> HoldId, id: HoldId): (i: nat)
    ensures i <= |holds|
    ensures i < |holds| ==> idOf(holds[i]) == id
    ensures forall j :: 0 <= j < i ==> idOf(holds[j]) != id
  {
    if holds == [] then 0 else if idOf(holds[0]) == id then 0 else 1 + FirstWith(holds[1..], idOf, id)
  }

  function LeaseIndex(leases: seq<Lease>, id: HoldId): nat {
    FirstWith(leases, (l: Lease) => l.id, id)
  }

  function LeaseReleased(c: Coordination, id: HoldId): Outcome {
    var i := LeaseIndex(c.leases, id);
    if i == |c.leases| then Denied(LeaseNotFound)
    else Granted(c.(version := c.version + 1, leases := c.leases[i := c.leases[i].(status := Released)]))
  }

  // ----- reservations

  predicate Overlap(a: seq<ResourceId>, b: seq<ResourceId>) {
    exists r :: r in a && r in b
  }

  predicate Occupies(r: Reservation, task: TaskId, resources: seq<ResourceId>) {
    r.status.Active? && Overlap(r.resourceIds, resources) && r.taskId != task
  }

  function FirstOccupying(rs: seq<Reservation>, task: TaskId,
                          resources: seq<ResourceId>): (occupying: Option<Reservation>)
    ensures occupying.Some? ==> occupying.value in rs && Occupies(occupying.value, task, resources)
    ensures occupying.None? ==> forall r :: r in rs ==> !Occupies(r, task, resources)
  {
    if rs == [] then None
    else if Occupies(rs[0], task, resources) then Some(rs[0])
    else FirstOccupying(rs[1..], task, resources)
  }

  function InsertSorted(r: ResourceId, s: seq<ResourceId>): seq<ResourceId> {
    if s == [] then [r]
    else if StableSerialize.KeyLess(s[0], r) then [s[0]] + InsertSorted(r, s[1..])
    else if s[0] == r then s
    else [r] + s
  }

  /** Sorted by code units, without duplicates. */
  function Canonical(resources: seq<ResourceId>): seq<ResourceId> {
    if resources == [] then [] else InsertSorted(resources[0], Canonical(resources[1..]))
  }

  function Reserved(c: Coordination, task: TaskId, agent: AgentId, resources: seq<ResourceId>, now: int,
                    id: HoldId): Outcome
  {
    var occupying := FirstOccupying(c.reservations, task, resources);
    if occupying.Some? then Denied(ReservationConflict(occupying.value.id))
    else if task == "" || agent == "" then Denied(Invalid)
    else Granted(c.(version := c.version + 1,
                    reservations := c.reservations + [Reservation(id, task, agent, Canonical(resources), now, Active)]))
  }

  function ReservationIndex(rs: seq<Reservation>, id: HoldId): nat {
    FirstWith(rs, (r: Reservation) => r.id, id)
  }

  function ReservationReleased(c: Coordination, id: HoldId): Outcome {
    var i := ReservationIndex(c.reservations, id);
    if i == |c.reservations| then Denied(ReservationNotFound)
    else
      var reservations := c.reservations[i := c.reservations[i].(status := Released)];
      Granted(c.(version := c.version + 1, reservations := reservations))
  }

  // ----- single requests

  /** A lease is granted exactly when every live lease of another task on the resource is
      a read lease and the request is for reading, or there is no such lease. */
  lemma LeaseGrantedIff(c: Coordination, q: LeaseRequest, now: int, id: HoldId)
    requires q.ttl > 0 && Recordable(q)
    ensures Leased(c, q, now, id).Granted? <==>
      forall l :: l in c.leases && Live(l, now) && l.resourceId == q.resourceId && l.taskId != q.taskId ==>
        l.mode == Read && q.mode == Read
  {
    var blocking := FirstBlocking(c.leases, q.taskId, q.resourceId, q.mode, now);
    if blocking.None? {
      forall l | l in c.leases && Live(l, now) && l.resourceId == q.resourceId && l.taskId != q.taskId
        ensures l.mode == Read && q.mode == Read
      {
        assert !Blocks(l, q.taskId, q.resourceId, q.mode, now);
      }
    }
  }

  lemma {:induction false} CanonicalElements(resources: seq<ResourceId>, r: ResourceId)
    ensures r in Canonical(resources) <==> r in resources
  {
    if resources != [] {
      CanonicalElements(resources[1..], r);
      InsertElements(resources[0], Canonical(resources[1..]), r);
    }
  }

  lemma {:induction false} InsertElements(x: ResourceId, s: seq<ResourceId>, r: ResourceId)
    ensures r in InsertSorted(x, s) <==> r == x || r in s
  {
    if s != [] && StableSerialize.KeyLess(s[0], x) {
      InsertElements(x, s[1..], r);
    }
  }

  ghost predicate Ascending(s: seq<ResourceId>) {
    forall i, j :: 0 <= i < j < |s| ==> StableSerialize.KeyLess(s[i], s[j])
  }

  lemma {:induction false} InsertAscends(x: ResourceId, s: seq<ResourceId>)
    requires Ascending(s)
    ensures Ascending(InsertSorted(x, s))
  {
    if s != [] {
      StableSerialize.KeyLessTotal(s[0], x);
      if StableSerialize.KeyLess(s[0], x) {
        var rest := InsertSorted(x, s[1..]);
        InsertAscends(x, s[1..]);
        forall j | 0 <= j < |rest| ensures StableSerialize.KeyLess(s[0], rest[j]) {
          InsertElements(x, s[1..], rest[j]);
        }
      } else if s[0] != x {
        forall j | 0 < j < |s| ensures StableSerialize.KeyLess(x, s[j]) {
          StableSerialize.KeyLessTransitive(x, s[0], s[j]);
        }
      }
    }
  }

  /** What a reservation lists: the requested resources, each once, in ascending order. */
  lemma {:induction false} CanonicalAscends(resources: seq<ResourceId>)
    ensures Ascending(Canonical(resources))
    ensures forall r :: r in Canonical(resources) <==> r in resources
  {
    forall r ensures r in Canonical(resources) <==> r in resources {
      CanonicalElements(resources, r);
    }
    if resources != [] {
      CanonicalAscends(resources[1..]);
      InsertAscends(resources[0], Canonical(resources[1..]));
    }
  }

  // ----- what requests and releases amount to, without the functions that model them

  /** A granted lease is appended, from now on for the time asked for; nothing else changes. */
  ghost predicate LeaseAdded(c: Coordination, c': Coordination, q: LeaseRequest, now: int, id: HoldId) {
    && c'.leases ==
         c.leases + [Lease(id, q.resourceId, q.taskId, q.agentId, q.mode, now, now + q.ttl, Active)]
    && c'.reservations == c.reservations && c'.version == c.version + 1
  }

  /** Other tasks hold the resource only for reading, and reading is all that is wanted. */
  ghost predicate LeaseFree(c: Coordination, q: LeaseRequest, now: int) {
    forall l ::
      l in c.leases && l.status == Active && l.expiresAt > now && l.resourceId == q.resourceId && l.taskId != q.taskId
      ==> l.mode == Read && q.mode == Read
  }

  /** An appended reservation lists the wanted resources, each once and in ascending order. */
  ghost predicate ReservationAdded(c: Coordination, c': Coordination, task: TaskId, agent: AgentId,
                                   resources: seq<ResourceId>, now: int, id: HoldId)
  {
    && (exists listed :: Ascending(listed) && (forall r :: r in listed <==> r in resources)
          && c'.reservations == c.reservations + [Reservation(id, task, agent, listed, now, Active)])
    && c'.leases == c.leases && c'.version == c.version + 1
  }

  ghost predicate ResourcesFree(c: Coordination, task: TaskId, resources: seq<ResourceId>) {
    forall r, x :: r in c.reservations && r.status == Active && r.taskId != task && x in r.resourceIds ==>
      x !in resources
  }

  /** The first lease with the identifier is released and otherwise as before. */
  ghost predicate LeaseGivenBack(c: Coordination, c': Coordination, id: HoldId) {
    && c'.reservations == c.reservations && c'.version == c.version + 1 && |c'.leases| == |c.leases|
    && exists i :: 0 <= i < |c.leases| && c.leases[i].id == id && (forall j :: 0 <= j < i ==> c.leases[j].id != id)
         && c'.leases[i] == c.leases[i].(status := Released)
         && forall j :: 0 <= j < |c.leases| && j != i ==> c'.leases[j] == c.leases[j]
  }

  ghost predicate ReservationGivenBack(c: Coordination, c': Coordination, id: HoldId) {
    && c'.leases == c.leases && c'.version == c.version + 1 && |c'.reservations| == |c.reservations|
    && exists i :: 0 <= i < |c.reservations| && c.reservations[i].id == id
         && (forall j :: 0 <= j < i ==> c.reservations[j].id != id)
         && c'.reservations[i] == c.reservations[i].(status := Released)
         && forall j :: 0 <= j < |c.reservations| && j != i ==> c'.reservations[j] == c.reservations[j]
  }

  lemma LeasedSays(c: Coordination, q: LeaseRequest, now: int, id: HoldId)
    ensures Leased(c, q, now, id).Granted? <==> q.ttl > 0 && Recordable(q) && LeaseFree(c, q, now)
    ensures Leased(c, q, now, id).Granted? ==> LeaseAdded(c, Leased(c, q, now, id).state, q, now, id)
  {
    if q.ttl > 0 && Recordable(q) {
      LeaseGrantedIff(c, q, now, id);
    } else if q.ttl > 0 && FirstBlocking(c.leases, q.taskId, q.resourceId, q.mode, now).Some? {
    }
    hide FirstBlocking;
  }

  lemma ReservedSays(c: Coordination, task: TaskId, agent: AgentId, resources: seq<ResourceId>, now: int, id: HoldId)
    ensures var out := Reserved(c, task, agent, resources, now, id);
            && (out.Granted? <==> task != "" && agent != "" && ResourcesFree(c, task, resources))
            && (out.Granted? ==> ReservationAdded(c, out.state, task, agent, resources, now, id))
  {
    CanonicalAscends(resources);
    hide Canonical, Ascending, FirstOccupying;
    var occupying := FirstOccupying(c.reservations, task, resources);
    if occupying.Some? {
      var x :| x in occupying.value.resourceIds && x in resources;
      assert !ResourcesFree(c, task, resources);
    } else {
      forall r, x | r in c.reservations && r.status.Active? && r.taskId != task && x in r.resourceIds
        ensures x !in resources
      {
        assert !Occupies(r, task, resources);
      }
    }
  }

  lemma LeaseReleasedSays(c: Coordination, id: HoldId)
    ensures LeaseReleased(c, id).Granted? <==> exists l :: l in c.leases && l.id == id
    ensures LeaseReleased(c, id).Granted? ==> LeaseGivenBack(c, LeaseReleased(c, id).state, id)
  {
    var i := LeaseIndex(c.leases, id);
    if i < |c.leases| {
      assert c.leases[i] in c.leases;
      assert forall j :: 0 <= j < i ==> c.leases[j].id != id;
    }
    hide FirstWith;
  }

  lemma ReservationReleasedSays(c: Coordination, id: HoldId)
    ensures ReservationReleased(c, id).Granted? <==> exists r :: r in c.reservations && r.id == id
    ensures ReservationReleased(c, id).Granted? ==> ReservationGivenBack(c, ReservationReleased(c, id).state, id)
  {
    var i := ReservationIndex(c.reservations, id);
    if i < |c.reservations| {
      assert c.reservations[i] in c.reservations;
      assert forall j :: 0 <= j < i ==> c.reservations[j].id != id;
    }
    hide FirstWith;
  }

  ghost predicate InTheWay(l: Lease, q: LeaseRequest, now: int) {
    && l.status == Active && l.expiresAt > now && l.resourceId == q.resourceId && l.taskId != q.taskId
    && (l.mode == Write || q.mode == Write)
  }

  /** The first lease with the identifier is all that stands in the way of a request. */
  ghost predicate BlockedOnlyBy(c: Coordination, id: HoldId, q: LeaseRequest, now: int) {
    forall j :: 0 <= j < |c.leases| && InTheWay(c.leases[j], q, now) ==>
      c.leases[j].id == id && forall k :: 0 <= k < j ==> c.leases[k].id != id
  }

  /** Releasing it lets the request through. */
  lemma ReleaseLetsThrough(c: Coordination, c': Coordination, id: HoldId, q: LeaseRequest, now: int, other: HoldId)
    requires LeaseGivenBack(c, c', id) && BlockedOnlyBy(c, id, q, now) && q.ttl > 0 && Recordable(q)
    ensures Leased(c', q, now, other).Granted?
  {
    LeasedSays(c', q, now, other);
    hide Leased;
    forall l | l in c'.leases && l.status.Active? && l.expiresAt > now && l.resourceId == q.resourceId
      && l.taskId != q.taskId
      ensures l.mode == Read && q.mode == Read
    {
      var j :| 0 <= j < |c'.leases| && c'.leases[j] == l;
      assert c'.leases[j] == c.leases[j];
    }
  }

  ghost predicate Claims(r: Reservation, task: TaskId, resources: seq<ResourceId>) {
    r.status == Active && r.taskId != task && exists x :: x in r.resourceIds && x in resources
  }

  /** The first reservation with the identifier is all that stands in the way. */
  ghost predicate OccupiedOnlyBy(c: Coordination, id: HoldId, task: TaskId, resources: seq<ResourceId>) {
    forall j :: 0 <= j < |c.reservations| && Claims(c.reservations[j], task, resources) ==>
      c.reservations[j].id == id && forall k :: 0 <= k < j ==> c.reservations[k].id != id
  }

  lemma ReleaseMakesRoom(c: Coordination, c': Coordination, id: HoldId, task: TaskId, agent: AgentId,
                         resources: seq<ResourceId>, now: int, other: HoldId)
    requires ReservationGivenBack(c, c', id) && OccupiedOnlyBy(c, id, task, resources) && task != "" && agent != ""
    ensures Reserved(c', task, agent, resources, now, other).Granted?
  {
    ReservedSays(c', task, agent, resources, now, other);
    hide Reserved;
    forall r, x | r in c'.reservations && r.status.Active? && r.taskId != task && x in r.resourceIds
      ensures x !in resources
    {
      var j :| 0 <= j < |c'.reservations| && c'.reservations[j] == r;
      assert c'.reservations[j] == c.reservations[j];
    }
  }

  // ----- exclusion

  /** Two live leases of different tasks on one resource are both for reading. */
  ghost predicate Exclusive(leases: seq<Lease>, now: int) {
    forall i, j :: 0 <= i < j < |leases| && Live(leases[i], now) && Live(leases[j], now)
      && leases[i].resourceId == leases[j].resourceId && leases[i].taskId != leases[j].taskId
      ==> leases[i].mode == Read && leases[j].mode == Read
  }

  /** Active reservations of different tasks share no resource. */
  ghost predicate Apart(rs: seq<Reservation>) {
    forall i, j :: 0 <= i < j < |rs| && rs[i].status.Active? && rs[j].status.Active? && rs[i].taskId != rs[j].taskId
      ==> !Overlap(rs[i].resourceIds, rs[j].resourceIds)
  }

  ghost predicate Safe(c: Coordination, now: int) {
    Exclusive(c.leases, now) && Apart(c.reservations)
  }

  // ----- runs

  datatype Op =
    | LeaseOp(request: LeaseRequest, id: HoldId)
    | ReleaseLeaseOp(id: HoldId)
    | ReserveOp(taskId: TaskId, agentId: AgentId, resources: seq<ResourceId>, id: HoldId)
    | ReleaseReservationOp(id: HoldId)

  datatype TimedOp = TimedOp(op: Op, now: int)

  function Attempt(c: Coordination, t: TimedOp): Outcome {
    match t.op
    case LeaseOp(q, id) => Leased(c, q, t.now, id)
    case ReleaseLeaseOp(id) => LeaseReleased(c, id)
    case ReserveOp(task, agent, resources, id) => Reserved(c, task, agent, resources, t.now, id)
    case ReleaseReservationOp(id) => ReservationReleased(c, id)
  }

  /** A denied request changes nothing. */
  function Stepped(c: Coordination, t: TimedOp): Coordination {
    var out := Attempt(c, t);
    if out.Granted? then out.state else c
  }

  function After(c: Coordination, ops: seq<TimedOp>): Coordination {
    if ops == [] then c else Stepped(After(c, ops[..|ops| - 1]), ops[|ops| - 1])
  }

  /** Time never goes back. */
  ghost predicate Timely(ops: seq<TimedOp>) {
    forall i, j :: 0 <= i < j < |ops| ==> ops[i].now <= ops[j].now
  }

  // ----- what the clock's readings decide

  function ReadingsOf(ops: seq<TimedOp>): seq<int> {
    seq(|ops|, k requires 0 <= k < |ops| => ops[k].now)
  }

  /** No reading that is ahead of an earlier one is also ahead of `now`. */
  predicate NeverAhead(readings: seq<int>, now: int) {
    forall i, j :: 0 <= i < j < |readings| && readings[i] < readings[j] ==> readings[j] <= now
  }

  /** Two active leases that exclude each other. */
  predicate Clash(a: Lease, b: Lease) {
    && a.status.Active? && b.status.Active? && a.resourceId == b.resourceId && a.taskId != b.taskId
    && (a.mode.Write? || b.mode.Write?)
  }

  /** Of two leases that exclude each other the first had expired by the time the second
      was acquired, and that was not after `now`. */
  ghost predicate InTurn(leases: seq<Lease>, now: int) {
    forall i, j :: 0 <= i < j < |leases| && Clash(leases[i], leases[j]) ==>
      leases[i].expiresAt <= leases[j].acquiredAt <= now
  }

  ghost predicate AcquiredAt(leases: seq<Lease>, readings: seq<int>) {
    forall l :: l in leases ==> l.acquiredAt in readings && l.acquiredAt < l.expiresAt
  }

  lemma InTurnIsExclusive(leases: seq<Lease>, now: int)
    requires InTurn(leases, now)
    ensures Exclusive(leases, now)
  {
    forall i, j | 0 <= i < j < |leases| && Live(leases[i], now) && Live(leases[j], now)
      && leases[i].resourceId == leases[j].resourceId && leases[i].taskId != leases[j].taskId
      ensures leases[i].mode == Read && leases[j].mode == Read
    {
      assert !Clash(leases[i], leases[j]);
    }
  }

  lemma NewLeaseInTurn(c: Coordination, q: LeaseRequest, t: int, id: HoldId, earlier: seq<int>, now: int)
    requires InTurn(c.leases, now) && AcquiredAt(c.leases, earlier) && Leased(c, q, t, id).Granted?
    requires NeverAhead(earlier + [t], now)
    ensures var leases := Leased(c, q, t, id).state.leases; InTurn(leases, now) && AcquiredAt(leases, earlier + [t])
  {
    var leases, readings := c.leases + [LeaseFor(q, t, id)], earlier + [t];
    assert t in readings && forall r :: r in earlier ==> r in readings;
    forall i | 0 <= i < |c.leases| && Clash(leases[i], leases[|c.leases|])
      ensures leases[i].expiresAt <= t <= now
    {
      assert !Blocks(c.leases[i], q.taskId, q.resourceId, q.mode, t);
      assert c.leases[i] in c.leases;
      var k :| 0 <= k < |earlier| && earlier[k] == c.leases[i].acquiredAt;
      assert readings[k] < readings[|earlier|];
    }
  }

  lemma ReleaseInTurn(c: Coordination, id: HoldId, readings: seq<int>, now: int)
    requires InTurn(c.leases, now) && AcquiredAt(c.leases, readings) && LeaseReleased(c, id).Granted?
    ensures var leases := LeaseReleased(c, id).state.leases; InTurn(leases, now) && AcquiredAt(leases, readings)
  {
    var k := LeaseIndex(c.leases, id);
    assert c.leases[k] in c.leases;
    hide LeaseIndex;
  }

  lemma ReservedStaysApart(c: Coordination, task: TaskId, agent: AgentId, resources: seq<ResourceId>, now: int,
                           id: HoldId)
    requires Apart(c.reservations) && Reserved(c, task, agent, resources, now, id).Granted?
    ensures Apart(Reserved(c, task, agent, resources, now, id).state.reservations)
  {
    CanonicalAscends(resources);
    hide Canonical;
    var rs := Reserved(c, task, agent, resources, now, id).state.reservations;
    forall i | 0 <= i < |c.reservations| && rs[i].status.Active? && rs[i].taskId != task
      ensures !Overlap(rs[i].resourceIds, Canonical(resources))
    {
      assert !Occupies(c.reservations[i], task, resources);
    }
  }

  lemma ApartStays(c: Coordination, t: TimedOp)
    requires Apart(c.reservations)
    ensures Apart(Stepped(c, t).reservations)
  {
    hide FirstBlocking, FirstOccupying, Canonical;
    if Attempt(c, t).Granted? && t.op.ReserveOp? {
      ReservedStaysApart(c, t.op.taskId, t.op.agentId, t.op.resources, t.now, t.op.id);
    }
  }

  lemma {:induction false} ReadingsKeepTurn(ops: seq<TimedOp>, now: int)
    requires NeverAhead(ReadingsOf(ops), now)
    ensures InTurn(After(UNTOUCHED, ops).leases, now) && AcquiredAt(After(UNTOUCHED, ops).leases, ReadingsOf(ops))
    ensures Apart(After(UNTOUCHED, ops).reservations)
    decreases |ops|
  {
    if ops != [] {
      var n := |ops| - 1;
      var c, earlier := After(UNTOUCHED, ops[..n]), ReadingsOf(ops[..n]);
      assert ReadingsOf(ops) == earlier + [ops[n].now];
      assert earlier == ReadingsOf(ops)[..n];
      ReadingsKeepTurn(ops[..n], now);
      ApartStays(c, ops[n]);
      StepKeepsTurn(c, ops[n], earlier, now);
    }
  }

  lemma StepKeepsTurn(c: Coordination, t: TimedOp, earlier: seq<int>, now: int)
    requires InTurn(c.leases, now) && AcquiredAt(c.leases, earlier) && NeverAhead(earlier + [t.now], now)
    ensures InTurn(Stepped(c, t).leases, now) && AcquiredAt(Stepped(c, t).leases, earlier + [t.now])
  {
    assert AcquiredAt(c.leases, earlier + [t.now]);
    hide InTurn, AcquiredAt, NeverAhead;
    if Attempt(c, t).Granted? {
      match t.op
      case LeaseOp(q, id) => NewLeaseInTurn(c, q, t.now, id, earlier, now);
      case ReleaseLeaseOp(id) => ReleaseInTurn(c, id, earlier + [t.now], now);
      case ReserveOp(_, _, _, _) =>
      case ReleaseReservationOp(_) =>
    }
  }

  /** Requests at these readings of which two, at i and j, are for the same resource; the
      first lease expires exactly when the second is asked for. */
  function Rivals(readings: seq<int>, i: nat, j: nat): seq<TimedOp>
    requires i < j < |readings|
  {
    seq(|readings|, k requires 0 <= k < |readings| => TimedOp(RivalOp(readings, i, j, k), readings[k]))
  }

  function RivalOp(readings: seq<int>, i: nat, j: nat, k: nat): Op
    requires i < j < |readings|
  {
    if k == i then LeaseOp(LeaseRequest("a", "x", [114], Write, readings[j] - readings[i]), "1")
    else if k == j then LeaseOp(LeaseRequest("b", "y", [114], Write, 1), "2")
    else ReleaseReservationOp("")
  }

  /** The leases after the first k of those requests. */
  function RivalLeases(readings: seq<int>, i: nat, j: nat, k: nat): seq<Lease>
    requires i < j < |readings|
  {
    (if k > i then [Lease("1", [114], "a", "x", Write, readings[i], readings[j], Active)] else [])
    + if k > j then [Lease("2", [114], "b", "y", Write, readings[j], readings[j] + 1, Active)] else []
  }

  lemma RivalStep(readings: seq<int>, i: nat, j: nat, k: nat, c: Coordination)
    requires i < j < |readings| && readings[i] < readings[j] && k < |readings|
    requires c.leases == RivalLeases(readings, i, j, k) && c.reservations == []
    ensures var next := Stepped(c, TimedOp(RivalOp(readings, i, j, k), readings[k]));
            next.leases == RivalLeases(readings, i, j, k + 1) && next.reservations == []
  {
    if k == i {
      assert FirstBlocking([], "a", [114], Write, readings[i]) == None;
    } else if k == j {
      assert c.leases[1..] == [];
      assert FirstBlocking(c.leases, "b", [114], Write, readings[j]) == None;
    }
  }

  lemma {:induction false} RivalsGetBoth(readings: seq<int>, i: nat, j: nat, k: nat)
    requires i < j < |readings| && readings[i] < readings[j] && k <= |readings|
    ensures var c := After(UNTOUCHED, Rivals(readings, i, j)[..k]);
            c.leases == RivalLeases(readings, i, j, k) && c.reservations == []
  {
    var ops := Rivals(readings, i, j);
    if k > 0 {
      RivalsGetBoth(readings, i, j, k - 1);
      assert ops[..k][..k - 1] == ops[..k - 1];
      hide Stepped, RivalLeases, RivalOp;
      RivalStep(readings, i, j, k - 1, After(UNTOUCHED, ops[..k - 1]));
    }
  }

  lemma RivalsAreUnsafe(readings: seq<int>, i: nat, j: nat, now: int)
    requires i < j < |readings| && readings[i] < readings[j] && now < readings[j]
    ensures ReadingsOf(Rivals(readings, i, j)) == readings
    ensures !Safe(After(UNTOUCHED, Rivals(readings, i, j)), now)
  {
    var ops := Rivals(readings, i, j);
    assert ops[..|readings|] == ops;
    RivalsGetBoth(readings, i, j, |readings|);
    var leases := After(UNTOUCHED, ops).leases;
    assert Live(leases[0], now) && Live(leases[1], now);
  }

  /** The exact condition on the clock: whatever is requested at these readings, the state
      is safe at `now`, if and only if no reading that is ahead of an earlier one is ahead
      of `now`. */
  lemma SafeReadingsIff(readings: seq<int>, now: int)
    ensures (forall ops :: ReadingsOf(ops) == readings ==> Safe(After(UNTOUCHED, ops), now))
      <==> NeverAhead(readings, now)
  {
    hide Safe;
    if NeverAhead(readings, now) {
      forall ops | ReadingsOf(ops) == readings ensures Safe(After(UNTOUCHED, ops), now) {
        ReadingsAreSafe(ops, now);
      }
    } else {
      var i, j :| 0 <= i < j < |readings| && readings[i] < readings[j] && now < readings[j];
      RivalsAreUnsafe(readings, i, j, now);
    }
  }

  lemma ReadingsAreSafe(ops: seq<TimedOp>, now: int)
    requires NeverAhead(ReadingsOf(ops), now)
    ensures Safe(After(UNTOUCHED, ops), now)
  {
    ReadingsKeepTurn(ops, now);
    InTurnIsExclusive(After(UNTOUCHED, ops).leases, now);
  }

  /** With a clock that never goes back, through any mix of requests and releases, from
      the last of them on. */
  lemma {:induction false} RunsAreSafe(ops: seq<TimedOp>, now: int)
    requires Timely(ops) && forall i :: 0 <= i < |ops| ==> ops[i].now <= now
    ensures Safe(After(UNTOUCHED, ops), now)
  {
    ReadingsAreSafe(ops, now);
  }

  /** Otherwise an expired lease can come alive again beside a newer one: at 105, after readings
      of 100 and 110, two tasks can both hold a write lease. */
  lemma ClockGoingBack()
    ensures exists ops :: ReadingsOf(ops) == [100, 110] && !Safe(After(UNTOUCHED, ops), 105)
  {
    RivalsAreUnsafe([100, 110], 0, 1, 105);
  }

  // ----- what a grant is worth

  /** A recorded lease stays as it is until it is released by its identifier. */
  lemma {:induction false} LeaseStays(c: Coordination, ops: seq<TimedOp>, i: nat)
    requires i < |c.leases|
    requires forall k :: 0 <= k < |ops| ==> ops[k].op != ReleaseLeaseOp(c.leases[i].id)
    ensures i < |After(c, ops).leases| && After(c, ops).leases[i] == c.leases[i]
    decreases |ops|
  {
    if ops != [] {
      LeaseStays(c, ops[..|ops| - 1], i);
      hide FirstBlocking, FirstOccupying, Canonical;
    }
  }

  /** A granted lease protects its holder: until it expires or is released, whatever else
      happens, no other task gets an incompatible lease on the resource. */
  lemma {:induction false} GrantProtects(c: Coordination, q: LeaseRequest, now: int, id: HoldId, ops: seq<TimedOp>,
                                         rival: LeaseRequest, later: int, other: HoldId)
    requires Leased(c, q, now, id).Granted? && later < now + q.ttl
    requires forall k :: 0 <= k < |ops| ==> ops[k].op != ReleaseLeaseOp(id)
    requires rival.resourceId == q.resourceId && rival.taskId != q.taskId && (q.mode == Write || rival.mode == Write)
    ensures Leased(After(Leased(c, q, now, id).state, ops), rival, later, other).Denied?
  {
    var granted := Leased(c, q, now, id).state;
    LeaseStays(granted, ops, |c.leases|);
    var end := After(granted, ops);
    assert Blocks(end.leases[|c.leases|], rival.taskId, rival.resourceId, rival.mode, later);
  }

  lemma {:induction false} ReservationStays(c: Coordination, ops: seq<TimedOp>, i: nat)
    requires i < |c.reservations|
    requires forall k :: 0 <= k < |ops| ==> ops[k].op != ReleaseReservationOp(c.reservations[i].id)
    ensures i < |After(c, ops).reservations| && After(c, ops).reservations[i] == c.reservations[i]
    decreases |ops|
  {
    if ops != [] {
      ReservationStays(c, ops[..|ops| - 1], i);
      hide FirstBlocking, FirstOccupying, Canonical;
    }
  }

  /** A reservation never expires: it keeps other tasks out until it is released. */
  lemma {:induction false} ReservationProtects(c: Coordination, task: TaskId, agent: AgentId,
                                               resources: seq<ResourceId>, now: int, id: HoldId, ops: seq<TimedOp>,
                                               rival: TaskId, rivalAgent: AgentId, wanted: seq<ResourceId>,
                                               later: int, other: HoldId)
    requires Reserved(c, task, agent, resources, now, id).Granted?
    requires forall k :: 0 <= k < |ops| ==> ops[k].op != ReleaseReservationOp(id)
    requires rival != task && Overlap(resources, wanted)
    ensures Reserved(After(Reserved(c, task, agent, resources, now, id).state, ops), rival, rivalAgent, wanted,
      later, other).Denied?
  {
    var granted := Reserved(c, task, agent, resources, now, id).state;
    ReservationStays(granted, ops, |c.reservations|);
    var end := After(granted, ops);
    var r :| r in resources && r in wanted;
    CanonicalElements(resources, r);
    assert Occupies(end.reservations[|c.reservations|], rival, wanted);
  }

  /** The version counts the requests that changed something. */
  lemma {:induction false} VersionCounts(c: Coordination, ops: seq<TimedOp>)
    ensures c.version <= After(c, ops).version <= c.version + |ops|
    ensures After(c, ops).version == c.version ==> After(c, ops) == c
    decreases |ops|
  {
    if ops != [] {
      VersionCounts(c, ops[..|ops| - 1]);
      hide FirstBlocking, FirstOccupying, Canonical, LeaseIndex, ReservationIndex;
    }
  }

  // ----- the engine

  type Snapshots = map<MissionId, Coordination>

  /** Reading a mission's snapshot creates it; an empty mission identifier cannot be saved. */
  function Opened(snapshots: Snapshots, mission: MissionId): Snapshots {
    if mission in snapshots || mission == "" then snapshots else snapshots[mission := UNTOUCHED]
  }

  /** What an operation on one mission makes of the stored snapshots. */
  ghost predicate Saved(before: Snapshots, after: Snapshots, mission: MissionId, out: Outcome, attempt: Outcome) {
    if mission == "" && mission !in before then out == Denied(Invalid) && after == before
    else
      && out == attempt
      && after == if out.Granted? then before[mission := out.state] else Opened(before, mission)
  }

  ghost function Current(snapshots: Snapshots, mission: MissionId): Coordination {
    if mission in snapshots then snapshots[mission] else UNTOUCHED
  }

  class CoordinationEngine {
    var snapshots: Snapshots

    constructor ()
      ensures snapshots == map[]
    {
      snapshots := map[];
    }

    method Snapshot(mission: MissionId) returns (c: Option<Coordination>)
      modifies this
      ensures snapshots == Opened(old(snapshots), mission)
      ensures snapshots == if mission in old(snapshots) || mission == "" then old(snapshots)
                           else old(snapshots)[mission := Coordination(0, [], [])]
      ensures c == if mission in snapshots then Some(snapshots[mission]) else None
    {
      if mission in snapshots {
        return Some(snapshots[mission]);
      }
      if mission == "" {
        return None;
      }
      snapshots := snapshots[mission := UNTOUCHED];
      c := Some(UNTOUCHED);
    }

    method LeaseResource(mission: MissionId, q: LeaseRequest, now: int, id: HoldId) returns (out: Outcome)
      modifies this
      ensures q.ttl <= 0 ==> out == Denied(BadTtl) && snapshots == old(snapshots)
      ensures q.ttl > 0 ==>
        Saved(old(snapshots), snapshots, mission, out, Leased(Current(old(snapshots), mission), q, now, id))
      ensures mission != "" ==>
        (out.Granted? <==> q.ttl > 0 && Recordable(q) && LeaseFree(Current(old(snapshots), mission), q, now))
      ensures out.Granted? ==>
        && mission in snapshots && snapshots == old(snapshots)[mission := snapshots[mission]]
        && LeaseAdded(Current(old(snapshots), mission), snapshots[mission], q, now, id)
    {
      LeasedSays(Current(snapshots, mission), q, now, id);
      hide FirstBlocking, LeaseFree, LeaseAdded;
      if q.ttl <= 0 {
        return Denied(BadTtl);
      }
      var found := Snapshot(mission);
      if found.None? {
        return Denied(Invalid);
      }
      var c := found.value;
      var incompatible := FirstBlocking(c.leases, q.taskId, q.resourceId, q.mode, now);
      if incompatible.Some? {
        return Denied(LeaseConflict(incompatible.value.id));
      }
      if !Recordable(q) {
        return Denied(Invalid);
      }
      c := c.(leases := c.leases + [LeaseFor(q, now, id)]);
      c := c.(version := c.version + 1);
      snapshots := snapshots[mission := c];
      out := Granted(c);
    }

    method ReleaseResourceLease(mission: MissionId, id: HoldId) returns (out: Outcome)
      modifies this
      ensures Saved(old(snapshots), snapshots, mission, out, LeaseReleased(Current(old(snapshots), mission), id))
      ensures mission != "" ==>
        (out.Granted? <==> exists l :: l in Current(old(snapshots), mission).leases && l.id == id)
      ensures out.Granted? ==>
        && mission in snapshots && snapshots == old(snapshots)[mission := snapshots[mission]]
        && LeaseGivenBack(Current(old(snapshots), mission), snapshots[mission], id)
    {
      LeaseReleasedSays(Current(snapshots, mission), id);
      hide FirstWith, LeaseGivenBack;
      var found := Snapshot(mission);
      if found.None? {
        return Denied(Invalid);
      }
      var c := found.value;
      var i := LeaseIndex(c.leases, id);
      if i == |c.leases| {
        return Denied(LeaseNotFound);
      }
      c := c.(leases := c.leases[i := c.leases[i].(status := Released)]);
      c := c.(version := c.version + 1);
      snapshots := snapshots[mission := c];
      out := Granted(c);
    }

    method ReserveTaskResources(mission: MissionId, task: TaskId, agent: AgentId, resources: seq<ResourceId>,
                                now: int, id: HoldId)
      returns (out: Outcome)
      modifies this
      ensures Saved(old(snapshots), snapshots, mission, out,
        Reserved(Current(old(snapshots), mission), task, agent, resources, now, id))
      ensures mission != "" ==>
        (out.Granted? <==>
          task != "" && agent != "" && ResourcesFree(Current(old(snapshots), mission), task, resources))
      ensures out.Granted? ==>
        && mission in snapshots && snapshots == old(snapshots)[mission := snapshots[mission]]
        && ReservationAdded(Current(old(snapshots), mission), snapshots[mission], task, agent, resources, now, id)
    {
      ReservedSays(Current(snapshots, mission), task, agent, resources, now, id);
      hide FirstOccupying, Canonical, ResourcesFree, ReservationAdded;
      var found := Snapshot(mission);
      if found.None? {
        return Denied(Invalid);
      }
      var c := found.value;
      var conflicting := FirstOccupying(c.reservations, task, resources);
      if conflicting.Some? {
        return Denied(ReservationConflict(conflicting.value.id));
      }
      if task == "" || agent == "" {
        return Denied(Invalid);
      }
      c := c.(reservations := c.reservations + [Reservation(id, task, agent, Canonical(resources), now, Active)]);
      c := c.(version := c.version + 1);
      snapshots := snapshots[mission := c];
      out := Granted(c);
    }

    method ReleaseReservation(mission: MissionId, id: HoldId) returns (out: Outcome)
      modifies this
      ensures Saved(old(snapshots), snapshots, mission, out, ReservationReleased(Current(old(snapshots), mission), id))
      ensures mission != "" ==>
        (out.Granted? <==> exists r :: r in Current(old(snapshots), mission).reservations && r.id == id)
      ensures out.Granted? ==>
        && mission in snapshots && snapshots == old(snapshots)[mission := snapshots[mission]]
        && ReservationGivenBack(Current(old(snapshots), mission), snapshots[mission], id)
    {
      ReservationReleasedSays(Current(snapshots, mission), id);
      hide FirstWith, ReservationGivenBack;
      var found := Snapshot(mission);
      if found.None? {
        return Denied(Invalid);
      }
      var c := found.value;
      var i := ReservationIndex(c.reservations, id);
      if i == |c.reservations| {
        return Denied(ReservationNotFound);
      }
      c := c.(reservations := c.reservations[i := c.reservations[i].(status := Released)]);
      c := c.(version := c.version + 1);
      snapshots := snapshots[mission := c];
      out := Granted(c);
    }
  }
}
