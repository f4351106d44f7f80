/** Approval records and their store (packages/cli/src/core/approvals/ApprovalTypes.ts,
    ApprovalStore.ts): the transition relation, revisions and compare-and-set. */
module Approvals {
  import opened Wrappers
  import opened StableSerialize

  type ApprovalId = string

  datatype Status = Pending | Approved | Rejected | Expired | Cancelled | Consumed

  datatype Evidence = Evidence(kind: string, name: string, value: Json, sensitive: bool)

  datatype Scope = Execution | Task | Mission

  /** Times are integers; the source's ISO timestamps compare like them. */
  datatype Request = Request(
    approvalId: ApprovalId, missionId: string, taskId: string, executionId: string,
    requestId: string, policyId: string, scope: Scope, requestedBy: string, reason: string,
    evidence: seq<Evidence>, createdAt: int, expiresAt: Option<int>)

  datatype Record = Record(
    request: Request, status: Status, decisionBy: Option<string>, decisionAt: Option<int>,
    decisionReason: Option<string>, revision: nat, consumedAt: Option<int>)

  /** A decision always carries the reason key, even when its value is missing. */
  datatype Transition =
    | Approve(actor: string, at: int, reason: Option<string>)
    | Reject(actor: string, at: int, reason: Option<string>)
    | Expire(at: int, reason: Option<string>)
    | Cancel(at: int, reason: Option<string>)
    | Consume(at: int)
  {
    function Target(): Status {
      match this
      case Approve(_, _, _) => Approved
      case Reject(_, _, _) => Rejected
      case Expire(_, _) => Expired
      case Cancel(_, _) => Cancelled
      case Consume(_) => Consumed
    }
  }

  datatype Error =
    | InvalidRequest
    | AlreadyExists
    | NotFound
    | StaleRevision(expected: nat, current: nat)
    | BadTransition(from: Status)
    | NotPending(status: Status)
    | NotExpirable(status: Status)
    | NotApproved(status: Status)
    | ActorRequired
    | NotAuthorizing(status: Status)
    | BindingMismatch(field: string)
    | PolicyMissing

  type Store = map<ApprovalId, Record>

  datatype Outcome = Done(store: Store, record: Record) | Failed(error: Error)

  predicate IsTerminal(s: Status) {
    s.Rejected? || s.Expired? || s.Cancelled? || s.Consumed?
  }

  /** assertApprovalTransition. */
  predicate Allowed(from: Status, t: Transition) {
    match t
    case Consume(_) => from.Approved?
    case Expire(_, _) => from.Pending? || from.Approved?
    case _ => from.Pending?
  }

  /** applyTransition, on a transition that is allowed. */
  function Applied(r: Record, t: Transition): Record {
    match t
    case Consume(at) => r.(status := Consumed, consumedAt := Some(at), revision := r.revision + 1)
    case Approve(actor, at, reason) =>
      r.(status := Approved, decisionBy := Some(actor), decisionAt := Some(at), decisionReason := reason,
        revision := r.revision + 1)
    case Reject(actor, at, reason) =>
      r.(status := Rejected, decisionBy := Some(actor), decisionAt := Some(at), decisionReason := reason,
        revision := r.revision + 1)
    case Expire(at, reason) =>
      r.(status := Expired, decisionAt := Some(at), decisionReason := reason, revision := r.revision + 1)
    case Cancel(at, reason) =>
      r.(status := Cancelled, decisionAt := Some(at), decisionReason := reason, revision := r.revision + 1)
  }

  predicate IsSpace(c: char) {
    c == ' ' || '\U{0009}' <= c <= '\U{000D}' || c == '\U{00A0}' || c == '\U{1680}' || '\U{2000}' <= c <= '\U{200A}'
    || c == '\U{2028}' || c == '\U{2029}' || c == '\U{202F}' || c == '\U{205F}' || c == '\U{3000}' || c == '\U{FEFF}'
  }

  /** Whether nothing is left after trimming. */
  predicate Blank(s: string) {
    forall i :: 0 <= i < |s| ==> IsSpace(s[i])
  }

  /** assertApprovalRequest. */
  predicate ValidRequest(q: Request) {
    && !Blank(q.approvalId) && !Blank(q.missionId) && !Blank(q.taskId) && !Blank(q.executionId)
    && !Blank(q.requestId) && !Blank(q.policyId) && !Blank(q.requestedBy) && !Blank(q.reason)
    && (q.expiresAt.Some? ==> q.createdAt < q.expiresAt.value)
  }

  function NewRecord(q: Request): Record {
    Record(q, Pending, None, None, None, 1, None)
  }

  function Create(store: Store, q: Request): Outcome {
    if !ValidRequest(q) then Failed(InvalidRequest)
    else if q.approvalId in store then Failed(AlreadyExists)
    else Done(store[q.approvalId := NewRecord(q)], NewRecord(q))
  }

  /** The compare-and-set of the store. */
  function TransitionTo(store: Store, id: ApprovalId, t: Transition, expected: Option<nat>): Outcome {
    if id !in store then Failed(NotFound)
    else if expected.Some? && store[id].revision != expected.value then
      Failed(StaleRevision(expected.value, store[id].revision))
    else if !Allowed(store[id].status, t) then Failed(BadTransition(store[id].status))
    else Done(store[id := Applied(store[id], t)], Applied(store[id], t))
  }

  function OrElse(expected: Option<nat>, current: nat): Option<nat> {
    if expected.Some? then expected else Some(current)
  }

  // ----- ApprovalController.ts

  function ApproveBy(store: Store, id: ApprovalId, actor: string, reason: Option<string>, expected: Option<nat>,
                     now: int): Outcome
  {
    if Blank(actor) then Failed(ActorRequired)
    else if id !in store then Failed(NotFound)
    else if !store[id].status.Pending? then Failed(NotPending(store[id].status))
    else TransitionTo(store, id, Approve(actor, now, reason), OrElse(expected, store[id].revision))
  }

  function RejectBy(store: Store, id: ApprovalId, actor: string, reason: Option<string>, expected: Option<nat>,
                    now: int): Outcome
  {
    if Blank(actor) then Failed(ActorRequired)
    else if id !in store then Failed(NotFound)
    else if !store[id].status.Pending? then Failed(NotPending(store[id].status))
    else TransitionTo(store, id, Reject(actor, now, reason), OrElse(expected, store[id].revision))
  }

  function ExpireNow(store: Store, id: ApprovalId, reason: string, expected: Option<nat>, now: int): Outcome {
    if id !in store then Failed(NotFound)
    else if !store[id].status.Pending? && !store[id].status.Approved? then Failed(NotExpirable(store[id].status))
    else TransitionTo(store, id, Expire(now, Some(reason)), OrElse(expected, store[id].revision))
  }

  function ConsumeNow(store: Store, id: ApprovalId, expected: Option<nat>, now: int): Outcome {
    if id !in store then Failed(NotFound)
    else if !store[id].status.Approved? then Failed(NotApproved(store[id].status))
    else TransitionTo(store, id, Consume(now), OrElse(expected, store[id].revision))
  }

  /** A controller's own status check makes the store's check redundant: it succeeds
      exactly when the status fits and the revision is the expected one. */
  lemma ControllersSucceedIff(store: Store, id: ApprovalId, actor: string, note: Option<string>, why: string,
                              expected: Option<nat>, now: int)
    ensures ApproveBy(store, id, actor, note, expected, now).Done? <==>
      !Blank(actor) && id in store && store[id].status == Pending
        && (expected.Some? ==> expected.value == store[id].revision)
    ensures RejectBy(store, id, actor, note, expected, now).Done? <==>
      !Blank(actor) && id in store && store[id].status == Pending
        && (expected.Some? ==> expected.value == store[id].revision)
    ensures ExpireNow(store, id, why, expected, now).Done? <==>
      id in store && !IsTerminal(store[id].status) && (expected.Some? ==> expected.value == store[id].revision)
    ensures ConsumeNow(store, id, expected, now).Done? <==>
      id in store && store[id].status == Approved && (expected.Some? ==> expected.value == store[id].revision)
  {
  }

  /** Terminal records never change, and every change is to the next revision. */
  lemma TransitionMovesForward(store: Store, id: ApprovalId, t: Transition, expected: Option<nat>)
    requires TransitionTo(store, id, t, expected).Done?
    ensures var out := TransitionTo(store, id, t, expected);
            && !IsTerminal(store[id].status)
            && out.store.Keys == store.Keys && out.store[id] == out.record
            && out.record.request == store[id].request
            && out.record.revision == store[id].revision + 1
            && out.record.status == t.Target()
            && out.record.consumedAt == (if t.Consume? then Some(t.at) else store[id].consumedAt)
            && out.record.decisionBy == (if t.Approve? || t.Reject? then Some(t.actor) else store[id].decisionBy)
            && out.record.decisionAt == (if t.Consume? then store[id].decisionAt else Some(t.at))
            && out.record.decisionReason == (if t.Consume? then store[id].decisionReason else t.reason)
            && forall other :: other in store && other != id ==> out.store[other] == store[other]
  {
  }

  class InMemoryApprovalStore {
    var records: Store

    constructor ()
      ensures records == map[]
    {
      records := map[];
    }

    method CreateRecord(q: Request) returns (out: Outcome)
      modifies this
      ensures out == Create(old(records), q)
      ensures records == if out.Done? then out.store else old(records)
      ensures out.Done? <==> ValidRequest(q) && q.approvalId !in old(records)
      ensures out.Done? ==>
        && out.record == Record(q, Pending, None, None, None, 1, None)
        && records == old(records)[q.approvalId := out.record]
      ensures out.Failed? ==> out.error == if ValidRequest(q) then AlreadyExists else InvalidRequest
    {
      if !ValidRequest(q) {
        return Failed(InvalidRequest);
      }
      if q.approvalId in records {
        return Failed(AlreadyExists);
      }
      var record := NewRecord(q);
      records := records[q.approvalId := record];
      out := Done(records, record);
    }

    method Transition(id: ApprovalId, t: Transition, expected: Option<nat>) returns (out: Outcome)
      modifies this
      ensures out == TransitionTo(old(records), id, t, expected)
      ensures records == if out.Done? then out.store else old(records)
    {
      if id !in records {
        return Failed(NotFound);
      }
      var current := records[id];
      if expected.Some? && current.revision != expected.value {
        return Failed(StaleRevision(expected.value, current.revision));
      }
      if !Allowed(current.status, t) {
        return Failed(BadTransition(current.status));
      }
      var next := Applied(current, t);
      records := records[id := next];
      out := Done(records, next);
    }
  }

  /** The controller reads, checks, and then transitions the store. */
  class ApprovalController {
    const store: InMemoryApprovalStore

    constructor (store: InMemoryApprovalStore)
      ensures this.store == store
    {
      this.store := store;
    }

    method Approve(id: ApprovalId, actor: string, reason: Option<string>, expected: Option<nat>, now: int)
      returns (out: Outcome)
      modifies store
      ensures out == ApproveBy(old(store.records), id, actor, reason, expected, now)
      ensures store.records == if out.Done? then out.store else old(store.records)
      ensures out.Done? <==>
        && !Blank(actor) && id in old(store.records) && old(store.records)[id].status == Pending
        && expected in {None, Some(old(store.records)[id].revision)}
      ensures out.Done? ==> store.records == old(store.records)[id := old(store.records)[id].(
        status := Approved, decisionBy := Some(actor), decisionAt := Some(now), decisionReason := reason,
        revision := old(store.records)[id].revision + 1)]
    {
      if Blank(actor) {
        return Failed(ActorRequired);
      }
      if id !in store.records {
        return Failed(NotFound);
      }
      var current := store.records[id];
      if !current.status.Pending? {
        return Failed(NotPending(current.status));
      }
      out := store.Transition(id, Transition.Approve(actor, now, reason), OrElse(expected, current.revision));
    }

    method Reject(id: ApprovalId, actor: string, reason: Option<string>, expected: Option<nat>, now: int)
      returns (out: Outcome)
      modifies store
      ensures out == RejectBy(old(store.records), id, actor, reason, expected, now)
      ensures store.records == if out.Done? then out.store else old(store.records)
      ensures out.Done? <==>
        && !Blank(actor) && id in old(store.records) && old(store.records)[id].status == Pending
        && expected in {None, Some(old(store.records)[id].revision)}
      ensures out.Done? ==> store.records == old(store.records)[id := old(store.records)[id].(
        status := Rejected, decisionBy := Some(actor), decisionAt := Some(now), decisionReason := reason,
        revision := old(store.records)[id].revision + 1)]
    {
      if Blank(actor) {
        return Failed(ActorRequired);
      }
      if id !in store.records {
        return Failed(NotFound);
      }
      var current := store.records[id];
      if !current.status.Pending? {
        return Failed(NotPending(current.status));
      }
      out := store.Transition(id, Transition.Reject(actor, now, reason), OrElse(expected, current.revision));
    }

    method Expire(id: ApprovalId, reason: string, expected: Option<nat>, now: int) returns (out: Outcome)
      modifies store
      ensures out == ExpireNow(old(store.records), id, reason, expected, now)
      ensures store.records == if out.Done? then out.store else old(store.records)
      ensures out.Done? <==>
        && id in old(store.records) && old(store.records)[id].status in {Pending, Approved}
        && expected in {None, Some(old(store.records)[id].revision)}
      ensures out.Done? ==> store.records == old(store.records)[id := old(store.records)[id].(
        status := Expired, decisionAt := Some(now), decisionReason := Some(reason),
        revision := old(store.records)[id].revision + 1)]
    {
      if id !in store.records {
        return Failed(NotFound);
      }
      var current := store.records[id];
      if !current.status.Pending? && !current.status.Approved? {
        return Failed(NotExpirable(current.status));
      }
      out := store.Transition(id, Transition.Expire(now, Some(reason)), OrElse(expected, current.revision));
    }

    method Consume(id: ApprovalId, expected: Option<nat>, now: int) returns (out: Outcome)
      modifies store
      ensures out == ConsumeNow(old(store.records), id, expected, now)
      ensures store.records == if out.Done? then out.store else old(store.records)
      ensures out.Done? <==>
        && id in old(store.records) && old(store.records)[id].status == Approved
        && expected in {None, Some(old(store.records)[id].revision)}
      ensures out.Done? ==> store.records == old(store.records)[id := old(store.records)[id].(
        status := Consumed, consumedAt := Some(now), revision := old(store.records)[id].revision + 1)]
    {
      if id !in store.records {
        return Failed(NotFound);
      }
      var current := store.records[id];
      if !current.status.Approved? {
        return Failed(NotApproved(current.status));
      }
      out := store.Transition(id, Transition.Consume(now), OrElse(expected, current.revision));
    }
  }
}
