/** Authorization before dispatch: packages/cli/src/core/approvals/ApprovalGate.ts, with
    the store's list query (ApprovalStore.ts:100-124). */
module ApprovalGate {
  import opened Wrappers
  import opened StableSerialize
  import opened Approvals
  import opened ApprovalBinding

  datatype PolicyEffect = Allow | Deny | ApprovalRequired

  datatype PolicyMatch = PolicyMatch(policyId: string, effect: PolicyEffect)

  /** `matched` is the recorded form of the matched policies. */
  datatype PolicyEvaluation = PolicyEvaluation(
    decision: PolicyEffect, reason: string, matchedPolicies: seq<PolicyMatch>, matched: Json)

  /** The call's context with the defaults for the identifiers already applied. */
  datatype GateContext = GateContext(
    decision: ScheduleDecision, policyContext: PolicyContext, approvalId: ApprovalId, requestId: string,
    requestedBy: string, scope: Scope, expiresAt: Option<int>, now: int)

  datatype GateResult =
    | GateAllow(approval: Option<Record>)
    | GateDeny
    | GateApprovalRequired(approval: Option<Record>)
    | GateError(error: Error)

  function MatchingPolicy(matches: seq<PolicyMatch>): Option<string> {
    if matches == [] then None
    else if matches[0].effect.ApprovalRequired? then Some(matches[0].policyId)
    else MatchingPolicy(matches[1..])
  }

  /** What an execution's listing can show; an empty execution id lists everything. */
  predicate Listed(r: Record, statuses: set<Status>, executionId: string) {
    r.status in statuses && (executionId == "" || r.request.executionId == executionId)
  }

  const ALL_STATUSES: set<Status> := {Pending, Approved, Rejected, Expired, Cancelled, Consumed}

  ghost predicate Keyed(store: Store) {
    forall id :: id in store ==> store[id].request.approvalId == id
  }

  predicate Matching(store: Store, ctx: GateContext, policyId: string) {
    && ctx.approvalId in store
    && Listed(store[ctx.approvalId], ALL_STATUSES, ctx.decision.executionId)
    && store[ctx.approvalId].request.policyId == policyId
  }

  predicate Due(r: Record, now: int) {
    (r.status.Pending? || r.status.Approved?) && r.request.expiresAt.Some? && r.request.expiresAt.value <= now
  }

  function BuildRequest(ctx: GateContext, policy: PolicyEvaluation, policyId: string): Request {
    Request(ctx.approvalId, ctx.decision.missionId, ctx.decision.taskId, ctx.decision.executionId,
            ctx.requestId, policyId, ctx.scope, ctx.requestedBy, policy.reason,
            GatheredEvidence(ctx.decision, ctx.policyContext, policy.matched), ctx.now, ctx.expiresAt)
  }

  const EXPIRED_REASON := "APPROVAL_EXPIRED_AT_AUTHORIZATION"

  /** evaluate, as a function of the store; `clock` is the controller's own time. */
  function Evaluate(store: Store, ctx: GateContext, policy: PolicyEvaluation, clock: int): (Store, GateResult) {
    if policy.decision.Allow? then (store, GateAllow(None))
    else if policy.decision.Deny? then (store, GateDeny)
    else
      var policyId := MatchingPolicy(policy.matchedPolicies);
      if policyId.None? then (store, GateError(PolicyMissing))
      else if Matching(store, ctx, policyId.value) then EvaluateExisting(store, ctx, policyId.value, clock)
      else
        match Create(store, BuildRequest(ctx, policy, policyId.value))
        case Done(store', record) => (store', GateApprovalRequired(Some(record)))
        case Failed(error) => (store, GateError(error))
  }

  function EvaluateExisting(store: Store, ctx: GateContext, policyId: string, clock: int): (Store, GateResult)
    requires ctx.approvalId in store
  {
    var record := store[ctx.approvalId];
    if Due(record, ctx.now) then
      match ExpireNow(store, ctx.approvalId, EXPIRED_REASON, Some(record.revision), clock)
      case Done(store', expired) => (store', GateApprovalRequired(Some(expired)))
      case Failed(error) => (store, GateError(error))
    else if record.status.Approved? then
      match CheckBinding(record, policyId, ctx.policyContext)
      case Some(error) => (store, GateError(error))
      case None => (store, GateAllow(Some(record)))
    else (store, GateApprovalRequired(Some(record)))
  }

  /** An allowing answer that names a record names an approved, unexpired one that binds
      to this very context; the store is then untouched. */
  lemma AllowMeansApproved(store: Store, ctx: GateContext, policy: PolicyEvaluation, clock: int)
    requires Evaluate(store, ctx, policy, clock).1.GateAllow?
    ensures Evaluate(store, ctx, policy, clock).0 == store
    ensures Evaluate(store, ctx, policy, clock).1.approval.None? <==> policy.decision.Allow?
    ensures var approval := Evaluate(store, ctx, policy, clock).1.approval;
            approval.Some? ==>
              && ctx.approvalId in store && store[ctx.approvalId] == approval.value
              && approval.value.status == Approved && !Due(approval.value, ctx.now)
              && MatchingPolicy(policy.matchedPolicies).Some?
              && Binds(approval.value.request, MatchingPolicy(policy.matchedPolicies).value, ctx.policyContext)
  {
  }

  /** What evaluation does to the store: it creates one pending record under a new
      identifier, or expires the named one, or leaves everything as it is. */
  lemma EvaluateStore(store: Store, ctx: GateContext, policy: PolicyEvaluation, clock: int)
    ensures var store' := Evaluate(store, ctx, policy, clock).0;
            || store' == store
            || (ctx.approvalId !in store && store'.Keys == store.Keys + {ctx.approvalId}
                && store'[ctx.approvalId].status == Pending && store'[ctx.approvalId].revision == 1
                && store'[ctx.approvalId].request.approvalId == ctx.approvalId
                && store' == store[ctx.approvalId := store'[ctx.approvalId]])
            || (ctx.approvalId in store && !IsTerminal(store[ctx.approvalId].status)
                && exists reason ::
                     store' == store[ctx.approvalId := Applied(store[ctx.approvalId], Expire(clock, reason))])
  {
    if policy.decision.ApprovalRequired? && MatchingPolicy(policy.matchedPolicies).Some? {
      var policyId := MatchingPolicy(policy.matchedPolicies).value;
      if Matching(store, ctx, policyId) && Due(store[ctx.approvalId], ctx.now) {
        assert Evaluate(store, ctx, policy, clock).0
            == store[ctx.approvalId := Applied(store[ctx.approvalId], Expire(clock, Some(EXPIRED_REASON)))];
      }
    }
  }

  // ----- what evaluation answers, case by case

  /** The first matched policy that asks for approval. */
  ghost predicate Governs(policy: PolicyEvaluation, policyId: string) {
    exists i :: 0 <= i < |policy.matchedPolicies|
      && policy.matchedPolicies[i] == PolicyMatch(policyId, ApprovalRequired)
      && forall j :: 0 <= j < i ==> policy.matchedPolicies[j].effect != ApprovalRequired
  }

  /** The named record is stored, of this execution and under this policy. */
  ghost predicate Names(store: Store, ctx: GateContext, policyId: string) {
    && ctx.approvalId in store && store[ctx.approvalId].request.policyId == policyId
    && (ctx.decision.executionId == "" || store[ctx.approvalId].request.executionId == ctx.decision.executionId)
  }

  ghost predicate RunOut(q: Request, now: int) {
    q.expiresAt.Some? && q.expiresAt.value <= now
  }

  /** A stored record: when its time has run out while it was open it is expired, when it is
      approved it allows exactly what it binds to, and else it is shown as it is. */
  ghost predicate AnswersForRecord(store: Store, store': Store, ctx: GateContext, policyId: string, clock: int,
                                   result: GateResult)
    requires ctx.approvalId in store
  {
    var r := store[ctx.approvalId];
    if r.status in {Pending, Approved} && RunOut(r.request, ctx.now) then
      var expired := r.(status := Expired, decisionAt := Some(clock), revision := r.revision + 1,
                        decisionReason := Some("APPROVAL_EXPIRED_AT_AUTHORIZATION"));
      result == GateApprovalRequired(Some(expired)) && store' == store[ctx.approvalId := expired]
    else
      && store' == store
      && (r.status != Approved ==> result == GateApprovalRequired(Some(r)))
      && (r.status == Approved ==> if Binds(r.request, policyId, ctx.policyContext) then result == GateAllow(Some(r))
                                   else exists field :: result == GateError(BindingMismatch(field)))
  }

  /** No such record: a pending one is created from the context, unless the request is
      invalid or its identifier taken. */
  ghost predicate AnswersWithNew(store: Store, store': Store, ctx: GateContext, policy: PolicyEvaluation,
                                 policyId: string, result: GateResult)
  {
    var q := Request(ctx.approvalId, ctx.decision.missionId, ctx.decision.taskId, ctx.decision.executionId,
                     ctx.requestId, policyId, ctx.scope, ctx.requestedBy, policy.reason,
                     GatheredEvidence(ctx.decision, ctx.policyContext, policy.matched), ctx.now, ctx.expiresAt);
    if ValidRequest(q) && q.approvalId !in store then
      var r := Record(q, Pending, None, None, None, 1, None);
      result == GateApprovalRequired(Some(r)) && store' == store[q.approvalId := r]
    else result == GateError(if ValidRequest(q) then AlreadyExists else InvalidRequest) && store' == store
  }

  ghost predicate Answers(store: Store, store': Store, ctx: GateContext, policy: PolicyEvaluation, clock: int,
                          result: GateResult)
  {
    match policy.decision
    case Allow => result == GateAllow(None) && store' == store
    case Deny => result == GateDeny && store' == store
    case ApprovalRequired =>
      && ((forall p :: !Governs(policy, p)) ==> result == GateError(PolicyMissing) && store' == store)
      && (forall p :: Governs(policy, p) ==>
            if Names(store, ctx, p) then AnswersForRecord(store, store', ctx, p, clock, result)
            else AnswersWithNew(store, store', ctx, policy, p, result))
  }

  lemma {:induction false} MatchingPolicyGoverns(policy: PolicyEvaluation, matches: seq<PolicyMatch>, p: string)
    requires matches == policy.matchedPolicies
    ensures Governs(policy, p) <==> MatchingPolicy(matches) == Some(p)
    decreases |matches|
  {
    if matches != [] {
      var rest := policy.(matchedPolicies := matches[1..]);
      MatchingPolicyGoverns(rest, matches[1..], p);
      if matches[0].effect.ApprovalRequired? {
        assert Governs(policy, p) <==> matches[0] == PolicyMatch(p, ApprovalRequired);
      } else {
        GovernsTail(policy, p);
      }
    }
  }

  lemma GovernsTail(policy: PolicyEvaluation, p: string)
    requires policy.matchedPolicies != [] && policy.matchedPolicies[0].effect != ApprovalRequired
    ensures Governs(policy, p) <==> Governs(policy.(matchedPolicies := policy.matchedPolicies[1..]), p)
  {
    var matches := policy.matchedPolicies;
    if Governs(policy, p) {
      var i :| 0 <= i < |matches| && matches[i] == PolicyMatch(p, ApprovalRequired)
        && forall j :: 0 <= j < i ==> matches[j].effect != ApprovalRequired;
      assert matches[1..][i - 1] == matches[i];
    }
    if Governs(policy.(matchedPolicies := matches[1..]), p) {
      var i :| 0 <= i < |matches[1..]| && matches[1..][i] == PolicyMatch(p, ApprovalRequired)
        && forall j :: 0 <= j < i ==> matches[1..][j].effect != ApprovalRequired;
      assert matches[i + 1] == PolicyMatch(p, ApprovalRequired);
      forall j | 0 <= j < i + 1 ensures matches[j].effect != ApprovalRequired {
        assert j > 0 ==> matches[j] == matches[1..][j - 1];
      }
    }
  }

  lemma ExistingAnswers(store: Store, ctx: GateContext, policyId: string, clock: int)
    requires ctx.approvalId in store
    ensures var (store', result) := EvaluateExisting(store, ctx, policyId, clock);
            AnswersForRecord(store, store', ctx, policyId, clock, result)
  {
    var problem := CheckBinding(store[ctx.approvalId], policyId, ctx.policyContext);
    assert store[ctx.approvalId].status == Approved && problem.Some? ==> problem.value.BindingMismatch?;
    hide Binds, EvidenceMatches, ExecutionMatches;
  }

  lemma EvaluationAnswers(store: Store, ctx: GateContext, policy: PolicyEvaluation, clock: int)
    ensures var (store', result) := Evaluate(store, ctx, policy, clock);
            Answers(store, store', ctx, policy, clock, result)
  {
    forall p ensures Governs(policy, p) <==> MatchingPolicy(policy.matchedPolicies) == Some(p) {
      MatchingPolicyGoverns(policy, policy.matchedPolicies, p);
    }
    if ctx.approvalId in store && MatchingPolicy(policy.matchedPolicies).Some? {
      ExistingAnswers(store, ctx, MatchingPolicy(policy.matchedPolicies).value, clock);
    }
    hide Governs, MatchingPolicy, EvaluateExisting, AnswersForRecord, GatheredEvidence, ValidRequest;
  }

  /** In particular an approval that is required is found exactly in the named record, of this
      execution and policy, approved, not run out, and bound to this very context. */
  lemma AllowedIff(store: Store, ctx: GateContext, policy: PolicyEvaluation, clock: int, p: string)
    requires policy.decision == ApprovalRequired && Governs(policy, p)
    ensures Evaluate(store, ctx, policy, clock).1.GateAllow? <==>
      && Names(store, ctx, p) && store[ctx.approvalId].status == Approved
      && !RunOut(store[ctx.approvalId].request, ctx.now)
      && Binds(store[ctx.approvalId].request, p, ctx.policyContext)
    ensures Evaluate(store, ctx, policy, clock).1.GateAllow? ==>
      Evaluate(store, ctx, policy, clock) == (store, GateAllow(Some(store[ctx.approvalId])))
  {
    EvaluationAnswers(store, ctx, policy, clock);
    hide Evaluate, Governs, Binds, GatheredEvidence, ValidRequest;
  }

  // ----- listing

  predicate ListedBefore(a: Record, b: Record, rank: ApprovalId -> int) {
    a.request.createdAt < b.request.createdAt
    || (a.request.createdAt == b.request.createdAt && rank(a.request.approvalId) <= rank(b.request.approvalId))
  }

  function InsertRecord(r: Record, rs: seq<Record>, rank: ApprovalId -> int): seq<Record> {
    if rs == [] || ListedBefore(r, rs[0], rank) then [r] + rs else [rs[0]] + InsertRecord(r, rs[1..], rank)
  }

  lemma {:induction false} InsertRecordMembers(r: Record, rs: seq<Record>, rank: ApprovalId -> int, x: Record)
    ensures x in InsertRecord(r, rs, rank) <==> x == r || x in rs
  {
    if rs != [] && !ListedBefore(r, rs[0], rank) {
      InsertRecordMembers(r, rs[1..], rank, x);
    }
  }

  ghost predicate InListOrder(rs: seq<Record>, rank: ApprovalId -> int) {
    forall i, j :: 0 <= i < j < |rs| ==> ListedBefore(rs[i], rs[j], rank)
  }

  lemma {:induction false} InsertRecordInOrder(r: Record, rs: seq<Record>, rank: ApprovalId -> int)
    requires InListOrder(rs, rank)
    ensures InListOrder(InsertRecord(r, rs, rank), rank)
  {
    if rs != [] && !ListedBefore(r, rs[0], rank) {
      InsertRecordInOrder(r, rs[1..], rank);
      var rest := InsertRecord(r, rs[1..], rank);
      forall j | 0 <= j < |rest| ensures ListedBefore(rs[0], rest[j], rank) {
        InsertRecordMembers(r, rs[1..], rank, rest[j]);
      }
    }
  }

  ghost predicate DistinctIds(rs: seq<Record>) {
    forall i, j :: 0 <= i < j < |rs| ==> rs[i].request.approvalId != rs[j].request.approvalId
  }

  lemma {:induction false} InsertRecordDistinct(r: Record, rs: seq<Record>, rank: ApprovalId -> int)
    requires DistinctIds(rs) && forall x :: x in rs ==> x.request.approvalId != r.request.approvalId
    ensures DistinctIds(InsertRecord(r, rs, rank))
  {
    if rs != [] && !ListedBefore(r, rs[0], rank) {
      InsertRecordDistinct(r, rs[1..], rank);
      var rest := InsertRecord(r, rs[1..], rank);
      forall j | 0 <= j < |rest| ensures rest[j].request.approvalId != rs[0].request.approvalId {
        InsertRecordMembers(r, rs[1..], rank, rest[j]);
      }
    }
  }

  /** list: the matching records, oldest first, ties in the order of their identifiers. */
  method List(store: Store, statuses: set<Status>, executionId: string, rank: ApprovalId -> int)
    returns (listed: seq<Record>)
    requires Keyed(store)
    ensures forall r :: r in listed <==> exists id :: id in store && store[id] == r && Listed(r, statuses, executionId)
    ensures InListOrder(listed, rank) && DistinctIds(listed)
  {
    hide InListOrder, DistinctIds;
    NothingListed(rank);
    listed := [];
    var rest := store.Keys;
    while rest != {}
      invariant rest <= store.Keys && InListOrder(listed, rank) && DistinctIds(listed)
      invariant forall r :: r in listed <==>
        exists id :: id in store && id !in rest && store[id] == r && Listed(r, statuses, executionId)
      decreases rest
    {
      var id :| id in rest;
      if Listed(store[id], statuses, executionId) {
        forall r ensures r in InsertRecord(store[id], listed, rank) <==> r == store[id] || r in listed {
          InsertRecordMembers(store[id], listed, rank, r);
        }
        InsertRecordInOrder(store[id], listed, rank);
        InsertRecordDistinct(store[id], listed, rank);
        listed := InsertRecord(store[id], listed, rank);
      }
      rest := rest - {id};
    }
  }

  lemma NothingListed(rank: ApprovalId -> int)
    ensures InListOrder([], rank) && DistinctIds([])
  {
  }

  datatype Dispatch = Dispatch(decision: ScheduleDecision, approval: Option<ApprovalId>)

  class ApprovalGate {
    const store: InMemoryApprovalStore
    const controller: ApprovalController
    const rank: ApprovalId -> int  // the collation order of identifiers

    constructor (store: InMemoryApprovalStore, rank: ApprovalId -> int)
      ensures this.store == store && controller.store == store
    {
      this.store := store;
      this.controller := new ApprovalController(store);
      this.rank := rank;
    }

    method EvaluateContext(ctx: GateContext, policy: PolicyEvaluation, clock: int) returns (result: GateResult)
      requires controller.store == store && Keyed(store.records)
      modifies store
      ensures (store.records, result) == Evaluate(old(store.records), ctx, policy, clock)
      ensures Answers(old(store.records), store.records, ctx, policy, clock, result)
      ensures Keyed(store.records)
    {
      EvaluationAnswers(store.records, ctx, policy, clock);
      hide CheckBinding, GatheredEvidence, ValidRequest, Answers;
      if policy.decision == Allow {
        return GateAllow(None);
      }
      if policy.decision == Deny {
        return GateDeny;
      }
      var policyId := MatchingPolicy(policy.matchedPolicies);
      if policyId.None? {
        return GateError(PolicyMissing);
      }
      var existing := List(store.records, ALL_STATUSES, ctx.decision.executionId, rank);
      var matching := FindMatching(store.records, existing, ctx, policyId.value);
      if matching.Some? {
        var record := matching.value;
        if Due(record, ctx.now) {
          var out := controller.Expire(record.request.approvalId, EXPIRED_REASON, Some(record.revision), clock);
          return if out.Done? then GateApprovalRequired(Some(out.record)) else GateError(out.error);
        }
        if record.status.Approved? {
          var problem := CheckBinding(record, policyId.value, ctx.policyContext);
          return if problem.Some? then GateError(problem.value) else GateAllow(Some(record));
        }
        return GateApprovalRequired(Some(record));
      }
      var out := store.CreateRecord(BuildRequest(ctx, policy, policyId.value));
      result := if out.Done? then GateApprovalRequired(Some(out.record)) else GateError(out.error);
    }

    method ConsumeApproved(id: ApprovalId, expectedRevision: nat, clock: int) returns (out: Outcome)
      requires controller.store == store
      modifies store
      ensures out == ConsumeNow(old(store.records), id, Some(expectedRevision), clock)
      ensures store.records == if out.Done? then out.store else old(store.records)
    {
      out := controller.Consume(id, Some(expectedRevision), clock);
    }
  }

  lemma MatchingIsListed(store: Store, existing: seq<Record>, ctx: GateContext, policyId: string)
    requires Matching(store, ctx, policyId)
    requires forall r :: r in existing <==>
      exists id :: id in store && store[id] == r && Listed(r, ALL_STATUSES, ctx.decision.executionId)
    ensures exists j :: 0 <= j < |existing| && existing[j] == store[ctx.approvalId]
  {
    assert store[ctx.approvalId] in existing;
  }

  /** The first listed record with the wanted identifier and policy. */
  method FindMatching(store: Store, existing: seq<Record>, ctx: GateContext, policyId: string)
    returns (found: Option<Record>)
    requires Keyed(store)
    requires forall r :: r in existing <==>
      exists id :: id in store && store[id] == r && Listed(r, ALL_STATUSES, ctx.decision.executionId)
    ensures found.Some? <==> Matching(store, ctx, policyId)
    ensures found.Some? ==> found.value == store[ctx.approvalId] && found.value.request.approvalId == ctx.approvalId
  {
    var i := 0;
    while i < |existing|
      invariant 0 <= i <= |existing|
      invariant forall j :: 0 <= j < i ==>
        !(existing[j].request.approvalId == ctx.approvalId && existing[j].request.policyId == policyId)
    {
      if existing[i].request.approvalId == ctx.approvalId && existing[i].request.policyId == policyId {
        assert existing[i] in existing;
        return Some(existing[i]);
      }
      i := i + 1;
    }
    if Matching(store, ctx, policyId) {
      MatchingIsListed(store, existing, ctx, policyId);
    }
    found := None;
  }

  class ApprovalGateDispatcher {
    const gate: ApprovalGate
    var dispatched: seq<Dispatch>  // the calls of the dispatch callback

    constructor (gate: ApprovalGate)
      ensures this.gate == gate && dispatched == []
    {
      this.gate := gate;
      dispatched := [];
    }

    /** Evaluate, then consume, then dispatch; a failing consumption raises and nothing
        is dispatched. */
    method DispatchIfAuthorized(ctx: GateContext, policy: PolicyEvaluation, clock: int) returns (result: GateResult)
      requires gate.controller.store == gate.store && Keyed(gate.store.records)
      modifies this, gate.store
      ensures Keyed(gate.store.records)
      ensures result == Evaluate(old(gate.store.records), ctx, policy, clock).1
      ensures !result.GateAllow? ==>
        dispatched == old(dispatched) && gate.store.records == Evaluate(old(gate.store.records), ctx, policy, clock).0
      ensures result == GateAllow(None) ==>
        dispatched == old(dispatched) + [Dispatch(ctx.decision, None)] && gate.store.records == old(gate.store.records)
      ensures result.GateAllow? && result.approval.Some? ==>
        && dispatched == old(dispatched) + [Dispatch(ctx.decision, Some(ctx.approvalId))]
        && gate.store.records == old(gate.store.records)[ctx.approvalId := result.approval.value.(
             status := Consumed, consumedAt := Some(clock), revision := result.approval.value.revision + 1)]
      ensures if result.GateAllow?
              then Answers(old(gate.store.records), old(gate.store.records), ctx, policy, clock, result)
              else Answers(old(gate.store.records), gate.store.records, ctx, policy, clock, result)
    {
      hide Evaluate, Answers;
      ghost var before := gate.store.records;
      result := gate.EvaluateContext(ctx, policy, clock);
      if result.GateAllow? {
        AllowMeansApproved(before, ctx, policy, clock);
        if result.approval.Some? {
          var id := result.approval.value.request.approvalId;
          var out := gate.ConsumeApproved(id, result.approval.value.revision, clock);
          ControllersSucceedIff(before, id, "", None, "", Some(result.approval.value.revision), clock);
          assert out.Done?;
          dispatched := dispatched + [Dispatch(ctx.decision, Some(id))];
        } else {
          dispatched := dispatched + [Dispatch(ctx.decision, None)];
        }
      }
    }
  }
}
