/** What the audit events of packages/cli/src/core/approvals/ApprovalAudit.ts say, field by
    field, and that a logged event which says anything else is not let pass. */
module AuditContents {
  import opened Wrappers
  import opened Approvals
  import opened ApprovalAudit

  /** The payload holds the value under the key; without a value it has no such key. */
  ghost predicate Says(e: AuditEvent, key: string, value: Option<Value>) {
    if value.Some? then key in e.payload && e.payload[key] == value.value else key !in e.payload
  }

  /** At most `max` characters, with blanks for the control characters. */
  ghost predicate Cleaned(s: string, max: nat, t: string) {
    && |t| == (if |s| <= max then |s| else max)
    && forall i :: 0 <= i < |t| ==>
         t[i] == if s[i] <= '\U{001F}' || s[i] == '\U{007F}' then ' ' else s[i]
  }

  ghost predicate SaysCleaned(e: AuditEvent, key: string, s: string, max: nat) {
    key in e.payload && e.payload[key].Text? && Cleaned(s, max, e.payload[key].s)
  }

  /** The event of one stage of a request: at this revision, with this status. */
  ghost predicate Concerns(e: AuditEvent, q: Request, kind: EventKind, revision: nat, status: Status) {
    && e.id == EventId(q.approvalId, revision, kind) && e.kind == kind
    && e.missionId == q.missionId && e.taskId == q.taskId
    && e.executionId == q.executionId && e.requestId == q.requestId
    && Says(e, "approvalId", Some(Text(q.approvalId))) && Says(e, "policyId", Some(Text(q.policyId)))
    && Says(e, "scope", Some(ScopeValue(q.scope)))
    && Says(e, "status", Some(StatusValue(status))) && Says(e, "revision", Some(Number(revision)))
  }

  /** Who asks, why, and on what evidence, of which only kind, name and sensitivity are told. */
  ghost predicate SaysRequest(e: AuditEvent, q: Request, max: nat) {
    && Says(e, "requestedBy", Some(Text(q.requestedBy))) && SaysCleaned(e, "reason", q.reason, max)
    && "evidence" in e.payload && e.payload["evidence"].Summaries?
    && var items := e.payload["evidence"].items;
       |items| == |q.evidence| && forall i :: 0 <= i < |items| ==>
         items[i] == EvidenceSummary(q.evidence[i].kind, q.evidence[i].name, q.evidence[i].sensitive)
  }

  /** Who decided and why, as far as that is known. */
  ghost predicate SaysDecision(e: AuditEvent, r: Record, max: nat) {
    && (r.decisionBy.Some? ==> Says(e, "decisionBy", Some(Text(r.decisionBy.value))))
    && (r.decisionBy.None? ==> Says(e, "decisionBy", None))
    && (r.decisionReason.Some? && r.decisionReason.value != "" ==>
          SaysCleaned(e, "decisionReason", r.decisionReason.value, max))
    && (r.decisionReason in {None, Some("")} ==> Says(e, "decisionReason", None))
  }

  ghost predicate SaysConsumption(e: AuditEvent, r: Record) {
    if r.consumedAt.Some? then Says(e, "consumedAt", Some(Number(r.consumedAt.value))) else Says(e, "consumedAt", None)
  }

  // ----- checking a payload is checking what it says

  /** Every expected key has the expected value, or is missing when that is undefined. */
  ghost predicate Carries(e: AuditEvent, expected: Payload) {
    forall key :: key in expected ==> PayloadValue(e.payload, key) == expected[key]
  }

  lemma CarriesOne(e: AuditEvent, key: string, value: Option<Value>)
    ensures PayloadValue(e.payload, key) == value <==> Says(e, key, value)
  {
  }

  lemma CleanedIsSanitized(s: string, max: nat, t: string)
    ensures t == Sanitize(s, max) <==> Cleaned(s, max, t)
  {
  }

  lemma CarriesCleaned(e: AuditEvent, key: string, s: string, max: nat)
    ensures PayloadValue(e.payload, key) == Some(Text(Sanitize(s, max))) <==> SaysCleaned(e, key, s, max)
  {
    hide Sanitize, Cleaned;
    if key in e.payload && e.payload[key].Text? {
      CleanedIsSanitized(s, max, e.payload[key].s);
    }
  }

  lemma BaseIff(e: AuditEvent, r: Record)
    ensures Carries(e, BasePayload(r)) <==>
      && Says(e, "approvalId", Some(Text(r.request.approvalId))) && Says(e, "policyId", Some(Text(r.request.policyId)))
      && Says(e, "scope", Some(ScopeValue(r.request.scope)))
      && Says(e, "status", Some(StatusValue(r.status))) && Says(e, "revision", Some(Number(r.revision)))
  {
    hide Says, PayloadValue;
    CarriesOne(e, "approvalId", Some(Text(r.request.approvalId)));
    CarriesOne(e, "policyId", Some(Text(r.request.policyId)));
    CarriesOne(e, "scope", Some(ScopeValue(r.request.scope)));
    CarriesOne(e, "status", Some(StatusValue(r.status)));
    CarriesOne(e, "revision", Some(Number(r.revision)));
    FiveKeys(e, BasePayload(r), "approvalId", "policyId", "scope", "status", "revision");
  }

  lemma FiveKeys(e: AuditEvent, p: Payload, a: string, b: string, c: string, d: string, f: string)
    requires p.Keys == {a, b, c, d, f}
    ensures Carries(e, p) <==>
      && PayloadValue(e.payload, a) == p[a] && PayloadValue(e.payload, b) == p[b] && PayloadValue(e.payload, c) == p[c]
      && PayloadValue(e.payload, d) == p[d] && PayloadValue(e.payload, f) == p[f]
  {
    hide PayloadValue;
    forall key ensures key in p <==> key == a || key == b || key == c || key == d || key == f {
      assert key in p <==> key in p.Keys;
    }
  }

  lemma ThreeKeys(e: AuditEvent, p: Payload, a: string, b: string, c: string)
    requires p.Keys == {a, b, c}
    ensures Carries(e, p) <==>
      PayloadValue(e.payload, a) == p[a] && PayloadValue(e.payload, b) == p[b] && PayloadValue(e.payload, c) == p[c]
  {
    hide PayloadValue;
    forall key ensures key in p <==> key == a || key == b || key == c {
      assert key in p <==> key in p.Keys;
    }
  }

  lemma SummariesIff(evidence: seq<Evidence>, items: seq<EvidenceSummary>)
    ensures items == Summarize(evidence) <==>
      && |items| == |evidence|
      && forall i :: 0 <= i < |items| ==>
           items[i] == EvidenceSummary(evidence[i].kind, evidence[i].name, evidence[i].sensitive)
  {
  }

  lemma RequestIff(e: AuditEvent, r: Record, max: nat)
    ensures Carries(e, RequestedExtra(r, max)) <==> SaysRequest(e, r.request, max)
  {
    hide Sanitize, Summarize, SaysCleaned, Says;
    ThreeKeys(e, RequestedExtra(r, max), "requestedBy", "reason", "evidence");
    CarriesOne(e, "requestedBy", Some(Text(r.request.requestedBy)));
    CarriesCleaned(e, "reason", r.request.reason, max);
    if "evidence" in e.payload && e.payload["evidence"].Summaries? {
      SummariesIff(r.request.evidence, e.payload["evidence"].items);
    }
  }

  lemma DecisionIff(e: AuditEvent, r: Record, max: nat)
    ensures Carries(e, DecisionExtra(r, max)) <==> SaysDecision(e, r, max)
  {
    hide Sanitize, SaysCleaned, Says;
    ThreeKeys(e, DecisionExtra(r, max), "decisionBy", "decisionReason", "decisionReason");
    CarriesOne(e, "decisionBy", OptionalText(r.decisionBy));
    CarriesOne(e, "decisionReason", None);
    if r.decisionReason.Some? {
      CarriesCleaned(e, "decisionReason", r.decisionReason.value, max);
    }
  }

  lemma ConsumptionIff(e: AuditEvent, r: Record)
    ensures Carries(e, ConsumptionExtra(r)) <==> SaysConsumption(e, r)
  {
    ThreeKeys(e, ConsumptionExtra(r), "consumedAt", "consumedAt", "consumedAt");
    CarriesOne(e, "consumedAt", OptionalNumber(r.consumedAt));
    hide Says;
  }

  lemma CarriesBoth(e: AuditEvent, p: Payload, q: Payload)
    requires p.Keys !! q.Keys
    ensures Carries(e, p + q) <==> Carries(e, p) && Carries(e, q)
  {
    hide PayloadValue;
    if Carries(e, p + q) {
      forall key | key in p ensures PayloadValue(e.payload, key) == p[key] {
        assert key in p + q && (p + q)[key] == p[key];
      }
      forall key | key in q ensures PayloadValue(e.payload, key) == q[key] {
        assert key in p + q && (p + q)[key] == q[key];
      }
    }
  }

  lemma KeptCarries(e: AuditEvent, p: Payload)
    requires e.payload == Kept(p)
    ensures Carries(e, p)
  {
  }

  // ----- what is recorded

  /** The event of a request tells all about it. */
  lemma RequestedEventSays(r: Record, max: nat)
    ensures var e := RequestedEvent(r, max);
            Concerns(e, r.request, Requested, r.revision, r.status) && SaysRequest(e, r.request, max)
  {
    var e := RequestedEvent(r, max);
    assert e.payload == Kept(BasePayload(r) + RequestedExtra(r, max));
    hide BasePayload, RequestedExtra, Kept, Carries, Says, SaysRequest;
    ExtrasAreNew(r, max);
    KeptCarries(e, BasePayload(r) + RequestedExtra(r, max));
    CarriesBoth(e, BasePayload(r), RequestedExtra(r, max));
    BaseIff(e, r);
    RequestIff(e, r, max);
  }

  /** The event of a decision or a consumption tells who, why and when. */
  lemma TransitionEventSays(r: Record, max: nat)
    ensures var e := TransitionEvent(r, max);
            && Concerns(e, r.request, Decided(r.status), r.revision, r.status)
            && SaysDecision(e, r, max) && SaysConsumption(e, r)
  {
    var e := TransitionEvent(r, max);
    assert e.payload == Kept(BasePayload(r) + TransitionExtra(r, max));
    assert TransitionExtra(r, max) == DecisionExtra(r, max) + ConsumptionExtra(r);
    hide BasePayload, TransitionExtra, DecisionExtra, ConsumptionExtra, Kept;
    hide Carries, Says, SaysDecision, SaysConsumption;
    ExtrasAreNew(r, max);
    KeptCarries(e, BasePayload(r) + TransitionExtra(r, max));
    CarriesBoth(e, BasePayload(r), TransitionExtra(r, max));
    CarriesBoth(e, DecisionExtra(r, max), ConsumptionExtra(r));
    BaseIff(e, r);
    DecisionIff(e, r, max);
    ConsumptionIff(e, r);
  }

  // ----- what is checked

  lemma MatchesIff(item: Item, e: AuditEvent)
    requires item.id == EventId(item.approval.request.approvalId, item.approval.revision, item.kind)
    requires item.extra.Keys !! BasePayload(item.approval).Keys
    ensures EventMatches(item, e) <==>
      && Concerns(e, item.approval.request, item.kind, item.approval.revision, item.approval.status)
      && Carries(e, item.extra)
  {
    hide BasePayload, Says;
    CarriesBoth(e, BasePayload(item.approval), item.extra);
    assert Carries(e, BasePayload(item.approval) + item.extra) <==>
      forall key :: key in BasePayload(item.approval) + item.extra ==>
        PayloadValue(e.payload, key) == (BasePayload(item.approval) + item.extra)[key];
    hide Carries, PayloadValue;
    BaseIff(e, item.approval);
  }

  /** What has to be logged for the stage of a record that ends at revision `k`. */
  ghost predicate StageFits(e: AuditEvent, r: Record, k: nat, max: nat) {
    if k == 1 then Concerns(e, r.request, Requested, 1, Pending) && SaysRequest(e, r.request, max)
    else if k == 2 then
      var decision := if r.status == Consumed then Approved else r.status;
      Concerns(e, r.request, Decided(decision), 2, decision) && SaysDecision(e, r, max)
    else Concerns(e, r.request, Decided(Consumed), 3, Consumed) && SaysConsumption(e, r)
  }

  function StageId(r: Record, k: nat): EventId {
    EventId(r.request.approvalId, k,
            if k == 1 then Requested
            else if k == 2 then Decided(if r.status == Consumed then Approved else r.status)
            else Decided(Consumed))
  }

  /** The number of events that a record calls for. */
  function Stages(r: Record): nat {
    if r.status == Consumed then 3 else if r.revision >= 2 then 2 else 1
  }

  /** A record as the store makes them. */
  predicate Plausible(r: Record) {
    1 <= r.revision <= 3 && (r.revision >= 2 ==> r.status != Pending) && (r.status == Consumed ==> r.revision == 3)
  }

  lemma ExpectedStages(r: Record, max: nat)
    requires Plausible(r)
    ensures |ExpectedLifecycle(r, max)| == Stages(r)
    ensures forall i :: 0 <= i < Stages(r) ==> ExpectedLifecycle(r, max)[i].id == StageId(r, i + 1)
  {
    hide RequestedExtra, DecisionExtra, ConsumptionExtra;
  }

  lemma StageMatchesIff(r: Record, i: nat, e: AuditEvent, max: nat)
    requires Plausible(r) && i < Stages(r) && i < |ExpectedLifecycle(r, max)|
    ensures EventMatches(ExpectedLifecycle(r, max)[i], e) <==> StageFits(e, r, i + 1, max)
  {
    var item := ExpectedLifecycle(r, max)[i];
    ItemsFit(r, max);
    ExtrasAreNew(item.approval, max);
    assert TransitionExtra(item.approval, max).Keys
        == DecisionExtra(item.approval, max).Keys + ConsumptionExtra(item.approval).Keys;
    StageExtra(r, i, max);
    hide EventMatches, Concerns, Carries, SaysRequest, SaysDecision, SaysConsumption, BasePayload;
    hide RequestedExtra, DecisionExtra, ConsumptionExtra;
    MatchesIff(item, e);
    RequestIff(e, item.approval, max);
    DecisionIff(e, item.approval, max);
    ConsumptionIff(e, item.approval);
    SameSaid(e, item.approval, r, max);
  }

  lemma StageExtra(r: Record, i: nat, max: nat)
    requires Plausible(r) && i < Stages(r) && i < |ExpectedLifecycle(r, max)|
    ensures var item := ExpectedLifecycle(r, max)[i];
            && item.extra == (if i == 0 then RequestedExtra(item.approval, max)
                              else if i == 1 then DecisionExtra(item.approval, max)
                              else ConsumptionExtra(item.approval))
            && item.approval.request == r.request
            && item.approval.decisionBy == r.decisionBy && item.approval.decisionReason == r.decisionReason
            && item.approval.consumedAt == r.consumedAt
            && item.kind == StageId(r, i + 1).kind && item.approval.revision == i + 1
            && item.approval.status == (if i == 0 then Pending
                                        else if i == 1 && r.status == Consumed then Approved
                                        else if i == 1 then r.status else Consumed)
  {
    hide Sanitize, Summarize, OptionalText, ReasonText, OptionalNumber;
  }

  lemma SameSaid(e: AuditEvent, a: Record, b: Record, max: nat)
    requires a.request == b.request && a.decisionBy == b.decisionBy && a.decisionReason == b.decisionReason
    requires a.consumedAt == b.consumedAt
    ensures SaysDecision(e, a, max) <==> SaysDecision(e, b, max)
    ensures SaysConsumption(e, a) <==> SaysConsumption(e, b)
  {
    hide Says, SaysCleaned;
  }

  // ----- corruption is found

  /** The loop stops at the first logged event that does not match. */
  lemma {:induction false} MismatchAborts(log: Log, items: seq<Item>, i: nat)
    requires DistinctItems(items) && OwnIds(items) && i < |items|
    requires items[i].id in log && !EventMatches(items[i], log[items[i].id])
    requires forall j :: 0 <= j < i && items[j].id in log ==> EventMatches(items[j], log[items[j].id])
    ensures ReconcileItems(log, items).Aborted? && ReconcileItems(log, items).error == Corruption(items[i].id)
    decreases |items|
  {
    hide EventMatches, EventOf;
    if i > 0 {
      var item, rest := items[0], items[1..];
      var e := EventOf(item.kind, item.approval, item.extra);
      EventIdOf(item);
      var log' := if item.id in log then log else log[e.id := e];
      assert rest[i - 1] == items[i] && items[i].id != item.id;
      forall j | 0 <= j < i - 1 && rest[j].id in log' ensures EventMatches(rest[j], log'[rest[j].id]) {
        assert rest[j] == items[j + 1] && items[j + 1].id != item.id;
      }
      MismatchAborts(log', rest, i - 1);
    }
  }

  lemma EventIdOf(item: Item)
    requires item.id == EventId(item.approval.request.approvalId, item.approval.revision, item.kind)
    ensures EventOf(item.kind, item.approval, item.extra).id == item.id
  {
  }

  lemma {:induction false} FirstMismatch(log: Log, items: seq<Item>) returns (i: nat)
    requires exists j :: 0 <= j < |items| && items[j].id in log && !EventMatches(items[j], log[items[j].id])
    ensures i < |items| && items[i].id in log && !EventMatches(items[i], log[items[i].id])
    ensures forall j :: 0 <= j < i && items[j].id in log ==> EventMatches(items[j], log[items[j].id])
  {
    hide EventMatches;
    i := 0;
    while !(items[i].id in log && !EventMatches(items[i], log[items[i].id]))
      invariant i < |items|
      invariant forall j :: 0 <= j < i && items[j].id in log ==> EventMatches(items[j], log[items[j].id])
      decreases |items| - i
    {
      i := i + 1;
    }
  }

  /** Reconciliation lets no event pass that is logged for a stage and says anything else than
      the record: it aborts exactly then, naming a stage where that is so. */
  lemma AbortsIff(log: Log, r: Record, max: nat)
    requires Plausible(r)
    ensures var out := Reconcile(log, r, max);
            && (out.Aborted? <==> exists k: nat :: Contradicted(log, r, k, max))
            && (out.Aborted? ==>
                  exists k: nat :: Contradicted(log, r, k, max) && out.error == Corruption(StageId(r, k)))
  {
    var items := ExpectedLifecycle(r, max);
    ItemsFit(r, max);
    ExpectedStages(r, max);
    hide ExpectedLifecycle, EventMatches, StageFits, DistinctItems, OwnIds, ReconcileItems;
    forall i | 0 <= i < |items| && items[i].id in log
      ensures EventMatches(items[i], log[items[i].id]) <==> !Contradicted(log, r, i + 1, max)
    {
      StageMatchesIff(r, i, log[items[i].id], max);
    }
    if exists i :: 0 <= i < |items| && items[i].id in log && !EventMatches(items[i], log[items[i].id]) {
      var i := FirstMismatch(log, items);
      MismatchAborts(log, items, i);
      assert Contradicted(log, r, i + 1, max);
    } else {
      RepairsMissing(log, items);
      forall k: nat | 1 <= k <= |items| ensures !Contradicted(log, r, k, max) {
        assert items[k - 1].id == StageId(r, k);
      }
    }
  }

  /** What is logged for the stage does not fit the record. */
  ghost predicate Contradicted(log: Log, r: Record, k: nat, max: nat) {
    1 <= k <= Stages(r) && StageId(r, k) in log && !StageFits(log[StageId(r, k)], r, k, max)
  }
}
