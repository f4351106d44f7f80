/** The audit trail of approvals and its repair after a crash:
    packages/cli/src/core/approvals/ApprovalAudit.ts.  The event log is a map from
    event identifier to event that appends only under new identifiers. */
module ApprovalAudit {
  import opened Wrappers
  import opened Approvals

  datatype EventKind = Requested | Decided(status: Status)

  datatype EventId = EventId(approvalId: ApprovalId, revision: nat, kind: EventKind)

  datatype EvidenceSummary = EvidenceSummary(kind: string, name: string, sensitive: bool)

  datatype Value =
    | Text(s: string)
    | Number(n: int)
    | ScopeValue(scope: Scope)
    | StatusValue(status: Status)
    | Summaries(items: seq<EvidenceSummary>)

  /** A payload key may be present with an undefined value. */
  type Payload = map<string, Option<Value>>

  datatype AuditEvent = AuditEvent(
    id: EventId, kind: EventKind, missionId: string, taskId: string,
    executionId: string, requestId: string, payload: map<string, Value>)

  type Log = map<EventId, AuditEvent>

  datatype Item = Item(id: EventId, kind: EventKind, approval: Record, extra: Payload)

  function Sanitize(s: string, max: nat): string {
    var printable := seq(|s|, i requires 0 <= i < |s| =>
      if s[i] <= '\U{001F}' || s[i] == '\U{007F}' then ' ' else s[i]);
    if |printable| <= max then printable else printable[..max]
  }

  function Summarize(evidence: seq<Evidence>): seq<EvidenceSummary> {
    seq(|evidence|, i requires 0 <= i < |evidence| =>
      EvidenceSummary(evidence[i].kind, evidence[i].name, evidence[i].sensitive))
  }

  function OptionalText(s: Option<string>): Option<Value> {
    if s.Some? then Some(Text(s.value)) else None
  }

  /** A missing or empty reason is left undefined. */
  function ReasonText(s: Option<string>, max: nat): Option<Value> {
    if s.Some? && s.value != "" then Some(Text(Sanitize(s.value, max))) else None
  }

  function OptionalNumber(n: Option<int>): Option<Value> {
    if n.Some? then Some(Number(n.value)) else None
  }

  function BasePayload(r: Record): Payload {
    map["approvalId" := Some(Text(r.request.approvalId)),
        "policyId" := Some(Text(r.request.policyId)),
        "scope" := Some(ScopeValue(r.request.scope)),
        "status" := Some(StatusValue(r.status)),
        "revision" := Some(Number(r.revision))]
  }

  function RequestedExtra(r: Record, max: nat): Payload {
    map["requestedBy" := Some(Text(r.request.requestedBy)),
        "reason" := Some(Text(Sanitize(r.request.reason, max))),
        "evidence" := Some(Summaries(Summarize(r.request.evidence)))]
  }

  function DecisionExtra(r: Record, max: nat): Payload {
    map["decisionBy" := OptionalText(r.decisionBy), "decisionReason" := ReasonText(r.decisionReason, max)]
  }

  function ConsumptionExtra(r: Record): Payload {
    map["consumedAt" := OptionalNumber(r.consumedAt)]
  }

  function TransitionExtra(r: Record, max: nat): Payload {
    DecisionExtra(r, max) + ConsumptionExtra(r)
  }

  /** What the log keeps of a payload: undefined values are dropped. */
  function Kept(p: Payload): map<string, Value> {
    map k | k in p && p[k].Some? :: p[k].value
  }

  /** The event that `append` writes. */
  function EventOf(kind: EventKind, r: Record, extra: Payload): AuditEvent {
    AuditEvent(EventId(r.request.approvalId, r.revision, kind), kind, r.request.missionId, r.request.taskId,
               r.request.executionId, r.request.requestId, Kept(BasePayload(r) + extra))
  }

  function RequestedEvent(r: Record, max: nat): AuditEvent {
    EventOf(Requested, r, RequestedExtra(r, max))
  }

  function TransitionEvent(r: Record, max: nat): AuditEvent {
    EventOf(Decided(r.status), r, TransitionExtra(r, max))
  }

  datatype AuditError =
    | RequiresPending
    | AlreadyLogged(id: EventId)
    | CorrelationMismatch
    | RevisionMismatch
    | InvalidTransition
    | UnsupportedRevision(revision: nat)
    | PendingTransition
    | Corruption(id: EventId)

  /** expectedLifecycle: the events that a record in this state should have left. */
  function ExpectedLifecycle(r: Record, max: nat): seq<Item>
    requires 1 <= r.revision <= 3 && (r.revision >= 2 ==> r.status != Pending)
  {
    var id := r.request.approvalId;
    var requested := r.(status := Pending, revision := 1);
    var decision := if r.status.Consumed? then Approved else r.status;
    var decided := r.(status := decision, revision := 2);
    [Item(EventId(id, 1, Requested), Requested, requested, RequestedExtra(r, max))]
    + (if r.revision >= 2
       then [Item(EventId(id, 2, Decided(decision)), Decided(decision), decided, DecisionExtra(decided, max))]
       else [])
    + (if r.status.Consumed?
       then [Item(EventId(id, 3, Decided(Consumed)), Decided(Consumed), r, ConsumptionExtra(r))]
       else [])
  }

  function PayloadValue(p: map<string, Value>, key: string): Option<Value> {
    if key in p then Some(p[key]) else None
  }

  /** assertEventMatches: identity, correlation and every expected payload key. */
  predicate EventMatches(item: Item, e: AuditEvent) {
    var expected := BasePayload(item.approval) + item.extra;
    && e.id == item.id && e.kind == item.kind
    && e.missionId == item.approval.request.missionId && e.taskId == item.approval.request.taskId
    && e.executionId == item.approval.request.executionId && e.requestId == item.approval.request.requestId
    && forall key :: key in expected ==> PayloadValue(e.payload, key) == expected[key]
  }

  datatype Reconciliation =
    | Reconciled(log: Log, repaired: seq<EventId>, present: nat)
    | Aborted(log: Log, error: AuditError)

  /** The repair loop. */
  function ReconcileItems(log: Log, items: seq<Item>): Reconciliation
    decreases |items|
  {
    if items == [] then Reconciled(log, [], 0)
    else
      var item := items[0];
      if item.id in log then
        if EventMatches(item, log[item.id]) then
          match ReconcileItems(log, items[1..])
          case Reconciled(log', repaired, present) => Reconciled(log', repaired, present + 1)
          case Aborted(log', error) => Aborted(log', error)
        else Aborted(log, Corruption(item.id))
      else
        var e := EventOf(item.kind, item.approval, item.extra);
        if e.id in log then Aborted(log, AlreadyLogged(e.id))
        else
          match ReconcileItems(log[e.id := e], items[1..])
          case Reconciled(log', repaired, present) => Reconciled(log', [item.id] + repaired, present)
          case Aborted(log', error) => Aborted(log', error)
  }

  function Reconcile(log: Log, r: Record, max: nat): Reconciliation {
    if r.revision < 1 || r.revision > 3 then Aborted(log, UnsupportedRevision(r.revision))
    else if r.revision >= 2 && r.status.Pending? then Aborted(log, PendingTransition)
    else ReconcileItems(log, ExpectedLifecycle(r, max))
  }

  // ----- lifecycles

  /** The record after some transitions of a new one. */
  function RecordAfter(q: Request, ts: seq<Transition>): Record {
    if ts == [] then NewRecord(q) else Applied(RecordAfter(q, ts[..|ts| - 1]), ts[|ts| - 1])
  }

  ghost predicate LegalLife(q: Request, ts: seq<Transition>) {
    forall k :: 0 <= k < |ts| ==> Allowed(RecordAfter(q, ts[..k]).status, ts[k])
  }

  /** The event recorded for the latest stage of a life. */
  function LatestEvent(q: Request, ts: seq<Transition>, max: nat): AuditEvent {
    if ts == [] then RequestedEvent(NewRecord(q), max) else TransitionEvent(RecordAfter(q, ts), max)
  }

  /** What has to be on record about the latest stage of a life. */
  function LatestItem(q: Request, ts: seq<Transition>, max: nat): Item {
    var r := RecordAfter(q, ts);
    var kind := if ts == [] then Requested else Decided(r.status);
    Item(EventId(q.approvalId, r.revision, kind), kind, r,
         if ts == [] then RequestedExtra(r, max)
         else if r.status.Consumed? then ConsumptionExtra(r)
         else DecisionExtra(r, max))
  }

  /** The same for the k-th stage. */
  function StageItem(q: Request, ts: seq<Transition>, k: nat, max: nat): Item
    requires k <= |ts|
  {
    LatestItem(q, ts[..k], max)
  }

  /** Nothing but an expiry after an approval goes wrong. */
  predicate ApprovedThenExpired(ts: seq<Transition>) {
    |ts| == 2 && ts[0].Approve? && ts[1].Expire?
  }

  lemma TwoSteps(q: Request, s: Transition, t: Transition)
    ensures RecordAfter(q, [s]) == Applied(NewRecord(q), s)
    ensures RecordAfter(q, [s, t]) == Applied(Applied(NewRecord(q), s), t)
  {
    assert [s][..0] == [] && [s, t][..1] == [s];
  }

  /** The store only ever holds records with a legal life. */
  lemma StoreKeepsLives(store: Store, id: ApprovalId, t: Transition, expected: Option<nat>, ts: seq<Transition>)
    requires TransitionTo(store, id, t, expected).Done?
    requires LegalLife(store[id].request, ts) && store[id] == RecordAfter(store[id].request, ts)
    ensures LegalLife(store[id].request, ts + [t])
    ensures TransitionTo(store, id, t, expected).record == RecordAfter(store[id].request, ts + [t])
  {
    var q, longer := store[id].request, ts + [t];
    assert longer[..|ts|] == ts;
    forall k | 0 <= k < |longer| ensures Approvals.Allowed(RecordAfter(q, longer[..k]).status, longer[k]) {
      if k < |ts| {
        assert longer[..k] == ts[..k];
      }
    }
  }

  /** A life has at most two transitions after the request. */
  lemma LivesAreShort(q: Request, ts: seq<Transition>)
    requires LegalLife(q, ts)
    ensures |ts| <= 2
    ensures |ts| == 2 ==> ts[0].Approve? && (ts[1].Consume? || ts[1].Expire?)
    ensures RecordAfter(q, ts).revision == |ts| + 1
    ensures RecordAfter(q, ts).status == if ts == [] then Pending else ts[|ts| - 1].Target()
  {
    assert |ts| >= 3 ==> Approvals.Allowed(RecordAfter(q, ts[..2]).status, ts[2]);
    if |ts| >= 1 {
      assert ts[..0] == [] && ts[..1] == [ts[0]];
      assert Approvals.Allowed(RecordAfter(q, ts[..0]).status, ts[0]);
      TwoSteps(q, ts[0], ts[0]);
    }
    if |ts| >= 2 {
      assert ts[..2] == [ts[0], ts[1]];
      TwoSteps(q, ts[0], ts[1]);
      assert Approvals.Allowed(RecordAfter(q, ts[..1]).status, ts[1]);
    }
    assert ts[..|ts|] == ts;
  }

  // ----- reconciliation

  ghost predicate DistinctItems(items: seq<Item>) {
    forall i, j :: 0 <= i < j < |items| ==> items[i].id != items[j].id
  }

  /** Whatever is logged under an expected identifier is what is expected there. */
  ghost predicate LogMatches(log: Log, items: seq<Item>) {
    forall i :: 0 <= i < |items| && items[i].id in log ==> EventMatches(items[i], log[items[i].id])
  }

  ghost predicate OwnIds(items: seq<Item>) {
    forall i :: 0 <= i < |items| ==>
      items[i].id == EventId(items[i].approval.request.approvalId, items[i].approval.revision, items[i].kind)
  }

  ghost function Missing(log: Log, items: seq<Item>): seq<EventId> {
    if items == [] then []
    else (if items[0].id in log then [] else [items[0].id]) + Missing(log, items[1..])
  }

  ghost function Ids(items: seq<Item>): set<EventId> {
    set i | i in items :: i.id
  }

  /** The event that a repair writes is what a later reconciliation expects. */
  lemma RepairMatches(item: Item)
    requires item.id == EventId(item.approval.request.approvalId, item.approval.revision, item.kind)
    ensures EventMatches(item, EventOf(item.kind, item.approval, item.extra))
    ensures EventOf(item.kind, item.approval, item.extra).id == item.id
  {
    var expected := BasePayload(item.approval) + item.extra;
    forall key | key in expected ensures PayloadValue(Kept(expected), key) == expected[key] {
    }
  }

  lemma {:induction false} MissingElsewhere(log: Log, id: EventId, e: AuditEvent, items: seq<Item>)
    requires forall i :: 0 <= i < |items| ==> items[i].id != id
    ensures Missing(log[id := e], items) == Missing(log, items)
  {
    if items != [] {
      MissingElsewhere(log, id, e, items[1..]);
    }
  }

  /** The loop finished without reporting corruption, repaired exactly what was missing,
      in order, and left everything else in the log alone. */
  ghost predicate RepairedTo(log: Log, items: seq<Item>, out: Reconciliation) {
    && out.Reconciled?
    && out.repaired == Missing(log, items) && out.present + |out.repaired| == |items|
    && out.log.Keys == log.Keys + Ids(items)
    && (forall id :: id in log ==> id in out.log && out.log[id] == log[id])
    && LogMatches(out.log, items)
  }

  lemma KeepPresent(log: Log, items: seq<Item>, rest: Reconciliation)
    requires items != [] && items[0].id in log && LogMatches(log, items)
    requires RepairedTo(log, items[1..], rest)
    ensures RepairedTo(log, items, Reconciled(rest.log, rest.repaired, rest.present + 1))
  {
    hide EventMatches;
    assert Ids(items) == {items[0].id} + Ids(items[1..]);
    assert rest.log.Keys == log.Keys + Ids(items);
    HeadMatches(rest.log, items);
  }

  lemma AddAbsent(log: Log, e: AuditEvent, items: seq<Item>, rest: Reconciliation)
    requires items != [] && items[0].id !in log && DistinctItems(items)
    requires EventMatches(items[0], e)
    requires RepairedTo(log[items[0].id := e], items[1..], rest)
    ensures RepairedTo(log, items, Reconciled(rest.log, [items[0].id] + rest.repaired, rest.present))
  {
    hide EventMatches;
    var log' := log[items[0].id := e];
    MissingElsewhere(log, items[0].id, e, items[1..]);
    assert Ids(items) == {items[0].id} + Ids(items[1..]);
    assert rest.log.Keys == log.Keys + Ids(items);
    HeadMatches(rest.log, items);
    assert forall id :: id in log ==> id in log';
  }

  lemma HeadMatches(log: Log, items: seq<Item>)
    requires items != [] && LogMatches(log, items[1..])
    requires items[0].id in log && EventMatches(items[0], log[items[0].id])
    ensures LogMatches(log, items)
  {
    hide EventMatches;
    forall i | 0 <= i < |items| && items[i].id in log ensures EventMatches(items[i], log[items[i].id]) {
      assert i > 0 ==> items[i] == items[1..][i - 1];
    }
  }

  /** The rest of the items fits both the log and the log with the first one added. */
  lemma TailFits(log: Log, e: AuditEvent, items: seq<Item>)
    requires items != [] && DistinctItems(items) && OwnIds(items) && LogMatches(log, items)
    ensures DistinctItems(items[1..]) && OwnIds(items[1..])
    ensures LogMatches(log, items[1..]) && LogMatches(log[items[0].id := e], items[1..])
  {
    hide EventMatches;
    assert forall i :: 0 <= i < |items[1..]| ==> items[1..][i] == items[i + 1];
  }

  lemma HeadFits(log: Log, items: seq<Item>)
    requires items != [] && OwnIds(items) && LogMatches(log, items)
    ensures items[0].id in log ==> EventMatches(items[0], log[items[0].id])
    ensures EventMatches(items[0], EventOf(items[0].kind, items[0].approval, items[0].extra))
    ensures EventOf(items[0].kind, items[0].approval, items[0].extra).id == items[0].id
  {
    RepairMatches(items[0]);
    hide EventMatches, EventOf;
  }

  lemma {:induction false} RepairsMissing(log: Log, items: seq<Item>)
    requires DistinctItems(items) && OwnIds(items) && LogMatches(log, items)
    ensures RepairedTo(log, items, ReconcileItems(log, items))
    decreases |items|
  {
    if items != [] {
      hide EventMatches, EventOf, Missing, Ids, DistinctItems, OwnIds, LogMatches;
      var item, rest := items[0], items[1..];
      var e := EventOf(item.kind, item.approval, item.extra);
      HeadFits(log, items);
      TailFits(log, e, items);
      if item.id in log {
        RepairsMissing(log, rest);
        KeepPresent(log, items, ReconcileItems(log, rest));
      } else {
        RepairsMissing(log[item.id := e], rest);
        AddAbsent(log, e, items, ReconcileItems(log[item.id := e], rest));
      }
    }
  }

  lemma {:induction false} MissingIff(log: Log, items: seq<Item>, id: EventId)
    ensures id in Missing(log, items) <==> id in Ids(items) && id !in log
  {
    if items != [] {
      MissingIff(log, items[1..], id);
      assert Ids(items) == {items[0].id} + Ids(items[1..]);
    }
  }

  lemma {:induction false} NothingMissing(log: Log, items: seq<Item>)
    requires Ids(items) <= log.Keys
    ensures Missing(log, items) == []
  {
    if items != [] {
      assert items[0].id in Ids(items) && Ids(items[1..]) <= Ids(items);
      NothingMissing(log, items[1..]);
    }
  }

  /** A second pass over a repaired log finds everything in place. */
  lemma SecondPassIsIdle(log: Log, items: seq<Item>)
    requires DistinctItems(items) && OwnIds(items) && LogMatches(log, items)
    requires Ids(items) <= log.Keys
    ensures ReconcileItems(log, items) == Reconciled(log, [], |items|)
  {
    hide EventMatches, LogMatches, ReconcileItems;
    RepairsMissing(log, items);
    var out := ReconcileItems(log, items);
    NothingMissing(log, items);
    assert out.log == log;
  }

  // ----- what the log says about one approval

  ghost predicate IsStage(q: Request, ts: seq<Transition>, max: nat, id: EventId) {
    exists k :: 0 <= k <= |ts| && StageItem(q, ts, k, max).id == id
  }

  ghost function StageIds(q: Request, ts: seq<Transition>, max: nat): set<EventId> {
    set k | 0 <= k <= |ts| :: StageItem(q, ts, k, max).id
  }

  /** Some of the stages of a life are on record, and nothing else about that approval. */
  ghost predicate PartlyRecorded(log: Log, q: Request, ts: seq<Transition>, max: nat) {
    && (forall k :: 0 <= k <= |ts| && StageItem(q, ts, k, max).id in log
          ==> EventMatches(StageItem(q, ts, k, max), log[StageItem(q, ts, k, max).id]))
    && (forall id :: id in log && id.approvalId == q.approvalId ==> IsStage(q, ts, max, id))
  }

  /** Two items that the same events match. */
  predicate SameItem(a: Item, b: Item) {
    && a.id == b.id && a.kind == b.kind && a.extra == b.extra
    && a.approval.request == b.approval.request
    && a.approval.status == b.approval.status && a.approval.revision == b.approval.revision
  }

  lemma SameItemsMatchAlike(a: Item, b: Item, e: AuditEvent)
    requires SameItem(a, b)
    ensures EventMatches(a, e) <==> EventMatches(b, e)
  {
    assert BasePayload(a.approval) == BasePayload(b.approval);
  }

  /** The items that a record's state calls for are the stages of its life. */
  ghost predicate ItemsAreStages(items: seq<Item>, q: Request, ts: seq<Transition>, max: nat) {
    && |items| == |ts| + 1
    && forall k :: 0 <= k < |items| ==> SameItem(items[k], StageItem(q, ts, k, max))
  }

  lemma {:induction false} SameRequest(q: Request, ts: seq<Transition>)
    ensures RecordAfter(q, ts).request == q
    decreases |ts|
  {
    if ts != [] {
      SameRequest(q, ts[..|ts| - 1]);
    }
  }

  lemma ItemsOfLife(q: Request, ts: seq<Transition>, max: nat)
    requires LegalLife(q, ts) && !ApprovedThenExpired(ts)
    ensures RecordAfter(q, ts).revision == |ts| + 1 <= 3 && (|ts| >= 1 ==> RecordAfter(q, ts).status != Pending)
    ensures ItemsAreStages(ExpectedLifecycle(RecordAfter(q, ts), max), q, ts, max)
  {
    LivesAreShort(q, ts);
    SameRequest(q, ts);
    var r := RecordAfter(q, ts);
    SameExtras(r, NewRecord(q), max);
    assert ts[..0] == [];
    if |ts| == 0 {
      hide LegalLife, RequestedExtra, DecisionExtra, ConsumptionExtra;
    } else if |ts| == 1 {
      assert ts[..1] == ts;
      SameExtras(r, r.(status := r.status, revision := 2), max);
      hide LegalLife, RequestedExtra, DecisionExtra, ConsumptionExtra;
    } else {
      assert ts == [ts[0], ts[1]] && ts[..1] == [ts[0]] && ts[..2] == ts;
      TwoSteps(q, ts[0], ts[1]);
      SameExtras(r.(status := Approved, revision := 2), RecordAfter(q, ts[..1]), max);
      hide LegalLife, RequestedExtra, DecisionExtra, ConsumptionExtra;
    }
  }

  /** What is recorded of the request and of the decision depends on them only. */
  lemma SameExtras(a: Record, b: Record, max: nat)
    requires a.request == b.request
    ensures RequestedExtra(a, max) == RequestedExtra(b, max)
    ensures a.decisionBy == b.decisionBy && a.decisionReason == b.decisionReason ==>
      DecisionExtra(a, max) == DecisionExtra(b, max)
  {
  }

  lemma ItemsFit(r: Record, max: nat)
    requires 1 <= r.revision <= 3 && (r.revision >= 2 ==> r.status != Pending)
    requires r.status.Consumed? ==> r.revision == 3
    ensures OwnIds(ExpectedLifecycle(r, max)) && DistinctItems(ExpectedLifecycle(r, max))
  {
    hide Sanitize, Summarize;
  }

  lemma StagesMatch(log: Log, items: seq<Item>, q: Request, ts: seq<Transition>, max: nat)
    requires ItemsAreStages(items, q, ts, max) && PartlyRecorded(log, q, ts, max)
    ensures LogMatches(log, items)
  {
    hide EventMatches, StageItem;
    forall i | 0 <= i < |items| && items[i].id in log ensures EventMatches(items[i], log[items[i].id]) {
      SameItemsMatchAlike(items[i], StageItem(q, ts, i, max), log[items[i].id]);
    }
  }

  lemma IdsAreStages(items: seq<Item>, q: Request, ts: seq<Transition>, max: nat)
    requires ItemsAreStages(items, q, ts, max)
    ensures Ids(items) == StageIds(q, ts, max)
  {
    hide EventMatches, StageItem;
    forall id | id in StageIds(q, ts, max) ensures id in Ids(items) {
      var k :| 0 <= k <= |ts| && id == StageItem(q, ts, k, max).id;
      assert items[k] in items;
    }
  }

  lemma StagesStayMatched(log: Log, items: seq<Item>, q: Request, ts: seq<Transition>, max: nat)
    requires ItemsAreStages(items, q, ts, max) && LogMatches(log, items)
    requires forall id :: id in log && id.approvalId == q.approvalId ==> id in StageIds(q, ts, max)
    ensures PartlyRecorded(log, q, ts, max)
  {
    hide EventMatches, StageItem;
    forall k | 0 <= k <= |ts| && StageItem(q, ts, k, max).id in log
      ensures EventMatches(StageItem(q, ts, k, max), log[StageItem(q, ts, k, max).id])
    {
      SameItemsMatchAlike(items[k], StageItem(q, ts, k, max), log[items[k].id]);
    }
  }

  /** Reconciling after a crash, on any life but one that was approved and then expired:
      the events that were lost are recorded again, nothing else is touched, and doing it
      again changes nothing. */
  lemma CrashRepair(log: Log, q: Request, ts: seq<Transition>, max: nat)
    requires LegalLife(q, ts) && !ApprovedThenExpired(ts) && PartlyRecorded(log, q, ts, max)
    ensures var r := RecordAfter(q, ts); var out := Reconcile(log, r, max);
            && out.Reconciled?
            && out.log.Keys == log.Keys + StageIds(q, ts, max)
            && (forall id :: id in log ==> out.log[id] == log[id])
            && (forall id :: id in out.repaired <==> id in StageIds(q, ts, max) && id !in log)
            && out.present + |out.repaired| == |ts| + 1
            && PartlyRecorded(out.log, q, ts, max)
            && Reconcile(out.log, r, max) == Reconciled(out.log, [], |ts| + 1)
  {
    ItemsOfLife(q, ts, max);
    LivesAreShort(q, ts);
    var r := RecordAfter(q, ts);
    var items := ExpectedLifecycle(r, max);
    ItemsFit(r, max);
    StagesMatch(log, items, q, ts, max);
    IdsAreStages(items, q, ts, max);
    RecordedAreStages(log, q, ts, max);
    hide ExpectedLifecycle, EventMatches, StageItem, LegalLife, ReconcileItems, PartlyRecorded, StageIds, OwnIds,
      DistinctItems;
    RepairsMissing(log, items);
    var out := ReconcileItems(log, items);
    forall id ensures id in out.repaired <==> id in StageIds(q, ts, max) && id !in log {
      MissingIff(log, items, id);
    }
    StagesStayMatched(out.log, items, q, ts, max);
    SecondPassIsIdle(out.log, items);
  }

  lemma RecordedAreStages(log: Log, q: Request, ts: seq<Transition>, max: nat)
    requires PartlyRecorded(log, q, ts, max)
    ensures forall id :: id in log && id.approvalId == q.approvalId ==> id in StageIds(q, ts, max)
  {
    hide EventMatches, StageItem;
  }

  // ----- histories with crashes

  /** A transition reaches the store first; its event follows unless the process dies in
      between.  A restart reconciles the log. */
  datatype AuditStep = Commit(t: Transition, recorded: bool) | Restart

  datatype Trail = Trail(life: seq<Transition>, log: Log)

  function Took(s: Trail, step: AuditStep, q: Request, max: nat): Trail {
    match step
    case Commit(t, recorded) =>
      var e := LatestEvent(q, s.life + [t], max);
      Trail(s.life + [t], if recorded then s.log[e.id := e] else s.log)
    case Restart =>
      Trail(s.life, Reconcile(s.log, RecordAfter(q, s.life), max).log)
  }

  function TrailAfter(log: Log, steps: seq<AuditStep>, q: Request, max: nat): Trail {
    if steps == [] then Trail([], log)
    else Took(TrailAfter(log, steps[..|steps| - 1], q, max), steps[|steps| - 1], q, max)
  }

  ghost predicate LegalTrail(log: Log, steps: seq<AuditStep>, q: Request, max: nat) {
    forall k :: 0 <= k < |steps| && steps[k].Commit? ==>
      Allowed(RecordAfter(q, TrailAfter(log, steps[..k], q, max).life).status, steps[k].t)
  }

  lemma StageRevision(q: Request, ts: seq<Transition>, k: nat, max: nat)
    requires LegalLife(q, ts) && k <= |ts|
    ensures StageItem(q, ts, k, max).id.revision == k + 1
  {
    assert forall j :: 0 <= j < k ==> ts[..k][..j] == ts[..j];
    LivesAreShort(q, ts[..k]);
  }

  lemma LatestIsMatched(q: Request, ts: seq<Transition>, max: nat)
    ensures LatestEvent(q, ts, max).id == LatestItem(q, ts, max).id
    ensures EventMatches(LatestItem(q, ts, max), LatestEvent(q, ts, max))
  {
    SameRequest(q, ts);
    var r, item := RecordAfter(q, ts), LatestItem(q, ts, max);
    ExtrasAreNew(r, max);
    assert ts == [] ==> r == NewRecord(q);
    hide ReasonText, Sanitize, Summarize, RecordAfter, BasePayload, RequestedExtra, DecisionExtra, ConsumptionExtra;
    if ts == [] {
      KeepsExpected(item, RequestedExtra(r, max), LatestEvent(q, ts, max));
    } else {
      KeepsExpected(item, TransitionExtra(r, max), LatestEvent(q, ts, max));
    }
  }

  /** Payload keys are told apart by their first letters and lengths. */
  predicate IsBaseKey(key: string) {
    key != "" && (key[0] == 'a' || key[0] == 'p' || key[0] == 's' || (key[0] == 'r' && |key| == 8))
  }

  lemma BaseKeys(r: Record)
    ensures forall key :: key in BasePayload(r) ==> IsBaseKey(key)
  {
  }

  lemma RequestedKeys(r: Record, max: nat)
    ensures forall key :: key in RequestedExtra(r, max) ==> !IsBaseKey(key)
  {
    hide Sanitize, Summarize;
  }

  lemma TransitionKeys(r: Record, max: nat)
    ensures forall key :: key in DecisionExtra(r, max) ==> !IsBaseKey(key) && key !in ConsumptionExtra(r)
    ensures forall key :: key in ConsumptionExtra(r) ==> !IsBaseKey(key)
  {
    hide ReasonText, OptionalText, OptionalNumber;
    assert forall key :: key in DecisionExtra(r, max) ==> |key| >= 10 && key[0] == 'd';
    assert forall key :: key in ConsumptionExtra(r) ==> |key| >= 10 && key[0] == 'c';
  }

  lemma ExtrasAreNew(r: Record, max: nat)
    ensures RequestedExtra(r, max).Keys !! BasePayload(r).Keys
    ensures TransitionExtra(r, max).Keys !! BasePayload(r).Keys
    ensures forall key :: key in DecisionExtra(r, max) ==> key !in ConsumptionExtra(r)
  {
    hide RequestedExtra, BasePayload, DecisionExtra, ConsumptionExtra, IsBaseKey;
    BaseKeys(r);
    RequestedKeys(r, max);
    TransitionKeys(r, max);
  }

  /** An event matches when its payload was kept from one that covers what is expected. */
  lemma KeepsExpected(item: Item, extra: Payload, e: AuditEvent)
    requires e.id == item.id && e.kind == item.kind
    requires e.missionId == item.approval.request.missionId && e.taskId == item.approval.request.taskId
    requires e.executionId == item.approval.request.executionId && e.requestId == item.approval.request.requestId
    requires e.payload == Kept(BasePayload(item.approval) + extra)
    requires forall key :: key in item.extra ==> key in extra && extra[key] == item.extra[key]
    requires extra.Keys !! BasePayload(item.approval).Keys
    ensures EventMatches(item, e)
  {
    hide BasePayload;
    var expected := BasePayload(item.approval) + item.extra;
    forall key | key in expected ensures PayloadValue(e.payload, key) == expected[key] {
      assert key in BasePayload(item.approval) ==> key !in extra.Keys;
    }
  }

  lemma StagesOfLonger(q: Request, ts: seq<Transition>, t: Transition, max: nat)
    ensures forall k :: 0 <= k <= |ts| ==> StageItem(q, ts + [t], k, max) == StageItem(q, ts, k, max)
    ensures StageItem(q, ts + [t], |ts| + 1, max) == LatestItem(q, ts + [t], max)
  {
    hide LatestItem;
    assert forall k :: 0 <= k <= |ts| ==> (ts + [t])[..k] == ts[..k];
    assert (ts + [t])[..|ts| + 1] == ts + [t];
  }

  lemma LongerLife(q: Request, ts: seq<Transition>, t: Transition)
    requires LegalLife(q, ts) && Allowed(RecordAfter(q, ts).status, t)
    ensures LegalLife(q, ts + [t])
  {
    var longer := ts + [t];
    forall k | 0 <= k < |longer| ensures Approvals.Allowed(RecordAfter(q, longer[..k]).status, longer[k]) {
      assert k < |ts| ==> longer[..k] == ts[..k];
      assert k == |ts| ==> longer[..k] == ts;
    }
  }

  /** A committed transition keeps the log partly recorded, whether or not its event made
      it to the log; its event identifier is new, so recording it cannot collide. */
  lemma CommitKeepsTrail(log: Log, q: Request, ts: seq<Transition>, t: Transition, max: nat)
    requires LegalLife(q, ts) && Allowed(RecordAfter(q, ts).status, t) && PartlyRecorded(log, q, ts, max)
    ensures var e := LatestEvent(q, ts + [t], max);
            && e.id !in log
            && PartlyRecorded(log, q, ts + [t], max)
            && PartlyRecorded(log[e.id := e], q, ts + [t], max)
  {
    var longer, e := ts + [t], LatestEvent(q, ts + [t], max);
    LongerLife(q, ts, t);
    LatestIsMatched(q, longer, max);
    SameRequest(q, longer);
    StagesOfLonger(q, ts, t, max);
    forall k | 0 <= k <= |longer| ensures StageItem(q, longer, k, max).id.revision == k + 1 {
      StageRevision(q, longer, k, max);
    }
    NewStage(log, e, q, ts, t, max);
  }

  lemma NewStage(log: Log, e: AuditEvent, q: Request, ts: seq<Transition>, t: Transition, max: nat)
    requires PartlyRecorded(log, q, ts, max)
    requires forall k :: 0 <= k <= |ts| ==> StageItem(q, ts + [t], k, max) == StageItem(q, ts, k, max)
    requires forall k :: 0 <= k <= |ts| + 1 ==> StageItem(q, ts + [t], k, max).id.revision == k + 1
    requires EventMatches(StageItem(q, ts + [t], |ts| + 1, max), e)
    requires e.id == StageItem(q, ts + [t], |ts| + 1, max).id && e.id.approvalId == q.approvalId
    ensures e.id !in log
    ensures PartlyRecorded(log, q, ts + [t], max) && PartlyRecorded(log[e.id := e], q, ts + [t], max)
  {
    hide EventMatches, StageItem;
    var longer := ts + [t];
    forall id | id in log && id.approvalId == q.approvalId
      ensures id.revision <= |ts| + 1 && IsStage(q, longer, max, id)
    {
      var k :| 0 <= k <= |ts| && StageItem(q, ts, k, max).id == id;
      assert StageItem(q, longer, k, max).id == id;
    }
    assert IsStage(q, longer, max, e.id);
  }

  /** No sequence of decisions, crashes and restarts makes the log look corrupt, as long
      as the approval is not approved and then expired: a final reconciliation always ends
      with exactly the events of its life on record. */
  lemma {:induction false} CrashesAreRepaired(log: Log, steps: seq<AuditStep>, q: Request, max: nat)
    requires PartlyRecorded(log, q, [], max) && LegalTrail(log, steps, q, max)
    requires !ApprovedThenExpired(TrailAfter(log, steps, q, max).life)
    ensures var end := TrailAfter(log, steps, q, max);
            var out := Reconcile(end.log, RecordAfter(q, end.life), max);
            && LegalLife(q, end.life) && PartlyRecorded(end.log, q, end.life, max)
            && out.Reconciled?
            && forall id: EventId :: id.approvalId == q.approvalId ==>
              (id in out.log <==> id in StageIds(q, end.life, max))
    decreases |steps|
  {
    var end := TrailAfter(log, steps, q, max);
    if steps != [] {
      var n := |steps| - 1;
      var earlier := TrailAfter(log, steps[..n], q, max);
      LegalEarlier(log, steps, q, max);
      NotExpiredBefore(log, steps, q, max);
      CrashesAreRepaired(log, steps[..n], q, max);
      TakeStep(earlier, steps[n], q, max);
    }
    hide EventMatches, StageItem, LegalTrail, LegalLife, Reconcile, TrailAfter, PartlyRecorded, StageIds;
    CrashRepair(end.log, q, end.life, max);
    RecordedAreStages(end.log, q, end.life, max);
  }

  lemma LegalEarlier(log: Log, steps: seq<AuditStep>, q: Request, max: nat)
    requires steps != [] && LegalTrail(log, steps, q, max)
    ensures LegalTrail(log, steps[..|steps| - 1], q, max)
  {
    var n := |steps| - 1;
    hide TrailAfter, RecordAfter;
    assert forall k :: 0 <= k < n ==> steps[..n][..k] == steps[..k];
  }

  lemma NotExpiredBefore(log: Log, steps: seq<AuditStep>, q: Request, max: nat)
    requires steps != [] && LegalTrail(log, steps, q, max) && !ApprovedThenExpired(TrailAfter(log, steps, q, max).life)
    ensures !ApprovedThenExpired(TrailAfter(log, steps[..|steps| - 1], q, max).life)
  {
    var n := |steps| - 1;
    if steps[n].Commit? {
      ExpiredIsFinal(q, TrailAfter(log, steps[..n], q, max).life, steps[n].t);
    }
  }

  lemma ExpiredIsFinal(q: Request, ts: seq<Transition>, t: Transition)
    ensures ApprovedThenExpired(ts) ==> !Allowed(RecordAfter(q, ts).status, t)
  {
    if |ts| == 2 {
      assert ts == [ts[0], ts[1]];
      TwoSteps(q, ts[0], ts[1]);
    }
  }

  lemma TakeStep(s: Trail, step: AuditStep, q: Request, max: nat)
    requires LegalLife(q, s.life) && PartlyRecorded(s.log, q, s.life, max) && !ApprovedThenExpired(s.life)
    requires step.Commit? ==> Allowed(RecordAfter(q, s.life).status, step.t)
    ensures LegalLife(q, Took(s, step, q, max).life)
    ensures PartlyRecorded(Took(s, step, q, max).log, q, Took(s, step, q, max).life, max)
  {
    hide EventMatches, StageItem, LegalLife, Reconcile, PartlyRecorded, LatestEvent;
    match step
    case Commit(t, _) =>
      LongerLife(q, s.life, t);
      CommitKeepsTrail(s.log, q, s.life, t, max);
    case Restart =>
      CrashRepair(s.log, q, s.life, max);
  }

  // ----- the life that goes wrong

  /** After an approval that then expired, reconciling records an expiry at revision 2
      that never happened, and never restores the one at revision 3 that did. */
  lemma ExpiryAfterApproval(log: Log, q: Request, ts: seq<Transition>, max: nat)
    requires LegalLife(q, ts) && ApprovedThenExpired(ts) && PartlyRecorded(log, q, ts, max)
    ensures var out := Reconcile(log, RecordAfter(q, ts), max);
            var bogus, lost := EventId(q.approvalId, 2, Decided(Expired)), EventId(q.approvalId, 3, Decided(Expired));
            && out.Reconciled?
            && bogus in out.repaired && bogus !in StageIds(q, ts, max)
            && lost in StageIds(q, ts, max) && (lost in out.log <==> lost in log)
  {
    var r := RecordAfter(q, ts);
    var bogus, lost := EventId(q.approvalId, 2, Decided(Expired)), EventId(q.approvalId, 3, Decided(Expired));
    ItemsOfExpired(q, ts, max);
    var items := ExpectedLifecycle(r, max);
    ItemsFit(r, max);
    RecordedAreStages(log, q, ts, max);
    assert items[0].id in log ==> EventMatches(StageItem(q, ts, 0, max), log[StageItem(q, ts, 0, max).id]);
    hide ExpectedLifecycle, EventMatches, StageItem, LegalLife, ReconcileItems, OwnIds, DistinctItems, RecordAfter,
      PartlyRecorded;
    assert bogus !in StageIds(q, ts, max);
    assert lost in StageIds(q, ts, max);
    if items[0].id in log {
      SameItemsMatchAlike(items[0], StageItem(q, ts, 0, max), log[items[0].id]);
    }
    RepairsBoth(log, items, lost);
  }

  lemma RepairsBoth(log: Log, items: seq<Item>, other: EventId)
    requires |items| == 2 && items[1].id !in log && other != items[0].id && other != items[1].id
    requires items[0].id in log ==> EventMatches(items[0], log[items[0].id])
    requires OwnIds(items) && DistinctItems(items)
    ensures var out := ReconcileItems(log, items);
            out.Reconciled? && items[1].id in out.repaired && (other in out.log <==> other in log)
  {
    hide EventMatches, ReconcileItems, OwnIds;
    RepairsMissing(log, items);
    MissingIff(log, items, items[1].id);
    assert items[1] in items;
    assert Ids(items) == {items[0].id, items[1].id};
  }

  lemma ItemsOfExpired(q: Request, ts: seq<Transition>, max: nat)
    requires LegalLife(q, ts) && ApprovedThenExpired(ts)
    ensures RecordAfter(q, ts).revision == 3 && RecordAfter(q, ts).status == Expired
    ensures var items := ExpectedLifecycle(RecordAfter(q, ts), max);
            && |items| == 2 && SameItem(items[0], StageItem(q, ts, 0, max))
            && items[1].id == EventId(q.approvalId, 2, Decided(Expired))
    ensures StageItem(q, ts, 0, max).id == EventId(q.approvalId, 1, Requested)
    ensures StageItem(q, ts, 1, max).id == EventId(q.approvalId, 2, Decided(Approved))
    ensures StageItem(q, ts, 2, max).id == EventId(q.approvalId, 3, Decided(Expired))
  {
    hide ReasonText, Sanitize, Summarize, LegalLife;
    SameRequest(q, ts);
    assert ts == [ts[0], ts[1]] && ts[..0] == [] && ts[..1] == [ts[0]] && ts[..2] == ts;
    TwoSteps(q, ts[0], ts[1]);
  }

  /** So reconciling records exactly the events of a life precisely when that life is not
      an approval followed by an expiry. */
  lemma RepairsExactlyIff(log: Log, q: Request, ts: seq<Transition>, max: nat)
    requires LegalLife(q, ts) && PartlyRecorded(log, q, ts, max)
    ensures var out := Reconcile(log, RecordAfter(q, ts), max);
            (out.Reconciled? && forall id :: id in out.repaired <==> id in StageIds(q, ts, max) && id !in log)
            <==> !ApprovedThenExpired(ts)
  {
    hide EventMatches, StageItem, Reconcile, LegalLife, PartlyRecorded, RecordAfter, StageIds;
    if ApprovedThenExpired(ts) {
      ExpiryAfterApproval(log, q, ts, max);
    } else {
      CrashRepair(log, q, ts, max);
    }
  }

  // ----- the recorder

  datatype Recorded = Logged(event: AuditEvent) | Refused(error: AuditError)

  /** assertTransition. */
  function TransitionError(previous: Record, next: Record): Option<AuditError> {
    var p, n := previous.request, next.request;
    if p.approvalId != n.approvalId || p.missionId != n.missionId || p.taskId != n.taskId
       || p.executionId != n.executionId || p.requestId != n.requestId || p.policyId != n.policyId
    then Some(CorrelationMismatch)
    else if next.revision != previous.revision + 1 then Some(RevisionMismatch)
    else if next.status == previous.status || next.status.Pending? then Some(InvalidTransition)
    else None
  }

  /** The next revision of the same request under the same policy, with another status. */
  ghost predicate Continues(previous: Record, next: Record) {
    && next.request.approvalId == previous.request.approvalId
    && next.request.missionId == previous.request.missionId && next.request.taskId == previous.request.taskId
    && next.request.executionId == previous.request.executionId
    && next.request.requestId == previous.request.requestId && next.request.policyId == previous.request.policyId
    && next.revision == previous.revision + 1 && next.status !in {previous.status, Pending}
  }

  /** Every transition that the store commits passes the recorder's checks. */
  lemma CommittedIsRecordable(store: Store, id: ApprovalId, t: Transition, expected: Option<nat>)
    requires TransitionTo(store, id, t, expected).Done?
    ensures TransitionError(store[id], TransitionTo(store, id, t, expected).record) == None
  {
    TransitionMovesForward(store, id, t, expected);
  }

  class ApprovalAuditRecorder {
    var eventLog: Log
    const maxReasonLength: nat

    /** The maximum defaults to 2048 and is at least 1. */
    constructor (eventLog: Log, maxReasonLength: Option<int>)
      ensures this.eventLog == eventLog
      ensures this.maxReasonLength >= 1
      ensures maxReasonLength == None ==> this.maxReasonLength == 2048
      ensures maxReasonLength.Some? && maxReasonLength.value >= 1 ==> this.maxReasonLength == maxReasonLength.value
    {
      this.eventLog := eventLog;
      var chosen := if maxReasonLength.Some? then maxReasonLength.value else 2048;
      this.maxReasonLength := if chosen < 1 then 1 else chosen;
    }

    method Append(kind: EventKind, approval: Record, extra: Payload) returns (out: Recorded)
      modifies this
      ensures var e := EventOf(kind, approval, extra);
              if e.id in old(eventLog) then out == Refused(AlreadyLogged(e.id)) && eventLog == old(eventLog)
              else out == Logged(e) && eventLog == old(eventLog)[e.id := e]
    {
      var e := EventOf(kind, approval, extra);
      if e.id in eventLog {
        return Refused(AlreadyLogged(e.id));
      }
      eventLog := eventLog[e.id := e];
      out := Logged(e);
    }

    /** Records the first stage of a new approval. */
    method RecordRequested(approval: Record) returns (out: Recorded)
      modifies this
      ensures !approval.status.Pending? ==> out == Refused(RequiresPending) && eventLog == old(eventLog)
      ensures approval.status.Pending? ==>
        var e := RequestedEvent(approval, maxReasonLength);
        if e.id in old(eventLog) then out == Refused(AlreadyLogged(e.id)) && eventLog == old(eventLog)
        else out == Logged(e) && eventLog == old(eventLog)[e.id := e]
    {
      if !approval.status.Pending? {
        return Refused(RequiresPending);
      }
      out := Append(Requested, approval, RequestedExtra(approval, maxReasonLength));
    }

    method RecordTransition(previous: Record, next: Record) returns (out: Recorded)
      modifies this
      ensures var refusal := TransitionError(previous, next);
              refusal.Some? ==> out == Refused(refusal.value) && eventLog == old(eventLog)
      ensures out.Logged? <==>
        && Continues(previous, next)
        && EventId(next.request.approvalId, next.revision, Decided(next.status)) !in old(eventLog)
      ensures TransitionError(previous, next).None? ==>
        var e := TransitionEvent(next, maxReasonLength);
        if e.id in old(eventLog) then out == Refused(AlreadyLogged(e.id)) && eventLog == old(eventLog)
        else out == Logged(e) && eventLog == old(eventLog)[e.id := e]
    {
      var refusal := TransitionError(previous, next);
      if refusal.Some? {
        return Refused(refusal.value);
      }
      out := Append(Decided(next.status), next, TransitionExtra(next, maxReasonLength));
    }

    /** An aborted reconciliation keeps what it has already repaired. */
    method ReconcileRecord(approval: Record) returns (out: Reconciliation)
      modifies this
      ensures out == Reconcile(old(eventLog), approval, maxReasonLength)
      ensures eventLog == out.log
    {
      if approval.revision < 1 || approval.revision > 3 {
        return Aborted(eventLog, UnsupportedRevision(approval.revision));
      }
      if approval.revision >= 2 && approval.status.Pending? {
        return Aborted(eventLog, PendingTransition);
      }
      var expected := ExpectedLifecycle(approval, maxReasonLength);
      hide EventMatches, EventOf, ExpectedLifecycle, ReconcileItems, Resumed;
      var repaired: seq<EventId> := [];
      var present := 0;
      ResumeFromStart(eventLog, expected);
      for i := 0 to |expected|
        invariant ReconcileItems(old(eventLog), expected) ==
          Resumed(repaired, present, ReconcileItems(eventLog, expected[i..]))
      {
        var item := expected[i];
        assert expected[i..][0] == item && expected[i..][1..] == expected[i + 1..];
        ResumeStep(repaired, present, eventLog, expected[i..]);
        if item.id in eventLog {
          if !EventMatches(item, eventLog[item.id]) {
            return Aborted(eventLog, Corruption(item.id));
          }
          present := present + 1;
        } else {
          var written := Append(item.kind, item.approval, item.extra);
          if written.Refused? {
            return Aborted(eventLog, written.error);
          }
          repaired := repaired + [item.id];
        }
      }
      ResumeAtEnd(repaired, present, eventLog);
      out := Reconciled(eventLog, repaired, present);
    }
  }

  /** An aborted reconciliation leaves the log as repairing some first items made it. */
  lemma {:induction false} AbortKeepsPrefix(log: Log, items: seq<Item>) returns (k: nat)
    requires ReconcileItems(log, items).Aborted?
    ensures k < |items|
    ensures var done := ReconcileItems(log, items[..k]);
            && done.Reconciled? && ReconcileItems(log, items).log == done.log
            && (items[k].id in done.log ==> !EventMatches(items[k], done.log[items[k].id]))
    decreases |items|
  {
    var item := items[0];
    var e := EventOf(item.kind, item.approval, item.extra);
    hide EventMatches, EventOf;
    if (item.id in log && !EventMatches(item, log[item.id])) || (item.id !in log && e.id in log) {
      k := 0;
    } else {
      var rest := AbortKeepsPrefix(if item.id in log then log else log[e.id := e], items[1..]);
      k := rest + 1;
      assert items[..k][0] == item && items[..k][1..] == items[1..][..rest];
    }
  }

  lemma ResumeFromStart(log: Log, items: seq<Item>)
    ensures ReconcileItems(log, items) == Resumed([], 0, ReconcileItems(log, items[0..]))
  {
    hide ReconcileItems;
    assert items[0..] == items;
  }

  lemma ResumeAtEnd(repaired: seq<EventId>, present: nat, log: Log)
    ensures Resumed(repaired, present, ReconcileItems(log, [])) == Reconciled(log, repaired, present)
  {
  }

  lemma ResumeStep(repaired: seq<EventId>, present: nat, log: Log, items: seq<Item>)
    requires items != []
    ensures var item := items[0];
            var e := EventOf(item.kind, item.approval, item.extra);
            Resumed(repaired, present, ReconcileItems(log, items)) ==
            if item.id in log then
              if EventMatches(item, log[item.id]) then Resumed(repaired, present + 1, ReconcileItems(log, items[1..]))
              else Aborted(log, Corruption(item.id))
            else if e.id in log then Aborted(log, AlreadyLogged(e.id))
            else Resumed(repaired + [item.id], present, ReconcileItems(log[e.id := e], items[1..]))
  {
    hide EventMatches, EventOf;
  }

  /** A reconciliation that had already repaired and found some items. */
  ghost function Resumed(repaired: seq<EventId>, present: nat, rest: Reconciliation): Reconciliation {
    match rest
    case Reconciled(log, more, others) => Reconciled(log, repaired + more, present + others)
    case Aborted(log', error) => Aborted(log', error)
  }
}
