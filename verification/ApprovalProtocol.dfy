/** Any number of dispatchers, operators and sweepers on one approval store, with
    evaluation, consumption and dispatch as separate, freely interleaved steps
    (packages/cli/src/core/approvals/ApprovalGate.ts:209-225). */
module ApprovalProtocol {
  import opened Wrappers
  import opened Approvals
  import opened ApprovalBinding
  import opened ApprovalGate

  type Dispatcher = nat

  /** Where a dispatcher stands between two steps of dispatchIfAuthorized. */
  datatype Phase =
    | Idle
    | Allowed(ctx: GateContext, policyId: string, revision: nat)
    | Cleared(ctx: GateContext, policyId: string, approval: Option<ApprovalId>)

  datatype Event =
    | Moved(id: ApprovalId, status: Status)
    | Dispatched(ctx: GateContext, policyId: string, approval: Option<ApprovalId>)

  datatype System = System(store: Store, phases: map<Dispatcher, Phase>, history: seq<Event>)

  /** `Elsewhere` is any store transition by anyone else: approvals, rejections,
      cancellations, expiry sweeps, even a consumption outside the gate. */
  datatype Action =
    | Evaluating(who: Dispatcher, ctx: GateContext, policy: PolicyEvaluation, clock: int)
    | Consuming(who: Dispatcher, clock: int)
    | Dispatching(who: Dispatcher)
    | Elsewhere(id: ApprovalId, transition: Transition, expected: Option<nat>)
    | Requesting(request: Request)

  function PhaseOf(s: System, who: Dispatcher): Phase {
    if who in s.phases then s.phases[who] else Idle
  }

  function PolicyIdOf(policy: PolicyEvaluation): string {
    var id := MatchingPolicy(policy.matchedPolicies);
    if id.Some? then id.value else ""
  }

  function PhaseAfter(result: GateResult, ctx: GateContext, policy: PolicyEvaluation): Phase {
    match result
    case GateAllow(Some(record)) => Phase.Allowed(ctx, PolicyIdOf(policy), record.revision)
    case GateAllow(None) => Cleared(ctx, "", None)
    case _ => Idle
  }

  /** The status change of one record, if there was one. */
  function Movement(before: Store, after: Store, id: ApprovalId): seq<Event> {
    if id in before && id in after && before[id].status != after[id].status then [Moved(id, after[id].status)] else []
  }

  function Next(s: System, a: Action): System {
    match a
    case Evaluating(who, ctx, policy, clock) =>
      if PhaseOf(s, who) != Idle then s
      else
        var (store', result) := Evaluate(s.store, ctx, policy, clock);
        System(store', s.phases[who := PhaseAfter(result, ctx, policy)],
               s.history + Movement(s.store, store', ctx.approvalId))
    case Consuming(who, clock) =>
      var phase := PhaseOf(s, who);
      if !phase.Allowed? then s
      else (
        match ConsumeNow(s.store, phase.ctx.approvalId, Some(phase.revision), clock)
        case Done(store', record) =>
          System(store', s.phases[who := Cleared(phase.ctx, phase.policyId, Some(phase.ctx.approvalId))],
                 s.history + [Moved(phase.ctx.approvalId, Consumed)])
        case Failed(_) => s.(phases := s.phases[who := Idle]))
    case Dispatching(who) =>
      var phase := PhaseOf(s, who);
      if !phase.Cleared? then s
      else System(s.store, s.phases[who := Idle], s.history + [Dispatched(phase.ctx, phase.policyId, phase.approval)])
    case Elsewhere(id, t, expected) => (
      match TransitionTo(s.store, id, t, expected)
      case Done(store', record) => System(store', s.phases, s.history + [Moved(id, record.status)])
      case Failed(_) => s)
    case Requesting(q) => (
      match Create(s.store, q)
      case Done(store', _) => s.(store := store')
      case Failed(_) => s)
  }

  const START := System(map[], map[], [])

  function Run(actions: seq<Action>): System {
    if actions == [] then START else Next(Run(actions[..|actions| - 1]), actions[|actions| - 1])
  }

  /** The statuses that a record has moved to, in order. */
  function Trail(history: seq<Event>, id: ApprovalId): seq<Status> {
    if history == [] then []
    else
      var last := history[|history| - 1];
      Trail(history[..|history| - 1], id) + if last.Moved? && last.id == id then [last.status] else []
  }

  predicate LegalTrail(t: seq<Status>) {
    t == [] || t == [Approved] || t == [Approved, Consumed] || t == [Approved, Expired]
    || t == [Rejected] || t == [Expired] || t == [Cancelled]
  }

  function LastStatus(t: seq<Status>): Status {
    if t == [] then Pending else t[|t| - 1]
  }

  predicate RecordFits(store: Store, trail: seq<Status>, id: ApprovalId) {
    && LegalTrail(trail)
    && (id !in store ==> trail == [])
    && (id in store ==> store[id].status == LastStatus(trail))
  }

  /** The store agrees with the history about every record. */
  ghost predicate StoreFits(store: Store, history: seq<Event>) {
    forall id :: RecordFits(store, Trail(history, id), id)
  }

  lemma TrailAppend(history: seq<Event>, e: Event, id: ApprovalId)
    ensures Trail(history + [e], id) == Trail(history, id) + if e.Moved? && e.id == id then [e.status] else []
  {
    assert (history + [e])[..|history|] == history;
  }

  lemma ExtendsLegally(trail: seq<Status>, t: Transition)
    requires LegalTrail(trail) && Approvals.Allowed(LastStatus(trail), t)
    ensures LegalTrail(trail + [t.Target()]) && LastStatus(trail + [t.Target()]) == t.Target()
  {
  }

  lemma RecordMoves(store: Store, trail: seq<Status>, id: ApprovalId, t: Transition, expected: Option<nat>)
    requires RecordFits(store, trail, id) && TransitionTo(store, id, t, expected).Done?
    ensures RecordFits(TransitionTo(store, id, t, expected).store, trail + [t.Target()], id)
  {
    TransitionMovesForward(store, id, t, expected);
    ExtendsLegally(trail, t);
    hide LegalTrail;
  }

  lemma OthersStay(store: Store, trail: seq<Status>, id: ApprovalId, t: Transition, expected: Option<nat>,
                   other: ApprovalId)
    requires RecordFits(store, trail, other) && TransitionTo(store, id, t, expected).Done? && other != id
    ensures RecordFits(TransitionTo(store, id, t, expected).store, trail, other)
  {
    TransitionMovesForward(store, id, t, expected);
  }

  /** A transition that the store performs extends a legal trail to a legal trail. */
  lemma MoveFits(store: Store, history: seq<Event>, id: ApprovalId, t: Transition, expected: Option<nat>)
    requires StoreFits(store, history) && TransitionTo(store, id, t, expected).Done?
    ensures var out := TransitionTo(store, id, t, expected);
            StoreFits(out.store, history + [Moved(id, out.record.status)])
  {
    var out := TransitionTo(store, id, t, expected);
    TransitionMovesForward(store, id, t, expected);
    hide TransitionTo, RecordFits, Trail;
    forall other ensures RecordFits(out.store, Trail(history + [Moved(id, out.record.status)], other), other) {
      TrailAppend(history, Moved(id, out.record.status), other);
      assert RecordFits(store, Trail(history, other), other);
      if other == id {
        RecordMoves(store, Trail(history, id), id, t, expected);
      } else {
        OthersStay(store, Trail(history, other), id, t, expected, other);
        assert Trail(history, other) + [] == Trail(history, other);
      }
    }
  }

  lemma IgnoreFits(store: Store, history: seq<Event>, e: Event)
    requires StoreFits(store, history) && e.Dispatched?
    ensures StoreFits(store, history + [e])
  {
    hide Trail, RecordFits;
    forall id ensures RecordFits(store, Trail(history + [e], id), id) {
      TrailAppend(history, e, id);
      assert Trail(history + [e], id) == Trail(history, id);
    }
  }

  lemma CreateFits(store: Store, history: seq<Event>, id: ApprovalId, record: Record)
    requires StoreFits(store, history) && id !in store && record.status == Pending
    ensures StoreFits(store[id := record], history)
  {
    hide Trail, LegalTrail;
    forall other ensures RecordFits(store[id := record], Trail(history, other), other) {
      assert RecordFits(store, Trail(history, other), other);
    }
  }

  /** The evaluation's own effect on the store is one of these. */
  lemma EvaluationFits(s: System, ctx: GateContext, policy: PolicyEvaluation, clock: int)
    requires StoreFits(s.store, s.history)
    ensures var store' := Evaluate(s.store, ctx, policy, clock).0;
            StoreFits(store', s.history + Movement(s.store, store', ctx.approvalId))
  {
    EvaluateStore(s.store, ctx, policy, clock);
    hide Evaluate, StoreFits;
    var store', id := Evaluate(s.store, ctx, policy, clock).0, ctx.approvalId;
    if store' == s.store {
      assert s.history + [] == s.history;
    } else if id !in s.store {
      CreateFits(s.store, s.history, id, store'[id]);
      assert s.history + [] == s.history;
    } else {
      var reason :| store' == s.store[id := Applied(s.store[id], Expire(clock, reason))];
      MoveFits(s.store, s.history, id, Expire(clock, reason), None);
    }
  }

  /** Requests never change once a record exists. */
  lemma RequestsStay(s: System, a: Action, id: ApprovalId)
    requires id in s.store
    ensures id in Next(s, a).store && Next(s, a).store[id].request == s.store[id].request
  {
    match a
    case Evaluating(who, ctx, policy, clock) => EvaluateStore(s.store, ctx, policy, clock);
    case _ =>
  }

  lemma StepFits(s: System, a: Action)
    requires StoreFits(s.store, s.history)
    ensures StoreFits(Next(s, a).store, Next(s, a).history)
  {
    hide StoreFits, Evaluate, ValidRequest;
    match a
    case Evaluating(who, ctx, policy, clock) => EvaluationFits(s, ctx, policy, clock);
    case Consuming(who, clock) =>
      var phase := PhaseOf(s, who);
      if phase.Allowed? && ConsumeNow(s.store, phase.ctx.approvalId, Some(phase.revision), clock).Done? {
        MoveFits(s.store, s.history, phase.ctx.approvalId, Consume(clock), Some(phase.revision));
      }
    case Dispatching(who) =>
      var phase := PhaseOf(s, who);
      if phase.Cleared? {
        IgnoreFits(s.store, s.history, Dispatched(phase.ctx, phase.policyId, phase.approval));
      }
    case Elsewhere(id, t, expected) =>
      if TransitionTo(s.store, id, t, expected).Done? {
        MoveFits(s.store, s.history, id, t, expected);
      }
    case Requesting(q) =>
      if Create(s.store, q).Done? {
        CreateFits(s.store, s.history, q.approvalId, NewRecord(q));
      }
  }

  // ----- at most one dispatch per approval

  const GRANTED: seq<Status> := [Approved, Consumed]

  predicate IsDispatchOf(e: Event, id: ApprovalId) {
    e.Dispatched? && e.approval == Some(id)
  }

  /** What a dispatcher's phase promises about its record. */
  ghost predicate PhaseFits(s: System, who: Dispatcher) {
    match PhaseOf(s, who)
    case Idle => true
    case Allowed(ctx, policyId, revision) =>
      ctx.approvalId in s.store && Binds(s.store[ctx.approvalId].request, policyId, ctx.policyContext)
    case Cleared(ctx, policyId, approval) =>
      approval.Some? ==>
        && approval.value == ctx.approvalId && ctx.approvalId in s.store
        && Binds(s.store[ctx.approvalId].request, policyId, ctx.policyContext)
        && Trail(s.history, ctx.approvalId) == GRANTED
        && (forall k :: 0 <= k < |s.history| ==> !IsDispatchOf(s.history[k], ctx.approvalId))
  }

  predicate ClearedFor(s: System, who: Dispatcher, id: ApprovalId) {
    PhaseOf(s, who).Cleared? && PhaseOf(s, who).approval == Some(id)
  }

  /** What a past dispatch under an approval says: when it happened, the record had been
      approved and then consumed, and it binds to the context that was dispatched. */
  ghost predicate DispatchFits(store: Store, history: seq<Event>, k: nat)
    requires k < |history|
  {
    history[k].Dispatched? && history[k].approval.Some? ==>
      var id := history[k].approval.value;
      && id in store && Binds(store[id].request, history[k].policyId, history[k].ctx.policyContext)
      && Trail(history[..k], id) == GRANTED
      && forall j :: 0 <= j < k ==> !IsDispatchOf(history[j], id)
  }

  ghost predicate Safe(s: System) {
    && StoreFits(s.store, s.history)
    && (forall who :: PhaseFits(s, who))
    && (forall who, other, id :: who != other && ClearedFor(s, who, id) ==> !ClearedFor(s, other, id))
    && (forall k :: 0 <= k < |s.history| ==> DispatchFits(s.store, s.history, k))
  }

  /** Histories only grow, and requests stay. */
  ghost predicate Grown(s: System, s': System) {
    && s.history <= s'.history
    && forall id :: id in s.store ==> id in s'.store && s'.store[id].request == s.store[id].request
  }

  lemma StepGrows(s: System, a: Action)
    ensures Grown(s, Next(s, a))
  {
    forall id | id in s.store ensures id in Next(s, a).store && Next(s, a).store[id].request == s.store[id].request {
      RequestsStay(s, a, id);
    }
    hide Evaluate, ConsumeNow, TransitionTo, Create;
    match a
    case _ =>
  }

  lemma {:induction false} TrailPrefix(history: seq<Event>, k: nat, id: ApprovalId)
    requires k <= |history|
    ensures Trail(history[..k], id) <= Trail(history, id)
    decreases |history|
  {
    if k < |history| {
      TrailPrefix(history[..|history| - 1], k, id);
      assert history[..|history| - 1][..k] == history[..k];
    } else {
      assert history[..k] == history;
    }
  }

  /** A record that was granted stays granted: nothing can be added to its trail. */
  lemma GrantedStays(store: Store, history: seq<Event>, k: nat, id: ApprovalId)
    requires StoreFits(store, history) && k <= |history| && Trail(history[..k], id) == GRANTED
    ensures Trail(history, id) == GRANTED
  {
    TrailPrefix(history, k, id);
    assert RecordFits(store, Trail(history, id), id);
    LegalExtension(Trail(history, id));
  }

  lemma LegalExtension(t: seq<Status>)
    requires LegalTrail(t) && GRANTED <= t
    ensures t == GRANTED
  {
    assert t[0] == GRANTED[0];
  }

  /** A phase that is not touched keeps its promises, unless its approval is dispatched. */
  lemma PhaseKept(s: System, s': System, who: Dispatcher)
    requires Grown(s, s') && StoreFits(s'.store, s'.history)
    requires PhaseFits(s, who) && PhaseOf(s', who) == PhaseOf(s, who)
    requires forall k :: |s.history| <= k < |s'.history| ==>
      !(PhaseOf(s, who).Cleared? && IsDispatchOf(s'.history[k], PhaseOf(s, who).ctx.approvalId))
    ensures PhaseFits(s', who)
  {
    hide Binds, StoreFits;
    var phase := PhaseOf(s, who);
    if phase.Cleared? && phase.approval.Some? {
      assert s'.history[..|s.history|] == s.history;
      GrantedStays(s'.store, s'.history, |s.history|, phase.ctx.approvalId);
      forall k | 0 <= k < |s'.history| ensures !IsDispatchOf(s'.history[k], phase.ctx.approvalId) {
        assert k < |s.history| ==> s'.history[k] == s.history[k];
      }
    }
  }

  lemma DispatchKept(s: System, s': System, k: nat)
    requires Grown(s, s') && k < |s.history| && DispatchFits(s.store, s.history, k)
    ensures DispatchFits(s'.store, s'.history, k)
  {
    hide Binds, Trail;
    assert s'.history[..k] == s.history[..k] && s'.history[k] == s.history[k];
    forall j | 0 <= j < k ensures s'.history[j] == s.history[j] {
    }
  }

  ghost predicate NoNewDispatch(s: System, s': System) {
    forall k :: |s.history| <= k < |s'.history| ==> !s'.history[k].Dispatched?
  }

  /** A step without a dispatch that touches one dispatcher's phase at most. */
  lemma QuietStepSafe(s: System, s': System, actor: Dispatcher)
    requires Safe(s) && Grown(s, s') && StoreFits(s'.store, s'.history) && NoNewDispatch(s, s')
    requires forall who :: who != actor ==> PhaseOf(s', who) == PhaseOf(s, who)
    requires PhaseFits(s', actor)
    requires forall who, id :: who != actor && ClearedFor(s', actor, id) ==> !ClearedFor(s, who, id)
    ensures Safe(s')
  {
    hide StoreFits, Grown, DispatchFits, PhaseFits;
    forall who ensures PhaseFits(s', who) {
      if who != actor {
        assert PhaseFits(s, who);
        PhaseKept(s, s', who);
      }
    }
    forall k | 0 <= k < |s'.history| ensures DispatchFits(s'.store, s'.history, k) {
      if k < |s.history| {
        DispatchKept(s, s', k);
      } else {
        NotADispatch(s'.store, s'.history, k);
      }
    }
    forall who, other, id | who != other && ClearedFor(s', who, id) ensures !ClearedFor(s', other, id) {
      assert who != actor ==> ClearedFor(s, who, id);
      assert other != actor && ClearedFor(s', other, id) ==> ClearedFor(s, other, id);
    }
  }

  lemma NotADispatch(store: Store, history: seq<Event>, k: nat)
    requires k < |history| && !history[k].Dispatched?
    ensures DispatchFits(store, history, k)
  {
  }

  lemma EvaluatingSafe(s: System, who: Dispatcher, ctx: GateContext, policy: PolicyEvaluation, clock: int)
    requires Safe(s) && PhaseOf(s, who) == Idle
    ensures Safe(Next(s, Evaluating(who, ctx, policy, clock)))
  {
    var a := Evaluating(who, ctx, policy, clock);
    var s' := Next(s, a);
    StepFits(s, a);
    StepGrows(s, a);
    if Evaluate(s.store, ctx, policy, clock).1.GateAllow? {
      AllowMeansApproved(s.store, ctx, policy, clock);
    }
    hide Evaluate, Safe, StoreFits, Grown, Binds;
    assert PhaseFits(s', who);
    QuietStepSafe(s, s', who);
  }

  lemma ConsumingSafe(s: System, who: Dispatcher, clock: int)
    requires Safe(s) && PhaseOf(s, who).Allowed?
    ensures Safe(Next(s, Consuming(who, clock)))
  {
    var s' := Next(s, Consuming(who, clock));
    StepFits(s, Consuming(who, clock));
    StepGrows(s, Consuming(who, clock));
    var phase := PhaseOf(s, who);
    var id := phase.ctx.approvalId;
    ConsumptionResult(s, who, clock);
    hide ConsumeNow, StoreFits, Grown, Binds, Next, Trail;
    assert PhaseFits(s, who);
    if PhaseOf(s', who).Cleared? {
      NotGrantedYet(s, id);
      TrailAppend(s.history, Moved(id, Consumed), id);
      ClearedAfterConsuming(s, s', who, phase);
    }
    QuietStepSafe(s, s', who);
  }

  /** A consumption either raises, or was of an approved record. */
  lemma ConsumptionResult(s: System, who: Dispatcher, clock: int)
    requires PhaseOf(s, who).Allowed?
    ensures var s' := Next(s, Consuming(who, clock));
            var phase := PhaseOf(s, who);
            && NoNewDispatch(s, s')
            && (forall other :: other != who ==> PhaseOf(s', other) == PhaseOf(s, other))
            && (PhaseOf(s', who) == Idle
                || (PhaseOf(s', who) == Cleared(phase.ctx, phase.policyId, Some(phase.ctx.approvalId))
                    && phase.ctx.approvalId in s.store && s.store[phase.ctx.approvalId].status == Approved
                    && s'.history == s.history + [Moved(phase.ctx.approvalId, Consumed)]))
  {
  }

  /** An approved record has not been granted, so nobody is cleared for it or has
      dispatched under it. */
  lemma NotGrantedYet(s: System, id: ApprovalId)
    requires Safe(s) && id in s.store && s.store[id].status == Approved
    ensures Trail(s.history, id) == [Approved]
    ensures forall who :: !ClearedFor(s, who, id)
    ensures forall k :: 0 <= k < |s.history| ==> !IsDispatchOf(s.history[k], id)
  {
    assert RecordFits(s.store, Trail(s.history, id), id);
    hide Binds, RecordFits, StoreFits;
    forall who ensures !ClearedFor(s, who, id) {
      assert PhaseFits(s, who);
    }
    forall k | 0 <= k < |s.history| ensures !IsDispatchOf(s.history[k], id) {
      assert DispatchFits(s.store, s.history, k);
      if IsDispatchOf(s.history[k], id) {
        TrailPrefix(s.history, k, id);
      }
    }
  }

  lemma ClearedAfterConsuming(s: System, s': System, who: Dispatcher, phase: Phase)
    requires phase.Allowed? && PhaseOf(s, who) == phase && PhaseFits(s, who) && Grown(s, s')
    requires PhaseOf(s', who) == Cleared(phase.ctx, phase.policyId, Some(phase.ctx.approvalId))
    requires s'.history == s.history + [Moved(phase.ctx.approvalId, Consumed)]
    requires Trail(s'.history, phase.ctx.approvalId) == GRANTED
    requires forall k :: 0 <= k < |s.history| ==> !IsDispatchOf(s.history[k], phase.ctx.approvalId)
    ensures PhaseFits(s', who)
  {
    hide Binds, Trail;
    forall k | 0 <= k < |s'.history| ensures !IsDispatchOf(s'.history[k], phase.ctx.approvalId) {
      assert k < |s.history| ==> s'.history[k] == s.history[k];
    }
  }

  lemma DispatchingSafe(s: System, who: Dispatcher)
    requires Safe(s) && PhaseOf(s, who).Cleared?
    ensures Safe(Next(s, Dispatching(who)))
  {
    var s' := Next(s, Dispatching(who));
    var n := |s.history|;
    StepFits(s, Dispatching(who));
    StepGrows(s, Dispatching(who));
    assert PhaseFits(s, who);
    NewDispatchFits(s, who);
    forall other ensures PhaseFits(s', other) {
      if other != who {
        OtherKeptByDispatch(s, s', who, other);
      }
    }
    hide StoreFits, Grown, DispatchFits, PhaseFits, Binds;
    forall k | 0 <= k < |s'.history| ensures DispatchFits(s'.store, s'.history, k) {
      if k < n {
        DispatchKept(s, s', k);
      }
    }
    forall one, other, id | one != other && ClearedFor(s', one, id) ensures !ClearedFor(s', other, id) {
      assert ClearedFor(s, one, id);
      assert ClearedFor(s', other, id) ==> ClearedFor(s, other, id);
    }
  }

  lemma NewDispatchFits(s: System, who: Dispatcher)
    requires PhaseOf(s, who).Cleared? && PhaseFits(s, who)
    ensures var phase := PhaseOf(s, who);
            var longer := s.history + [Dispatched(phase.ctx, phase.policyId, phase.approval)];
            DispatchFits(s.store, longer, |s.history|)
  {
    hide Binds, Trail;
    var phase := PhaseOf(s, who);
    var longer := s.history + [Dispatched(phase.ctx, phase.policyId, phase.approval)];
    assert longer[..|s.history|] == s.history;
  }

  lemma OtherKeptByDispatch(s: System, s': System, who: Dispatcher, other: Dispatcher)
    requires Safe(s) && PhaseOf(s, who).Cleared? && other != who
    requires s' == Next(s, Dispatching(who)) && Grown(s, s') && StoreFits(s'.store, s'.history)
    ensures PhaseFits(s', other)
  {
    assert PhaseFits(s, other);
    var cleared := PhaseOf(s, other);
    if cleared.Cleared? {
      DispatchOfAnother(s, who, other);
    }
    hide Binds, Trail, StoreFits, Grown, Safe;
    if cleared.Cleared? && cleared.approval.None? {
    } else {
      PhaseKept(s, s', other);
    }
  }

  /** No two dispatchers are cleared by the same approval. */
  lemma DispatchOfAnother(s: System, who: Dispatcher, other: Dispatcher)
    requires Safe(s) && PhaseOf(s, who).Cleared? && PhaseOf(s, other).Cleared? && other != who
    ensures var phase, cleared := PhaseOf(s, who), PhaseOf(s, other);
            cleared.approval.Some? ==>
              !IsDispatchOf(Dispatched(phase.ctx, phase.policyId, phase.approval), cleared.ctx.approvalId)
  {
    assert PhaseFits(s, other);
    var phase := PhaseOf(s, who);
    if phase.approval.Some? {
      assert ClearedFor(s, who, phase.approval.value);
      assert !ClearedFor(s, other, phase.approval.value);
    }
    hide Binds, Trail, StoreFits;
  }

  lemma StepSafe(s: System, a: Action)
    requires Safe(s)
    ensures Safe(Next(s, a))
  {
    match a
    case Evaluating(who, ctx, policy, clock) =>
      if PhaseOf(s, who) == Idle {
        EvaluatingSafe(s, who, ctx, policy, clock);
      }
    case Consuming(who, clock) =>
      if PhaseOf(s, who).Allowed? {
        ConsumingSafe(s, who, clock);
      }
    case Dispatching(who) =>
      if PhaseOf(s, who).Cleared? {
        DispatchingSafe(s, who);
      }
    case _ =>
      StepFits(s, a);
      StepGrows(s, a);
      AmbientSafe(s, Next(s, a));
  }

  lemma AmbientSafe(s: System, s': System)
    requires Safe(s) && Grown(s, s') && StoreFits(s'.store, s'.history)
    requires s'.phases == s.phases && NoNewDispatch(s, s')
    ensures Safe(s')
  {
    hide StoreFits, Grown, Binds, Trail;
    assert PhaseFits(s, 0);
    PhaseKept(s, s', 0);
    forall who, id | who != 0 && ClearedFor(s', 0, id) ensures !ClearedFor(s, who, id) {
      assert ClearedFor(s, 0, id);
    }
    QuietStepSafe(s, s', 0);
  }

  lemma {:induction false} RunsAreSafe(actions: seq<Action>)
    ensures Safe(Run(actions))
    decreases |actions|
  {
    if actions == [] {
      StartIsSafe();
    } else {
      hide Safe, Next;
      RunsAreSafe(actions[..|actions| - 1]);
      StepSafe(Run(actions[..|actions| - 1]), actions[|actions| - 1]);
    }
  }

  lemma StartIsSafe()
    ensures Safe(START)
  {
  }

  /** Over every interleaving, each approval authorizes at most one dispatch; when that
      dispatch happened the record had been approved and then consumed and binds to the
      dispatched context; and no rejected, expired or cancelled record ever leads to one. */
  lemma AtMostOneDispatch(actions: seq<Action>, k: nat)
    requires k < |Run(actions).history|
    requires Run(actions).history[k].Dispatched? && Run(actions).history[k].approval.Some?
    ensures var s := Run(actions);
            var id := s.history[k].approval.value;
            && (forall j :: 0 <= j < |s.history| && j != k ==> !IsDispatchOf(s.history[j], id))
            && Trail(s.history[..k], id) == [Approved, Consumed] && Trail(s.history, id) == [Approved, Consumed]
            && id in s.store && s.store[id].status == Consumed
            && Binds(s.store[id].request, s.history[k].policyId, s.history[k].ctx.policyContext)
  {
    RunsAreSafe(actions);
    var s := Run(actions);
    var id := s.history[k].approval.value;
    assert DispatchFits(s.store, s.history, k);
    GrantedStays(s.store, s.history, k, id);
    assert RecordFits(s.store, Trail(s.history, id), id);
    hide Binds, Trail, Run, RecordFits, StoreFits;
    forall j | 0 <= j < |s.history| && j != k ensures !IsDispatchOf(s.history[j], id) {
      assert DispatchFits(s.store, s.history, j);
    }
  }

  /** What was dispatched is what was asked for: under a record that the gate created
      for one context, only contexts with the same bound fields are dispatched. */
  lemma DispatchedAsRequested(actions: seq<Action>, k: nat, requested: GateContext, policy: PolicyEvaluation)
    requires k < |Run(actions).history|
    requires var e := Run(actions).history[k];
             && e.Dispatched? && e.approval.Some?
             && JsonContext(requested.policyContext) && JsonContext(e.ctx.policyContext)
             && (e.approval.value in Run(actions).store ==>
                   Run(actions).store[e.approval.value].request == BuildRequest(requested, policy, PolicyIdOf(policy)))
    ensures var e := Run(actions).history[k];
            && Complete(requested.policyContext) && e.policyId == PolicyIdOf(policy)
            && SameBoundFields(requested.decision, requested.policyContext, e.ctx.policyContext)
  {
    AtMostOneDispatch(actions, k);
    var e := Run(actions).history[k];
    BindsIff(BuildRequest(requested, policy, PolicyIdOf(policy)), requested.decision, requested.policyContext,
             policy.matched, PolicyIdOf(policy), e.policyId, e.ctx.policyContext);
  }

  // ----- and what is approved does get dispatched

  /** From any state: an idle dispatcher that evaluates, consumes and dispatches under an
      approval that is in force for its context gets through. */
  lemma ApprovedIsDispatched(s: System, who: Dispatcher, ctx: GateContext, policy: PolicyEvaluation, p: string,
                             clock: int, later: int)
    requires PhaseOf(s, who) == Idle && policy.decision == PolicyEffect.ApprovalRequired && Governs(policy, p)
    requires Names(s.store, ctx, p) && s.store[ctx.approvalId].status == Approved
    requires !RunOut(s.store[ctx.approvalId].request, ctx.now)
    requires Binds(s.store[ctx.approvalId].request, p, ctx.policyContext)
    ensures var id := ctx.approvalId;
            var s' := Next(Next(Next(s, Evaluating(who, ctx, policy, clock)), Consuming(who, later)), Dispatching(who));
            && s'.history == s.history + [Moved(id, Consumed), Dispatched(ctx, p, Some(id))]
            && s'.store == s.store[id := s.store[id].(
                 status := Consumed, consumedAt := Some(later), revision := s.store[id].revision + 1)]
  {
    AllowedIff(s.store, ctx, policy, clock, p);
    MatchingPolicyGoverns(policy, policy.matchedPolicies, p);
    hide Evaluate, Binds, Governs, Names;
    var s1 := Next(s, Evaluating(who, ctx, policy, clock));
    assert s1.store == s.store && s1.history == s.history + [];
    assert PhaseOf(s1, who) == Phase.Allowed(ctx, p, s.store[ctx.approvalId].revision);
    var s2 := Next(s1, Consuming(who, later));
    assert PhaseOf(s2, who) == Cleared(ctx, p, Some(ctx.approvalId));
    assert s2.history == s.history + [Moved(ctx.approvalId, Consumed)];
  }

  /** A whole run from nothing on: the approval is asked for, granted, and used once. */
  lemma GrantedRun(ctx: GateContext, policy: PolicyEvaluation, p: string, actor: string, clock: int)
    requires policy.decision == PolicyEffect.ApprovalRequired && Governs(policy, p)
    requires ValidRequest(BuildRequest(ctx, policy, p)) && JsonContext(ctx.policyContext)
    requires Complete(ctx.policyContext) && Matches(ctx.decision, ctx.policyContext)
    ensures var evaluating := Evaluating(0, ctx, policy, clock);
            var granting := Elsewhere(ctx.approvalId, Approve(actor, clock, None), Some(1));
            Run([evaluating, granting, evaluating, Consuming(0, clock), Dispatching(0)]).history ==
              [Moved(ctx.approvalId, Approved), Moved(ctx.approvalId, Consumed),
               Dispatched(ctx, p, Some(ctx.approvalId))]
  {
    var id, q := ctx.approvalId, BuildRequest(ctx, policy, p);
    var evaluating, granting := Evaluating(0, ctx, policy, clock), Elsewhere(id, Approve(actor, clock, None), Some(1));
    hide *;
    AskedFor(ctx, policy, p, clock);
    Granting(q, actor, clock);
    FiveSteps(evaluating, granting, evaluating, Consuming(0, clock), Dispatching(0));
    GrantedIsDispatched(ctx, policy, p, actor, clock);
  }

  lemma GrantedIsDispatched(ctx: GateContext, policy: PolicyEvaluation, p: string, actor: string, clock: int)
    requires policy.decision == PolicyEffect.ApprovalRequired && Governs(policy, p)
    requires ValidRequest(BuildRequest(ctx, policy, p)) && JsonContext(ctx.policyContext)
    requires Complete(ctx.policyContext) && Matches(ctx.decision, ctx.policyContext)
    ensures var granted := Granted(BuildRequest(ctx, policy, p), actor, clock);
            Next(Next(Next(granted, Evaluating(0, ctx, policy, clock)), Consuming(0, clock)), Dispatching(0)).history ==
              [Moved(ctx.approvalId, Approved), Moved(ctx.approvalId, Consumed),
               Dispatched(ctx, p, Some(ctx.approvalId))]
  {
    hide *;
    var granted := Granted(BuildRequest(ctx, policy, p), actor, clock);
    AskedFor(ctx, policy, p, clock);
    BuiltBinds(ctx, policy, p);
    GrantedRecord(BuildRequest(ctx, policy, p), actor, clock);
    NamedByBuilding(ctx, policy, p, granted);
    ApprovedIsDispatched(granted, 0, ctx, policy, p, clock, clock);
  }

  lemma BuiltBinds(ctx: GateContext, policy: PolicyEvaluation, p: string)
    requires JsonContext(ctx.policyContext) && Complete(ctx.policyContext) && Matches(ctx.decision, ctx.policyContext)
    ensures Binds(BuildRequest(ctx, policy, p), p, ctx.policyContext)
  {
    hide GatheredEvidence;
    BindsToItsOwnContextIff(BuildRequest(ctx, policy, p), ctx.decision, ctx.policyContext, policy.matched, p);
  }

  /** The one record of a request that was granted. */
  function Granted(q: Request, actor: string, clock: int): System {
    System(map[q.approvalId := Record(q, Approved, Some(actor), Some(clock), None, 2, None)], map[0 := Idle],
           [Moved(q.approvalId, Approved)])
  }

  lemma GrantedRecord(q: Request, actor: string, clock: int)
    ensures var s := Granted(q, actor, clock);
            && PhaseOf(s, 0) == Idle && s.history == [Moved(q.approvalId, Approved)]
            && q.approvalId in s.store && s.store[q.approvalId].request == q
            && s.store[q.approvalId].status == Approved
  {
  }

  lemma Granting(q: Request, actor: string, clock: int)
    ensures Next(System(map[q.approvalId := NewRecord(q)], map[0 := Idle], []),
                 Elsewhere(q.approvalId, Approve(actor, clock, None), Some(1))) == Granted(q, actor, clock)
  {
    var store := map[q.approvalId := NewRecord(q)];
    assert store[q.approvalId := Granted(q, actor, clock).store[q.approvalId]] == Granted(q, actor, clock).store;
    assert [] + [Moved(q.approvalId, Approved)] == [Moved(q.approvalId, Approved)];
  }

  lemma NamedByBuilding(ctx: GateContext, policy: PolicyEvaluation, p: string, s: System)
    requires ctx.approvalId in s.store && s.store[ctx.approvalId].request == BuildRequest(ctx, policy, p)
    ensures Names(s.store, ctx, p)
  {
    hide GatheredEvidence;
  }

  lemma AskedFor(ctx: GateContext, policy: PolicyEvaluation, p: string, clock: int)
    requires policy.decision == PolicyEffect.ApprovalRequired && Governs(policy, p)
    requires ValidRequest(BuildRequest(ctx, policy, p))
    ensures Next(START, Evaluating(0, ctx, policy, clock)) ==
      System(map[ctx.approvalId := NewRecord(BuildRequest(ctx, policy, p))], map[0 := Idle], [])
    ensures BuildRequest(ctx, policy, p).approvalId == ctx.approvalId
    ensures BuildRequest(ctx, policy, p).policyId == p && !RunOut(BuildRequest(ctx, policy, p), ctx.now)
  {
    MatchingPolicyGoverns(policy, policy.matchedPolicies, p);
    hide Governs, GatheredEvidence;
  }

  lemma FiveSteps(a: Action, b: Action, c: Action, d: Action, e: Action)
    ensures Run([a, b, c, d, e]) == Next(Next(Next(Next(Next(START, a), b), c), d), e)
  {
    hide Next;
    assert [a, b, c, d, e][..4] == [a, b, c, d] && [a, b, c, d][..3] == [a, b, c] && [a, b, c][..2] == [a, b];
    assert [a, b][..1] == [a] && [a][..0] == [];
    assert Run([]) == START && Run([a]) == Next(START, a) && Run([a, b]) == Next(Run([a]), b);
    assert Run([a, b, c]) == Next(Run([a, b]), c) && Run([a, b, c, d]) == Next(Run([a, b, c]), d);
  }
}
