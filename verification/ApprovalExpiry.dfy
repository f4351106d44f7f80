/** The expiry sweep of packages/cli/src/core/approvals/ApprovalExpiryService.ts. */
module ApprovalExpiry {
  import opened Wrappers
  import opened Approvals
  import opened ApprovalGate

  /** What the sweep makes of one listed record, given the store as it is by then. */
  datatype SweepResult = Swept(store: Store, record: Record) | Conflict(error: Error) | Rethrown(error: Error)

  /** The catch clause lets conflicts of the store pass and rethrows the rest; the status
      error it means to let pass is not the one that `expire` raises. */
  function SweepOne(store: Store, listed: Record, reason: string, clock: int): SweepResult {
    match ExpireNow(store, listed.request.approvalId, reason, Some(listed.revision), clock)
    case Done(store', record) => Swept(store', record)
    case Failed(StaleRevision(e, c)) => Conflict(StaleRevision(e, c))
    case Failed(error) => Rethrown(error)
  }

  /** Between listing and expiring a record others may have moved it.  A record that was
      merely revised counts as a conflict; one that was decided, or is gone, aborts the
      whole sweep. */
  lemma SweepOutcomeIff(store: Store, listed: Record, reason: string, clock: int)
    ensures var id := listed.request.approvalId;
            var expirable := id in store && !IsTerminal(store[id].status);
            && (SweepOne(store, listed, reason, clock).Swept? <==> expirable && store[id].revision == listed.revision)
            && (SweepOne(store, listed, reason, clock).Conflict?
              <==> expirable && store[id].revision != listed.revision)
            && (SweepOne(store, listed, reason, clock).Rethrown? <==> !expirable)
  {
  }

  // ----- a sweep that others interfere with

  /** What others do to the store: any transition or creation that it accepts, or a deletion. */
  datatype Move = Decide(id: ApprovalId, t: Transition) | Delete(id: ApprovalId) | Submit(q: Request) {
    function Target(): ApprovalId {
      match this
      case Decide(id, _) => id
      case Delete(id) => id
      case Submit(q) => q.approvalId
    }
  }

  function Moved(store: Store, move: Move): Store {
    match move
    case Decide(id, t) =>
      var out := TransitionTo(store, id, t, None);
      if out.Done? then out.store else store
    case Delete(id) => store - {id}
    case Submit(q) =>
      var out := Create(store, q);
      if out.Done? then out.store else store
  }

  function Meddled(store: Store, moves: seq<Move>): Store {
    if moves == [] then store else Moved(Meddled(store, moves[..|moves| - 1]), moves[|moves| - 1])
  }

  /** What the sweep has to report, and how many listed records it has dealt with. */
  datatype Report = Report(expired: seq<Record>, conflicts: seq<(ApprovalId, Error)>, raised: Option<Error>,
    reached: nat)

  datatype Sweeping = Sweeping(store: Store, report: Report)

  /** A sweep over `listed`, with what is done by others before each of the records. */
  datatype Scene = Scene(store: Store, listed: seq<Record>, between: seq<seq<Move>>, now: int, reason: string,
    clock: int) {
    ghost predicate Valid() {
      |listed| == |between|
    }

    /** The loop over the first `n` listed records. */
    function SweepUpTo(n: nat): Sweeping
      requires |listed| == |between| && n <= |listed|
      decreases n, 0
    {
      if n == 0 then Sweeping(store, Report([], [], None, 0))
      else
        var earlier, found, r := SweepUpTo(n - 1).report, FoundAt(n - 1), listed[n - 1];
        if earlier.raised.Some? then Sweeping(found, earlier)
        else if !Due(r, now) then Sweeping(found, earlier.(reached := n))
        else
          match SweepOne(found, r, reason, clock)
          case Swept(store', record) =>
            Sweeping(store', earlier.(expired := earlier.expired + [record], reached := n))
          case Conflict(error) =>
            Sweeping(found, earlier.(conflicts := earlier.conflicts + [(r.request.approvalId, error)], reached := n))
          case Rethrown(error) => Sweeping(found, earlier.(raised := Some(error)))
    }

    /** The store as the k-th listed record is reached. */
    function FoundAt(k: nat): Store
      requires |listed| == |between| && k < |listed|
      decreases k, 1
    {
      Meddled(SweepUpTo(k).store, between[k])
    }

    /** A listed record that is due, but decided or gone when the sweep reaches it. */
    predicate Obstacle(k: nat)
      requires |listed| == |between| && k < |listed|
    {
      var id := listed[k].request.approvalId;
      Due(listed[k], now) && (id !in FoundAt(k) || IsTerminal(FoundAt(k)[id].status))
    }
  }

  lemma {:induction false} ReachesFirstObstacle(s: Scene, n: nat)
    requires s.Valid() && n <= |s.listed|
    ensures var out := s.SweepUpTo(n).report;
            && out.reached <= n
            && (forall k :: 0 <= k < out.reached ==> !s.Obstacle(k))
            && (out.raised.None? ==> out.reached == n)
            && (out.raised.Some? ==> out.reached < n && s.Obstacle(out.reached))
  {
    if n > 0 {
      ReachesFirstObstacle(s, n - 1);
      SweepOutcomeIff(s.FoundAt(n - 1), s.listed[n - 1], s.reason, s.clock);
      hide SweepOne, Due, Meddled;
    }
  }

  /** Whatever others do, the sweep runs to its end exactly when nothing due has been
      decided or deleted by the time it is reached. */
  lemma SweepCompletesIff(s: Scene)
    requires s.Valid()
    ensures s.SweepUpTo(|s.listed|).report.raised.None? <==> forall k :: 0 <= k < |s.listed| ==> !s.Obstacle(k)
  {
    ReachesFirstObstacle(s, |s.listed|);
    hide Due, Meddled, SweepOne;
  }

  predicate Spares(between: seq<seq<Move>>, id: ApprovalId) {
    forall k, m :: 0 <= k < |between| && m in between[k] ==> m.Target() != id
  }

  lemma {:induction false} MeddledSpares(store: Store, moves: seq<Move>, id: ApprovalId)
    requires id in store && forall m :: m in moves ==> m.Target() != id
    ensures id in Meddled(store, moves) && Meddled(store, moves)[id] == store[id]
    decreases |moves|
  {
    if moves != [] {
      var last := moves[|moves| - 1];
      assert last in moves && forall m :: m in moves[..|moves| - 1] ==> m in moves;
      MeddledSpares(store, moves[..|moves| - 1], id);
    }
  }

  lemma SweepOneSpares(store: Store, r: Record, reason: string, clock: int, id: ApprovalId)
    requires id in store && id != r.request.approvalId && SweepOne(store, r, reason, clock).Swept?
    ensures var store' := SweepOne(store, r, reason, clock).store; id in store' && store'[id] == store[id]
  {
  }

  /** The j-th listed record has been expired and reported if it is due and was reached,
      and is otherwise as it was listed. */
  ghost predicate Treated(s: Scene, j: nat, out: Sweeping)
    requires j < |s.listed|
  {
    var r := s.listed[j];
    var id, expired := r.request.approvalId, Applied(r, Expire(s.clock, Some(s.reason)));
    && id in out.store
    && (j < out.report.reached && Due(r, s.now) ==> out.store[id] == expired && expired in out.report.expired)
    && (j >= out.report.reached || !Due(r, s.now) ==> out.store[id] == r)
  }

  /** Others leave the j-th listed record alone. */
  ghost predicate LeftAlone(s: Scene, j: nat)
    requires j < |s.listed|
  {
    var id := s.listed[j].request.approvalId;
    id in s.store && s.store[id] == s.listed[j] && Spares(s.between, id)
  }

  /** A listed record that others leave alone is expired when it is due and the sweep gets
      to it before its first obstacle; behind an obstacle whatever is due stays due. */
  lemma {:induction false} SparedRecords(s: Scene, n: nat, j: nat)
    requires s.Valid() && n <= |s.listed| && j < |s.listed| && DistinctIds(s.listed) && LeftAlone(s, j)
    ensures Treated(s, j, s.SweepUpTo(n))
  {
    if n > 0 {
      SparedRecords(s, n - 1, j);
      ReachesFirstObstacle(s, n - 1);
      MeddledSpares(s.SweepUpTo(n - 1).store, s.between[n - 1], s.listed[j].request.approvalId);
      SparedStep(s, n - 1, j);
    }
  }

  lemma SparedStep(s: Scene, k: nat, j: nat)
    requires s.Valid() && k < |s.listed| && j < |s.listed| && DistinctIds(s.listed)
    requires Treated(s, j, s.SweepUpTo(k)) && Treated(s, j, Sweeping(s.FoundAt(k), s.SweepUpTo(k).report))
    requires s.SweepUpTo(k).report.raised.None? ==> s.SweepUpTo(k).report.reached == k
    requires s.SweepUpTo(k).report.reached <= k
    ensures Treated(s, j, s.SweepUpTo(k + 1))
  {
    var id, found, r := s.listed[j].request.approvalId, s.FoundAt(k), s.listed[k];
    if s.SweepUpTo(k).report.raised.None? && Due(r, s.now) {
      if k == j {
        UndisturbedSweep(found, r, s.now, s.reason, s.clock);
        hide Applied, SweepOne;
      } else {
        assert r.request.approvalId != id;
        if SweepOne(found, r, s.reason, s.clock).Swept? {
          SweepOneSpares(found, r, s.reason, s.clock, id);
        }
        hide Applied, SweepOne;
      }
    }
  }

  /** For instance: of two due records the first is rejected between the listing and the
      sweep.  The sweep raises, has nothing to report, and leaves the second one due. */
  lemma RejectionAbortsSweep(a: Record, b: Record, actor: string, now: int, reason: string, clock: int)
    requires a.request.approvalId != b.request.approvalId && a.status == Pending && Due(a, now) && Due(b, now)
    ensures var idA, idB := a.request.approvalId, b.request.approvalId;
            var s := Scene(map[idA := a, idB := b], [a, b], [[Decide(idA, Reject(actor, clock, None))], []], now,
              reason, clock);
            var out := s.SweepUpTo(2);
            && out.report == Report([], [], Some(NotExpirable(Rejected)), 0)
            && out.store == map[idA := Applied(a, Reject(actor, clock, None)), idB := b]
  {
    var idA, idB := a.request.approvalId, b.request.approvalId;
    var reject := Decide(idA, Reject(actor, clock, None));
    var store := map[idA := a, idB := b];
    var s := Scene(store, [a, b], [[reject], []], now, reason, clock);
    var rejected := map[idA := Applied(a, Reject(actor, clock, None)), idB := b];
    assert [reject][..0] == [] && Meddled(store, []) == store;
    assert Meddled(store, [reject]) == Moved(store, reject) == rejected;
    assert s.FoundAt(0) == rejected;
    assert s.SweepUpTo(1) == Sweeping(rejected, Report([], [], Some(NotExpirable(Rejected)), 0));
    assert s.FoundAt(1) == rejected;
  }

  /** Or a due record is deleted and requested anew under its identifier.  Both are at
      revision 1, so the sweep expires the new record, due or not. */
  lemma RecreatedIsExpired(a: Record, q: Request, now: int, reason: string, clock: int)
    requires a.status == Pending && a.revision == 1 && Due(a, now)
    requires ValidRequest(q) && q.approvalId == a.request.approvalId
    ensures var s := Scene(map[q.approvalId := a], [a], [[Delete(q.approvalId), Submit(q)]], now, reason, clock);
            var expired := Applied(NewRecord(q), Expire(clock, Some(reason)));
            s.SweepUpTo(1) == Sweeping(map[q.approvalId := expired], Report([expired], [], None, 1))
  {
    var id := q.approvalId;
    var store, delete, submit := map[id := a], Delete(id), Submit(q);
    var s := Scene(store, [a], [[delete, submit]], now, reason, clock);
    assert [delete, submit][..1] == [delete] && [delete][..0] == [] && Meddled(store, []) == store;
    assert Meddled(store, [delete]) == Moved(store, delete) == map[];
    assert Meddled(store, [delete, submit]) == Moved(map[], submit) == map[id := NewRecord(q)];
    assert s.FoundAt(0) == map[id := NewRecord(q)];
  }

  // ----- a sweep that nobody interferes with

  /** An undisturbed sweep expires exactly the due records. */
  function SweptStore(store: Store, now: int, reason: string, clock: int): Store {
    map id | id in store ::
      if Due(store[id], now) then Applied(store[id], Expire(clock, Some(reason))) else store[id]
  }

  /** Every due record is expired once: a second sweep finds nothing due. */
  lemma SweptOnce(store: Store, now: int, reason: string, clock: int, clock': int)
    ensures forall id :: id in store ==> !Due(SweptStore(store, now, reason, clock)[id], now)
    ensures SweptStore(SweptStore(store, now, reason, clock), now, reason, clock') ==
      SweptStore(store, now, reason, clock)
  {
  }

  lemma SweptRecords(store: Store, now: int, reason: string, clock: int)
    ensures SweptStore(store, now, reason, clock).Keys == store.Keys
    ensures forall id :: id in store ==>
      var r := store[id];
      var due := r.status in {Pending, Approved} && r.request.expiresAt.Some? && r.request.expiresAt.value <= now;
      SweptStore(store, now, reason, clock)[id] ==
        if due then r.(status := Expired, decisionAt := Some(clock), revision := r.revision + 1,
                       decisionReason := Some(reason)) else r
  {
  }

  ghost predicate PartlySwept(before: Store, store: Store, listed: seq<Record>, i: nat, now: int, reason: string,
                              clock: int)
    requires i <= |listed|
  {
    && store.Keys == before.Keys
    && forall id :: id in before ==>
         store[id] == (if before[id] in listed[..i] then SweptStore(before, now, reason, clock)[id] else before[id])
  }

  /** What listing pending and approved records gives. */
  ghost predicate ListsExpirable(store: Store, listed: seq<Record>) {
    && (forall r :: r in listed ==> exists id :: id in store && store[id] == r && !IsTerminal(r.status))
    && (forall id :: id in store && !IsTerminal(store[id].status) ==> store[id] in listed)
    && DistinctIds(listed)
  }

  lemma SweepStep(before: Store, store: Store, listed: seq<Record>, i: nat, now: int, reason: string, clock: int)
    requires Keyed(before) && ListsExpirable(before, listed) && i < |listed|
    requires PartlySwept(before, store, listed, i, now, reason, clock)
    ensures var r := listed[i];
            var id := r.request.approvalId;
            && id in store && store[id] == r && before[id] == r
            && PartlySwept(before, if Due(r, now) then store[id := Applied(r, Expire(clock, Some(reason)))] else store,
                           listed, i + 1, now, reason, clock)
  {
    var r := listed[i];
    assert r in listed;
    var id :| id in before && before[id] == r && !IsTerminal(r.status);
    assert listed[..i + 1] == listed[..i] + [r];
    forall other | other in before && before[other] in listed[..i] ensures other != id {
      var j :| 0 <= j < i && listed[j] == before[other];
    }
    forall other | other in before && before[other] == r ensures other == id {
    }
  }

  lemma ListingIsExpirable(store: Store, listed: seq<Record>)
    requires DistinctIds(listed)
    requires forall r ::
               r in listed <==> exists id :: id in store && store[id] == r && Listed(r, {Pending, Approved}, "")
    ensures ListsExpirable(store, listed)
  {
    forall id | id in store && !IsTerminal(store[id].status) ensures store[id] in listed {
      assert Listed(store[id], {Pending, Approved}, "");
    }
  }

  lemma NothingSwept(store: Store, listed: seq<Record>, now: int, reason: string, clock: int)
    ensures PartlySwept(store, store, listed, 0, now, reason, clock)
  {
  }

  lemma AllSwept(before: Store, store: Store, listed: seq<Record>, now: int, reason: string, clock: int)
    requires ListsExpirable(before, listed) && PartlySwept(before, store, listed, |listed|, now, reason, clock)
    ensures store == SweptStore(before, now, reason, clock) && store.Keys == before.Keys
  {
    assert listed[..|listed|] == listed;
  }

  /** The results of expiring the due records of a listing, in its order. */
  function ExpiredOf(listed: seq<Record>, now: int, reason: string, clock: int): seq<Record> {
    if listed == [] then []
    else
      var n := |listed| - 1;
      ExpiredOf(listed[..n], now, reason, clock)
      + if Due(listed[n], now) then [Applied(listed[n], Expire(clock, Some(reason)))] else []
  }

  lemma {:induction false} ExpiredMembers(listed: seq<Record>, now: int, reason: string, clock: int, r: Record)
    ensures r in ExpiredOf(listed, now, reason, clock) <==>
      exists k :: 0 <= k < |listed| && Due(listed[k], now) && r == Applied(listed[k], Expire(clock, Some(reason)))
  {
    if listed != [] {
      hide Due, Applied;
      var n := |listed| - 1;
      ExpiredMembers(listed[..n], now, reason, clock, r);
      assert forall k :: 0 <= k < n ==> listed[..n][k] == listed[k];
    }
  }

  /** The records reported as expired are those that changed. */
  lemma ReportsTheExpired(store: Store, listed: seq<Record>, now: int, reason: string, clock: int, r: Record)
    requires ListsExpirable(store, listed)
    ensures r in ExpiredOf(listed, now, reason, clock) <==>
      exists id :: id in store && Due(store[id], now) && r == SweptStore(store, now, reason, clock)[id]
  {
    hide Applied;
    ExpiredMembers(listed, now, reason, clock, r);
    var swept := SweptStore(store, now, reason, clock);
    if r in ExpiredOf(listed, now, reason, clock) {
      var k :| 0 <= k < |listed| && Due(listed[k], now) && r == Applied(listed[k], Expire(clock, Some(reason)));
      assert listed[k] in listed;
      var id :| id in store && store[id] == listed[k];
      assert Due(store[id], now) && r == swept[id];
    }
    if id :| id in store && Due(store[id], now) && r == swept[id] {
      assert store[id] in listed;
      var k :| 0 <= k < |listed| && listed[k] == store[id];
    }
  }

  lemma UndisturbedSweep(store: Store, listed: Record, now: int, reason: string, clock: int)
    requires Due(listed, now) && listed.request.approvalId in store && store[listed.request.approvalId] == listed
    ensures SweepOne(store, listed, reason, clock)
         == Swept(store[listed.request.approvalId := Applied(listed, Expire(clock, Some(reason)))],
                 Applied(listed, Expire(clock, Some(reason))))
  {
  }

  class ApprovalExpiryService {
    const store: InMemoryApprovalStore
    const controller: ApprovalController
    const expirationReason: string
    const rank: ApprovalId -> int

    constructor (store: InMemoryApprovalStore, expirationReason: string, rank: ApprovalId -> int)
      ensures this.store == store && controller.store == store && this.expirationReason == expirationReason
    {
      this.store, this.expirationReason, this.rank := store, expirationReason, rank;
      this.controller := new ApprovalController(store);
    }

    method Sweep(approval: Record, clock: int) returns (result: SweepResult)
      requires controller.store == store
      modifies store
      ensures result == SweepOne(old(store.records), approval, expirationReason, clock)
      ensures store.records == if result.Swept? then result.store else old(store.records)
    {
      var out := controller.Expire(approval.request.approvalId, expirationReason, Some(approval.revision), clock);
      match out
      case Done(store', record) => result := Swept(store', record);
      case Failed(StaleRevision(e, c)) => result := Conflict(StaleRevision(e, c));
      case Failed(error) => result := Rethrown(error);
    }

    /** Nobody else runs during this sweep, so it meets no conflict and raises nothing. */
    method ExpireDue(now: int, clock: int)
      returns (expired: seq<Record>, conflicts: seq<(ApprovalId, Error)>, raised: Option<Error>)
      requires controller.store == store && Keyed(store.records)
      modifies store
      ensures store.records == SweptStore(old(store.records), now, expirationReason, clock)
      ensures conflicts == [] && raised == None
      ensures store.records.Keys == old(store.records).Keys
      ensures forall id :: id in store.records ==>
        var r := old(store.records)[id];
        var due := r.status in {Pending, Approved} && r.request.expiresAt.Some? && r.request.expiresAt.value <= now;
        store.records[id] == if due then r.(status := Expired, decisionAt := Some(clock), revision := r.revision + 1,
                                            decisionReason := Some(expirationReason)) else r
      ensures forall r :: r in expired <==>
        exists id :: id in old(store.records) && Due(old(store.records)[id], now) && r == store.records[id]
    {
      hide SweptStore, PartlySwept, ListsExpirable, Applied, SweepOne, DistinctIds, InListOrder;
      ghost var before := store.records;
      var expirable := List(store.records, {Pending, Approved}, "", rank);
      ListingIsExpirable(before, expirable);
      expired, conflicts, raised := [], [], None;
      var i := 0;
      NothingSwept(before, expirable, now, expirationReason, clock);
      while i < |expirable| && raised == None
        invariant 0 <= i <= |expirable| && conflicts == [] && raised == None
        invariant PartlySwept(before, store.records, expirable, i, now, expirationReason, clock)
        invariant expired == ExpiredOf(expirable[..i], now, expirationReason, clock)
      {
        SweepStep(before, store.records, expirable, i, now, expirationReason, clock);
        var approval := expirable[i];
        assert expirable[..i + 1][..i] == expirable[..i];
        if Due(approval, now) {
          UndisturbedSweep(store.records, approval, now, expirationReason, clock);
          var result := Sweep(approval, clock);
          match result
          case Swept(_, record) => expired := expired + [record];
          case Conflict(error) => conflicts := conflicts + [(approval.request.approvalId, error)];
          case Rethrown(error) => raised := Some(error);
        }
        i := i + 1;
      }
      AllSwept(before, store.records, expirable, now, expirationReason, clock);
      SweptRecords(before, now, expirationReason, clock);
      assert expirable[..i] == expirable;
      forall r ensures r in expired <==>
        exists id :: id in before && Due(before[id], now) && r == store.records[id]
      {
        ReportsTheExpired(before, expirable, now, expirationReason, clock, r);
      }
    }
  }
}
