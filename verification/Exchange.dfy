/** Any number of communication grounds that publish messages and receive each other's, in
    any order, late, repeatedly or never, and forget what they have seen (publish,
    receiveFromNetwork and cleanupDedup of
    packages/cli/src/core/comms/DistributedCommsGround.ts). */
module Exchange {
  import opened VectorClock
  import opened ArrivalOrder
  import opened MessageLog
  import opened Deliveries
  import Causality

  /** The grounds, the events of the run that moved their clocks, and the message that each
      of these events published or accepted. */
  datatype Network = Network(grounds: map<NodeId, Ground>, history: seq<Causality.Event>, messages: seq<Message>)

  const START := Network(map[], [], [])

  function GroundAt(w: Network, node: NodeId): Ground {
    if node in w.grounds then w.grounds[node] else Ground(node, map[node := 0], map[], map[])
  }

  /** A delivery names the event that published the message. */
  datatype Action =
    | PublishAt(node: NodeId, task: TaskId, id: MsgId, kind: string, priority: string, now: nat)
    | DeliverAt(node: NodeId, published: nat, now: nat)
    | ForgetAt(node: NodeId, kept: set<MsgId>)

  /** Event `k` published a message. */
  predicate Publication(w: Network, k: nat) {
    k < |w.history| && k < |w.messages| && w.history[k].action.Publish?
  }

  predicate Possible(w: Network, a: Action) {
    a.DeliverAt? ==> Publication(w, a.published)
  }

  /** What the action is to its ground. */
  function StepOf(w: Network, a: Action): Step
    requires Possible(w, a)
  {
    match a
    case PublishAt(_, task, id, kind, priority, now) => PublishNew(task, id, kind, priority, now)
    case DeliverAt(_, k, now) => Deliver(w.messages[k], now)
    case ForgetAt(_, kept) => Forget(kept)
  }

  function Happens(w: Network, a: Action, limits: Limits): Network
    requires Possible(w, a)
  {
    var g, s := GroundAt(w, a.node), StepOf(w, a);
    var g' := Next(g, s, limits);
    var grounds' := w.grounds[a.node := g'];
    var what := Storing(g, s);
    if what.None? then w.(grounds := grounds')
    else
      var action := if a.DeliverAt? then Causality.Accept(a.published) else Causality.Publish;
      Network(grounds', w.history + [Causality.Event(a.node, action, g'.clock)], w.messages + [what.value.1])
  }

  predicate Legal(w: Network, run: seq<Action>, limits: Limits)
    decreases |run|
  {
    run != [] ==> Possible(w, run[0]) && Legal(Happens(w, run[0], limits), run[1..], limits)
  }

  function Execute(w: Network, run: seq<Action>, limits: Limits): Network
    requires Legal(w, run, limits)
    decreases |run|
  {
    if run == [] then w else Execute(Happens(w, run[0], limits), run[1..], limits)
  }

  // ----- the clocks of the network are those of a run of nodes

  ghost predicate ClocksFit(w: Network) {
    && Causality.Run(w.history)
    && forall node :: GroundAt(w, node).self == node && Causality.ClockOf(w.history, node) == GroundAt(w, node).clock
  }

  ghost predicate MessagesFit(w: Network) {
    && |w.messages| == |w.history|
    && forall k: nat :: Publication(w, k) ==> w.messages[k].clock == w.history[k].clock
  }

  ghost predicate WasPublished(w: Network, m: Message) {
    exists k: nat :: Publication(w, k) && w.messages[k] == m
  }

  /** A log holds nothing but published messages. */
  ghost predicate LogFits(w: Network, log: TaskLog) {
    forall id :: id in log.messages ==> WasPublished(w, log.messages[id])
  }

  ghost predicate LogsFit(w: Network) {
    forall node, task :: LogFits(w, LogFor(GroundAt(w, node), task))
  }

  ghost predicate Fits(w: Network) {
    ClocksFit(w) && MessagesFit(w) && LogsFit(w)
  }

  lemma StillFits(history: seq<Causality.Event>, e: Causality.Event, j: nat)
    requires j < |history| && Causality.EventFits(history, j)
    ensures Causality.EventFits(history + [e], j)
  {
    assert (history + [e])[..j] == history[..j];
  }

  lemma NewestFits(history: seq<Causality.Event>, e: Causality.Event)
    requires e.action.Accept? ==> e.action.message < |history| && history[e.action.message].action.Publish?
    requires e.clock == Causality.NextClock(history, e.node, e.action)
    ensures Causality.EventFits(history + [e], |history|)
  {
    assert (history + [e])[..|history|] == history;
  }

  lemma RunGrows(history: seq<Causality.Event>, e: Causality.Event)
    requires Causality.Run(history)
    requires e.action.Accept? ==> e.action.message < |history| && history[e.action.message].action.Publish?
    requires e.clock == Causality.NextClock(history, e.node, e.action)
    ensures Causality.Run(history + [e])
  {
    hide Causality.EventFits, Causality.NextClock;
    var longer := history + [e];
    forall j | 0 <= j < |longer| ensures Causality.EventFits(longer, j) {
      if j < |history| {
        Causality.FittingEvent(history, j);
        StillFits(history, e, j);
      } else {
        NewestFits(history, e);
      }
    }
  }

  lemma ClockAfterEvent(history: seq<Causality.Event>, e: Causality.Event, node: NodeId)
    ensures Causality.ClockOf(history + [e], node) ==
      if e.node == node then e.clock else Causality.ClockOf(history, node)
  {
    assert (history + [e])[..|history|] == history;
  }

  /** A step that stores nothing leaves the clock alone; otherwise it ticks or merges. */
  lemma ClockOfStep(g: Ground, s: Step, limits: Limits)
    ensures Next(g, s, limits).self == g.self
    ensures Next(g, s, limits).clock ==
      if Storing(g, s).None? then g.clock
      else if s.Deliver? then Merged(g.clock, s.message.clock, g.self)
      else Ticked(g.clock, g.self)
  {
    hide Stored, SameCounters, Merged, Ticked;
  }

  /** What a step stores is the delivered message or one that carries the ticked clock. */
  lemma StoredByStep(g: Ground, s: Step)
    ensures var what := Storing(g, s);
            what.Some? && s.Deliver? ==> what.value.1 == s.message
    ensures var what := Storing(g, s);
            what.Some? && !s.Deliver? ==> s.PublishNew? && what.value.1.clock == Ticked(g.clock, g.self)
  {
  }

  lemma GroundAfter(w: Network, a: Action, limits: Limits, node: NodeId)
    requires Possible(w, a)
    ensures GroundAt(Happens(w, a, limits), node) ==
      if node == a.node then Next(GroundAt(w, a.node), StepOf(w, a), limits) else GroundAt(w, node)
  {
    hide Next, Storing;
  }

  /** The event that is recorded when something is stored. */
  function Recorded(w: Network, a: Action, limits: Limits): Causality.Event
    requires Possible(w, a)
  {
    Causality.Event(a.node, if a.DeliverAt? then Causality.Accept(a.published) else Causality.Publish,
                    Next(GroundAt(w, a.node), StepOf(w, a), limits).clock)
  }

  lemma HistoryAfter(w: Network, a: Action, limits: Limits)
    requires Possible(w, a)
    ensures var w' := Happens(w, a, limits);
            var what := Storing(GroundAt(w, a.node), StepOf(w, a));
            if what.None? then w'.history == w.history && w'.messages == w.messages
            else w'.history == w.history + [Recorded(w, a, limits)] && w'.messages == w.messages + [what.value.1]
  {
    hide Next, Storing;
  }

  lemma RecordedFits(w: Network, a: Action, limits: Limits)
    requires ClocksFit(w) && MessagesFit(w) && Possible(w, a)
    requires Storing(GroundAt(w, a.node), StepOf(w, a)).Some?
    ensures var e := Recorded(w, a, limits);
            && (e.action.Accept? ==> e.action.message < |w.history| && w.history[e.action.message].action.Publish?)
            && e.clock == Causality.NextClock(w.history, e.node, e.action)
  {
    ClockOfStep(GroundAt(w, a.node), StepOf(w, a), limits);
    StoredByStep(GroundAt(w, a.node), StepOf(w, a));
    hide Next, Storing, Causality.Run, Causality.ClockOf;
    assert Causality.ClockOf(w.history, a.node) == GroundAt(w, a.node).clock;
  }

  lemma HappensKeepsClocks(w: Network, a: Action, limits: Limits)
    requires ClocksFit(w) && MessagesFit(w) && Possible(w, a)
    ensures ClocksFit(Happens(w, a, limits))
  {
    var w' := Happens(w, a, limits);
    hide Happens, Next, Storing, Recorded, Causality.Run, Causality.ClockOf, Causality.NextClock, MessagesFit;
    ClockOfStep(GroundAt(w, a.node), StepOf(w, a), limits);
    HistoryAfter(w, a, limits);
    var what := Storing(GroundAt(w, a.node), StepOf(w, a));
    if what.Some? {
      RecordedFits(w, a, limits);
      RunGrows(w.history, Recorded(w, a, limits));
    }
    forall node
      ensures GroundAt(w', node).self == node && Causality.ClockOf(w'.history, node) == GroundAt(w', node).clock
    {
      GroundAfter(w, a, limits, node);
      RecordedClock(w, a, limits);
      if what.Some? {
        ClockAfterEvent(w.history, Recorded(w, a, limits), node);
      }
    }
  }

  lemma RecordedClock(w: Network, a: Action, limits: Limits)
    requires Possible(w, a)
    ensures Recorded(w, a, limits).node == a.node
    ensures Recorded(w, a, limits).clock == Next(GroundAt(w, a.node), StepOf(w, a), limits).clock
    ensures Recorded(w, a, limits).action.Publish? <==> !a.DeliverAt?
  {
    hide Next;
  }

  lemma HappensKeepsMessages(w: Network, a: Action, limits: Limits)
    requires MessagesFit(w) && Possible(w, a)
    ensures MessagesFit(Happens(w, a, limits))
  {
    var w' := Happens(w, a, limits);
    hide Happens, Next, Storing, Recorded;
    HistoryAfter(w, a, limits);
    ClockOfStep(GroundAt(w, a.node), StepOf(w, a), limits);
    StoredByStep(GroundAt(w, a.node), StepOf(w, a));
    RecordedClock(w, a, limits);
    forall k: nat | Publication(w', k) ensures w'.messages[k].clock == w'.history[k].clock {
      if k < |w.history| {
        assert Publication(w, k);
      }
    }
  }

  /** Whatever is published stays so, and what a step stores is published then. */
  lemma PublishedStays(w: Network, a: Action, limits: Limits, m: Message)
    requires MessagesFit(w) && Possible(w, a) && WasPublished(w, m)
    ensures WasPublished(Happens(w, a, limits), m)
  {
    var w' := Happens(w, a, limits);
    hide Happens, Next, Storing, Recorded;
    HistoryAfter(w, a, limits);
    var k: nat :| Publication(w, k) && w.messages[k] == m;
    assert Publication(w', k) && w'.messages[k] == m;
  }

  lemma StoredIsPublished(w: Network, a: Action, limits: Limits)
    requires MessagesFit(w) && Possible(w, a) && Storing(GroundAt(w, a.node), StepOf(w, a)).Some?
    ensures WasPublished(Happens(w, a, limits), Storing(GroundAt(w, a.node), StepOf(w, a)).value.1)
  {
    var w' := Happens(w, a, limits);
    StoredByStep(GroundAt(w, a.node), StepOf(w, a));
    hide Happens, Next, Storing, Recorded;
    HistoryAfter(w, a, limits);
    RecordedClock(w, a, limits);
    if a.DeliverAt? {
      assert WasPublished(w, w.messages[a.published]);
      PublishedStays(w, a, limits, w.messages[a.published]);
    } else {
      assert Publication(w', |w.history|);
    }
  }

  // ----- accepted messages bring new clocks

  /** The clock of a message tells by which event it was published. */
  lemma ClockNamesPublication(w: Network, j: nat, k: nat)
    requires ClocksFit(w) && MessagesFit(w) && Publication(w, j) && Publication(w, k)
    requires SameCounters(w.messages[j].clock, w.messages[k].clock)
    ensures j == k
  {
    Causality.ReportsOnRuns(w.history, j, k);
    hide Causality.Run, Causality.HappenedBefore, Causality.ClockOf;
  }

  lemma SameClockSameMessage(w: Network, k: nat, m: Message)
    requires ClocksFit(w) && MessagesFit(w) && Publication(w, k) && WasPublished(w, m)
    requires SameCounters(w.messages[k].clock, m.clock)
    ensures w.messages[k] == m
  {
    hide SameCounters, ClocksFit, MessagesFit;
    var j: nat :| Publication(w, j) && w.messages[j] == m;
    ClockNamesPublication(w, k, j);
  }

  lemma SaneIsConsistent(g: Ground)
    requires Sane(g)
    ensures AllConsistent(g)
  {
    hide Consistent, SortedByTime, LessOrEqual;
  }

  /** A delivered message that its log does not hold has a clock that its log does not hold. */
  lemma DeliveryIsNew(w: Network, node: NodeId, k: nat, limits: Limits)
    requires Fits(w) && Sane(GroundAt(w, node)) && Publication(w, k)
    requires var m := w.messages[k];
             m.id !in Room(LogFor(GroundAt(w, node), m.taskId), limits).messages
    ensures var m := w.messages[k];
            NewClock(Room(LogFor(GroundAt(w, node), m.taskId), limits), m)
  {
    var m := w.messages[k];
    hide SameCounters, ClocksFit, MessagesFit, Publication, WasPublished, Room, Sane, GroundAt, LogFor;
    var log := LogFor(GroundAt(w, node), m.taskId);
    SaneIsConsistent(GroundAt(w, node));
    LogForConsistent(GroundAt(w, node), m.taskId);
    var gone := RoomIsConsistent(log, limits);
    assert LogFits(w, log);
    forall id | id in Room(log, limits).messages ensures !SameCounters(m.clock, log.messages[id].clock) {
      assert WasPublished(w, log.messages[id]) && log.messages[id].id == id;
      if SameCounters(m.clock, log.messages[id].clock) {
        SameClockSameMessage(w, k, log.messages[id]);
      }
    }
  }

  lemma ActionFits(w: Network, a: Action, limits: Limits)
    requires Fits(w) && Sane(GroundAt(w, a.node)) && Possible(w, a)
    requires StoresNew(GroundAt(w, a.node), StepOf(w, a), limits)
    ensures StepFits(GroundAt(w, a.node), StepOf(w, a), limits)
  {
    hide Fits, Sane, GroundAt, Room, LogFor, NewClock;
    if a.DeliverAt? && Accepts(GroundAt(w, a.node), w.messages[a.published]) {
      DeliveryIsNew(w, a.node, a.published, limits);
    }
  }

  // ----- what every action keeps

  lemma StoredNewClock(g: Ground, s: Step, limits: Limits)
    requires Sane(g) && StepFits(g, s, limits) && Storing(g, s).Some?
    ensures var (task, m) := Storing(g, s).value;
            m.id !in Room(LogFor(g, task), limits).messages && NewClock(Room(LogFor(g, task), limits), m)
  {
    EmptyLogIsSane(g);
    hide SaneLog, Room, NewClock, Ticked, SameCounters;
    if s.PublishNew? {
      var (task, m) := Storing(g, s).value;
      assert SaneLog(g, LogFor(g, task));
      TickIsNew(g, LogFor(g, task), m, limits);
    }
  }

  /** A step puts nothing but what it stores into a log. */
  lemma StepAddsOnly(g: Ground, s: Step, limits: Limits, task: TaskId, id: MsgId)
    requires Sane(g) && StepFits(g, s, limits) && id in LogFor(Next(g, s, limits), task).messages
    ensures var m := LogFor(Next(g, s, limits), task).messages[id];
            || (id in LogFor(g, task).messages && m == LogFor(g, task).messages[id])
            || (Storing(g, s).Some? && m == Storing(g, s).value.1)
  {
    StepStores(g, s, limits);
    var what := Storing(g, s);
    if what.Some? && what.value.0 == task {
      StoredNewClock(g, s, limits);
      EmptyLogIsSane(g);
      hide Next, Storing, Stored, Room, NewClock, StepFits, SortedByTime, Consistent, LessOrEqual;
      StoreKeepsLog(LogFor(g, task), what.value.1, limits);
    }
    hide Next, Storing, Stored, Sane, StepFits;
  }

  lemma HappensKeepsLogs(w: Network, a: Action, limits: Limits)
    requires Fits(w) && Sane(GroundAt(w, a.node)) && Possible(w, a)
    requires StepFits(GroundAt(w, a.node), StepOf(w, a), limits)
    ensures LogsFit(Happens(w, a, limits))
  {
    var w', g, s := Happens(w, a, limits), GroundAt(w, a.node), StepOf(w, a);
    hide Happens, Next, Storing, Sane, StepFits, ClocksFit, MessagesFit, WasPublished, StepOf, GroundAt, LogFor;
    forall node, task, id | id in LogFor(GroundAt(w', node), task).messages
      ensures WasPublished(w', LogFor(GroundAt(w', node), task).messages[id])
    {
      GroundAfter(w, a, limits, node);
      assert LogFits(w, LogFor(GroundAt(w, node), task));
      var m := LogFor(GroundAt(w', node), task).messages[id];
      if node == a.node {
        StepAddsOnly(g, s, limits, task, id);
      }
      if WasPublished(w, m) {
        PublishedStays(w, a, limits, m);
      } else {
        StoredIsPublished(w, a, limits);
      }
    }
  }

  ghost predicate AllSane(w: Network) {
    forall node :: Sane(GroundAt(w, node))
  }

  lemma HappensKeepsSane(w: Network, a: Action, limits: Limits)
    requires Fits(w) && AllSane(w) && Possible(w, a)
    requires StoresNew(GroundAt(w, a.node), StepOf(w, a), limits)
    ensures Fits(Happens(w, a, limits)) && AllSane(Happens(w, a, limits))
  {
    hide Happens, Next, Storing, Sane, StepFits, ClocksFit, MessagesFit, LogsFit, StepOf, GroundAt, StoresNew;
    ActionFits(w, a, limits);
    HappensKeepsClocks(w, a, limits);
    HappensKeepsMessages(w, a, limits);
    HappensKeepsLogs(w, a, limits);
    StepKeepsSane(GroundAt(w, a.node), StepOf(w, a), limits);
    forall node ensures Sane(GroundAt(Happens(w, a, limits), node)) {
      GroundAfter(w, a, limits, node);
    }
  }

  lemma StartFits()
    ensures Fits(START) && AllSane(START)
  {
  }

  // ----- over every run

  /** No action stores an identifier that is still in its log. */
  ghost predicate AlwaysStoresNew(w: Network, run: seq<Action>, limits: Limits)
    requires Legal(w, run, limits)
    decreases |run|
  {
    run != [] ==>
      && StoresNew(GroundAt(w, run[0].node), StepOf(w, run[0]), limits)
      && AlwaysStoresNew(Happens(w, run[0], limits), run[1..], limits)
  }

  /** At every ground every log lists each of its messages exactly once. */
  ghost predicate LogsConsistent(w: Network) {
    forall node :: AllConsistent(GroundAt(w, node))
  }

  /** They also are in the order of the timestamps. */
  ghost predicate LogsInOrder(w: Network) {
    forall node, task ::
      var log := LogFor(GroundAt(w, node), task);
      Consistent(log) && SortedByTime(Transcript(log))
  }

  ghost predicate AlwaysConsistent(w: Network, run: seq<Action>, limits: Limits)
    requires Legal(w, run, limits)
    decreases |run|
  {
    LogsConsistent(w) && (run != [] ==> AlwaysConsistent(Happens(w, run[0], limits), run[1..], limits))
  }

  ghost predicate AlwaysInOrder(w: Network, run: seq<Action>, limits: Limits)
    requires Legal(w, run, limits)
    decreases |run|
  {
    LogsInOrder(w) && (run != [] ==> AlwaysInOrder(Happens(w, run[0], limits), run[1..], limits))
  }

  lemma SaneLogsAreInOrder(w: Network)
    requires AllSane(w)
    ensures LogsConsistent(w) && LogsInOrder(w)
  {
    hide GroundAt, LogFor, Sane, SaneLog;
    forall node ensures AllConsistent(GroundAt(w, node)) {
      SaneIsConsistent(GroundAt(w, node));
    }
    forall node, task
      ensures var log := LogFor(GroundAt(w, node), task); Consistent(log) && SortedByTime(Transcript(log))
    {
      assert Sane(GroundAt(w, node));
      SaneLogFor(GroundAt(w, node), task);
    }
  }

  lemma SaneLogFor(g: Ground, task: TaskId)
    requires Sane(g)
    ensures var log := LogFor(g, task); Consistent(log) && SortedByTime(Transcript(log))
  {
    EmptyLogIsSane(g);
  }

  lemma ConsistentMeansNew(w: Network, a: Action, limits: Limits)
    requires Possible(w, a) && LogsConsistent(w) && LogsConsistent(Happens(w, a, limits))
    ensures StoresNew(GroundAt(w, a.node), StepOf(w, a), limits)
  {
    hide Happens, Next, StoresNew, GroundAt, StepOf, AllConsistent;
    GroundAfter(w, a, limits, a.node);
    assert AllConsistent(GroundAt(Happens(w, a, limits), a.node)) && AllConsistent(GroundAt(w, a.node));
    StepConsistentIff(GroundAt(w, a.node), StepOf(w, a), limits);
  }

  /** Over every run of any number of grounds: the logs list their messages once all along if
      and only if nothing is stored twice, and then they are in time order all along.  That
      accepted messages bring new clocks need not be asked for: it follows. */
  lemma {:induction false} LogsStayInOrderIff(w: Network, run: seq<Action>, limits: Limits)
    requires Fits(w) && AllSane(w) && Legal(w, run, limits)
    ensures AlwaysConsistent(w, run, limits) <==> AlwaysStoresNew(w, run, limits)
    ensures AlwaysInOrder(w, run, limits) <==> AlwaysStoresNew(w, run, limits)
    ensures AlwaysStoresNew(w, run, limits) ==>
      Fits(Execute(w, run, limits)) && AllSane(Execute(w, run, limits))
    decreases |run|
  {
    hide Fits, AllSane, Happens, StoresNew, LogsConsistent, LogsInOrder, GroundAt, StepOf, Possible;
    SaneLogsAreInOrder(w);
    if run != [] {
      var w' := Happens(w, run[0], limits);
      if StoresNew(GroundAt(w, run[0].node), StepOf(w, run[0]), limits) {
        HappensKeepsSane(w, run[0], limits);
        LogsStayInOrderIff(w', run[1..], limits);
      } else {
        if LogsInOrder(w') {
          InOrderIsConsistent(w');
        }
        if LogsConsistent(w') {
          ConsistentMeansNew(w, run[0], limits);
        }
      }
    }
  }

  lemma InOrderIsConsistent(w: Network)
    requires LogsInOrder(w)
    ensures LogsConsistent(w)
  {
    hide GroundAt, Consistent, SortedByTime;
    forall node, task | task in GroundAt(w, node).logs ensures Consistent(GroundAt(w, node).logs[task]) {
      assert Consistent(LogFor(GroundAt(w, node), task));
    }
  }

  // ----- what the logs say about happened-before

  /** Timestamps strictly increase from a publication to all that it happened before. */
  ghost predicate StampedAlong(w: Network) {
    forall j: nat, k: nat :: Publication(w, j) && Publication(w, k) && Causality.HappenedBefore(w.history, j, k) ==>
      w.messages[j].timestamp < w.messages[k].timestamp
  }

  /** Event `j` published the i-th message of the transcript. */
  predicate Logged(w: Network, transcript: seq<Message>, i: nat, j: nat) {
    i < |transcript| && Publication(w, j) && w.messages[j] == transcript[i]
  }

  /** Nothing is listed behind a message that its publication happened before. */
  ghost predicate ListsCausally(w: Network, transcript: seq<Message>) {
    forall i: nat, i': nat, j: nat, k: nat ::
      i < i' && Logged(w, transcript, i, j) && Logged(w, transcript, i', k) ==>
        !Causality.HappenedBefore(w.history, k, j)
  }

  /** From nothing on, in every run that stores nothing twice, every log at every ground holds
      published messages only, and lists them in an order that fits happened-before whenever
      timestamps do. */
  lemma LogsFollowHappenedBefore(run: seq<Action>, limits: Limits, node: NodeId, task: TaskId)
    requires Legal(START, run, limits) && AlwaysStoresNew(START, run, limits)
    ensures var w := Execute(START, run, limits);
            var log := LogFor(GroundAt(w, node), task);
            && Consistent(log) && LogFits(w, log)
            && (StampedAlong(w) ==> ListsCausally(w, Transcript(log)))
  {
    StartFits();
    LogsStayInOrderIff(START, run, limits);
    var w := Execute(START, run, limits);
    SaneLogsAreInOrder(w);
    hide Execute, GroundAt, LogFor, AllSane, AlwaysStoresNew, Legal, ClocksFit, MessagesFit, Consistent, LogFits;
    var log := LogFor(GroundAt(w, node), task);
    assert Consistent(log) && SortedByTime(Transcript(log));
    if StampedAlong(w) {
      TimeOrderFits(w, Transcript(log));
    }
  }

  lemma TimeOrderFits(w: Network, transcript: seq<Message>)
    requires StampedAlong(w) && SortedByTime(transcript)
    ensures ListsCausally(w, transcript)
  {
    hide Publication, Causality.HappenedBefore;
  }
}
