/** The bounded log of one task (storeMessage, findCausalInsertIndex and
    evictOldMessages of packages/cli/src/core/comms/DistributedCommsGround.ts): a map
    of messages and a list of their identifiers, edited side by side. */
module MessageLog {
  import opened Sequences
  import opened VectorClock
  import opened ArrivalOrder

  type MsgId = string

  datatype TaskLog = TaskLog(messages: map<MsgId, Message>, order: seq<MsgId>)

  /** The list names every stored message, each one once. */
  ghost predicate Consistent(log: TaskLog) {
    && Distinct(log.order)
    && (forall id :: id in log.order <==> id in log.messages)
    && (forall id :: id in log.messages ==> log.messages[id].id == id)
  }

  function InsertIndex(log: TaskLog, m: Message): (k: nat)
    ensures k <= |log.order|
    ensures k < |log.order| ==> log.order[k] in log.messages && GoesBefore(m, log.messages[log.order[k]])
    ensures forall i :: 0 <= i < k && log.order[i] in log.messages ==> !GoesBefore(m, log.messages[log.order[i]])
  {
    IndexFrom(log, m, 0)
  }

  function IndexFrom(log: TaskLog, m: Message, i: nat): (k: nat)
    requires i <= |log.order|
    ensures i <= k <= |log.order|
    ensures k < |log.order| ==> log.order[k] in log.messages && GoesBefore(m, log.messages[log.order[k]])
    ensures forall j :: i <= j < k && log.order[j] in log.messages ==> !GoesBefore(m, log.messages[log.order[j]])
    decreases |log.order| - i
  {
    if i == |log.order| || (log.order[i] in log.messages && GoesBefore(m, log.messages[log.order[i]])) then i
    else IndexFrom(log, m, i + 1)
  }

  function Inserted(log: TaskLog, m: Message): TaskLog {
    var k := InsertIndex(log, m);
    TaskLog(log.messages[m.id := m], log.order[..k] + [m.id] + log.order[k..])
  }

  predicate Protected(m: Message) {
    m.kind == "error" || m.kind == "decision" || m.kind == "summary" || m.priority == "critical"
  }

  /** The identifiers chosen among the entries from `i` on that precede the last
      `recent` ones, at most `quota` of them. */
  function Chosen(log: TaskLog, recent: nat, quota: nat, i: nat): seq<MsgId>
    decreases |log.order| - i
  {
    if i + recent >= |log.order| || quota == 0 then []
    else
      var id := log.order[i];
      if id in log.messages && !Protected(log.messages[id])
        then [id] + Chosen(log, recent, quota - 1, i + 1)
        else Chosen(log, recent, quota, i + 1)
  }

  function Evictable(log: TaskLog, recent: nat): seq<MsgId> {
    Chosen(log, recent, |log.messages| / 5, 0)
  }

  function RemoveFirst(order: seq<MsgId>, id: MsgId): seq<MsgId> {
    if order == [] then []
    else if order[0] == id then order[1..]
    else [order[0]] + RemoveFirst(order[1..], id)
  }

  function RemoveAll(log: TaskLog, ids: seq<MsgId>): TaskLog
    decreases |ids|
  {
    if ids == [] then log
    else RemoveAll(TaskLog(log.messages - {ids[0]}, RemoveFirst(log.order, ids[0])), ids[1..])
  }

  function Evicted(log: TaskLog, recent: nat): TaskLog {
    RemoveAll(log, Evictable(log, recent))
  }

  datatype Limits = Limits(maxMessagesPerTask: nat, protectedRecentMessages: nat)

  function Stored(log: TaskLog, m: Message, limits: Limits): TaskLog {
    var full := |log.messages| >= limits.maxMessagesPerTask;
    Inserted(if full then Evicted(log, limits.protectedRecentMessages) else log, m)
  }

  /** The entries that are not evictable whatever their number: the recent ones, errors,
      decisions and summaries, and what is critical. */
  ghost predicate Spared(log: TaskLog, recent: nat, id: MsgId) {
    (exists i :: 0 <= i < |log.order| && i + recent >= |log.order| && log.order[i] == id)
    || (id in log.messages
        && (log.messages[id].kind in {"error", "decision", "summary"} || log.messages[id].priority == "critical"))
  }

  lemma {:induction false} ChosenAreUnprotected(log: TaskLog, recent: nat, quota: nat, i: nat)
    requires Consistent(log)
    ensures |Chosen(log, recent, quota, i)| <= quota
    ensures forall id :: id in Chosen(log, recent, quota, i) ==>
      id in log.messages && !Protected(log.messages[id])
      && exists j :: i <= j && j + recent < |log.order| && log.order[j] == id
    ensures Distinct(Chosen(log, recent, quota, i))
    decreases |log.order| - i
  {
    if i + recent < |log.order| && quota > 0 {
      var id := log.order[i];
      if id in log.messages && !Protected(log.messages[id]) {
        ChosenAreUnprotected(log, recent, quota - 1, i + 1);
      } else {
        ChosenAreUnprotected(log, recent, quota, i + 1);
      }
    }
  }

  /** The first eligible entries are taken until the quota is reached. */
  lemma {:induction false} ChosenIsGreedy(log: TaskLog, recent: nat, quota: nat, i: nat, j: nat)
    requires i <= j && j + recent < |log.order|
    requires log.order[j] in log.messages && !Protected(log.messages[log.order[j]])
    ensures log.order[j] in Chosen(log, recent, quota, i) || |Chosen(log, recent, quota, i)| == quota
    decreases |log.order| - i
  {
    if i < j && quota > 0 {
      var id := log.order[i];
      if id in log.messages && !Protected(log.messages[id]) {
        ChosenIsGreedy(log, recent, quota - 1, i + 1, j);
      } else {
        ChosenIsGreedy(log, recent, quota, i + 1, j);
      }
    }
  }

  function Keep(order: seq<MsgId>, gone: set<MsgId>): seq<MsgId> {
    if order == [] then []
    else if order[0] in gone then Keep(order[1..], gone)
    else [order[0]] + Keep(order[1..], gone)
  }

  lemma {:induction false} KeepMembers(order: seq<MsgId>, gone: set<MsgId>, id: MsgId)
    ensures id in Keep(order, gone) <==> id in order && id !in gone
  {
    if order != [] {
      KeepMembers(order[1..], gone, id);
    }
  }

  /** Keeping is order-preserving: two kept entries stood in the same order before. */
  lemma {:induction false} KeepEmbeds(order: seq<MsgId>, gone: set<MsgId>, i: nat, j: nat) returns (i': nat, j': nat)
    requires i < j < |Keep(order, gone)|
    ensures i' < j' < |order| && order[i'] == Keep(order, gone)[i] && order[j'] == Keep(order, gone)[j]
  {
    if order[0] in gone {
      i', j' := KeepEmbeds(order[1..], gone, i, j);
      i', j' := i' + 1, j' + 1;
    } else if i == 0 {
      KeepMembers(order[1..], gone, Keep(order, gone)[j]);
      assert Keep(order, gone)[j] == Keep(order[1..], gone)[j - 1];
      var k :| 0 <= k < |order[1..]| && order[1..][k] == Keep(order, gone)[j];
      i', j' := 0, k + 1;
    } else {
      i', j' := KeepEmbeds(order[1..], gone, i - 1, j - 1);
      i', j' := i' + 1, j' + 1;
    }
  }

  lemma KeepDistinct(order: seq<MsgId>, gone: set<MsgId>)
    requires Distinct(order)
    ensures Distinct(Keep(order, gone))
  {
    var kept := Keep(order, gone);
    forall i, j | 0 <= i < j < |kept| ensures kept[i] != kept[j] {
      var i', j' := KeepEmbeds(order, gone, i, j);
    }
  }

  lemma {:induction false} KeepAll(order: seq<MsgId>, gone: set<MsgId>)
    requires forall id :: id in order ==> id !in gone
    ensures Keep(order, gone) == order
  {
    if order != [] {
      KeepAll(order[1..], gone);
    }
  }

  lemma {:induction false} RemoveFirstKeeps(order: seq<MsgId>, id: MsgId)
    requires Distinct(order)
    ensures RemoveFirst(order, id) == Keep(order, {id})
  {
    if order != [] {
      if order[0] == id {
        KeepAll(order[1..], {id});
      } else {
        RemoveFirstKeeps(order[1..], id);
      }
    }
  }

  lemma {:induction false} KeepTwice(order: seq<MsgId>, first: set<MsgId>, second: set<MsgId>)
    ensures Keep(Keep(order, first), second) == Keep(order, first + second)
  {
    if order != [] {
      KeepTwice(order[1..], first, second);
    }
  }

  /** Deleting the entries one after the other keeps the others in place. */
  lemma {:induction false} RemoveAllKeeps(log: TaskLog, ids: seq<MsgId>)
    requires Distinct(log.order)
    ensures RemoveAll(log, ids) == TaskLog(log.messages - (set id | id in ids), Keep(log.order, set id | id in ids))
    decreases |ids|
  {
    if ids == [] {
      KeepAll(log.order, {});
      assert (set id | id in ids) == {} && log.messages - {} == log.messages;
    } else {
      RemoveFirstKeeps(log.order, ids[0]);
      KeepDistinct(log.order, {ids[0]});
      RemoveAllKeeps(TaskLog(log.messages - {ids[0]}, RemoveFirst(log.order, ids[0])), ids[1..]);
      KeepTwice(log.order, {ids[0]}, set id | id in ids[1..]);
      var gone, rest := (set id | id in ids), (set id | id in ids[1..]);
      assert gone == {ids[0]} + rest;
      assert log.messages - {ids[0]} - rest == log.messages - gone;
    }
  }

  /** What eviction takes: at most a fifth, nothing recent, nothing protected; and the
      rest keeps its order. */
  lemma EvictionIsBounded(log: TaskLog, recent: nat) returns (gone: set<MsgId>)
    requires Consistent(log)
    ensures Evicted(log, recent) == TaskLog(log.messages - gone, Keep(log.order, gone))
    ensures gone <= log.messages.Keys && 5 * |gone| <= |log.messages|
    ensures forall id :: id in gone ==> !Spared(log, recent, id)
    ensures forall id :: id in log.messages && !Spared(log, recent, id) && id !in gone ==> |gone| == |log.messages| / 5
    ensures Consistent(Evicted(log, recent))
  {
    var quota := |log.messages| / 5;
    var ids := Chosen(log, recent, quota, 0);
    gone := set id | id in ids;
    ChosenAreUnprotected(log, recent, quota, 0);
    RemoveAllKeeps(log, ids);
    DistinctCardinality(ids);
    assert gone == Elements(ids);
    KeepConsistent(log, gone);
    hide Chosen, Protected;
    forall id | id in gone ensures !Spared(log, recent, id) {
      NotSpared(log, recent, id);
    }
    forall id | id in log.messages && !Spared(log, recent, id) && id !in gone ensures |gone| == quota {
      var j :| 0 <= j < |log.order| && log.order[j] == id;
      assert j + recent < |log.order|;
      ChosenIsGreedy(log, recent, quota, 0, j);
    }
  }

  lemma SparedSurvive(log: TaskLog, recent: nat)
    requires Consistent(log)
    ensures var left := Evicted(log, recent);
            && Consistent(left) && 5 * (|log.messages| - |left.messages|) <= |log.messages|
            && (forall id :: id in left.messages ==> id in log.messages && left.messages[id] == log.messages[id])
            && (forall id :: id in log.messages && Spared(log, recent, id) ==> id in left.messages)
  {
    var gone := EvictionIsBounded(log, recent);
    hide Consistent, Evicted, Spared, Keep;
    assert (log.messages - gone).Keys == log.messages.Keys - gone;
    assert |log.messages.Keys - gone| == |log.messages| - |gone| by {
      assert log.messages.Keys == (log.messages.Keys - gone) + gone;
    }
  }

  /** What storing does: a full log loses a fifth, or all that is not spared if that is less;
      the message joins the rest. */
  ghost predicate StoredInto(log: TaskLog, left: TaskLog, m: Message, limits: Limits) {
    exists gone: set<MsgId> ::
      && gone <= log.messages.Keys && left.messages == (log.messages - gone)[m.id := m]
      && (|log.messages| < limits.maxMessagesPerTask ==> gone == {})
      && (|log.messages| >= limits.maxMessagesPerTask ==> Given(log, limits.protectedRecentMessages, gone))
  }

  ghost predicate Given(log: TaskLog, recent: nat, gone: set<MsgId>) {
    && (forall id :: id in gone ==> !Spared(log, recent, id))
    && 5 * |gone| <= |log.messages|
    && (5 * |gone| + 5 <= |log.messages| ==>
          forall id :: id in log.messages && id !in gone ==> Spared(log, recent, id))
  }

  lemma StoresInto(log: TaskLog, m: Message, limits: Limits)
    requires Consistent(log)
    ensures StoredInto(log, Stored(log, m, limits), m, limits)
  {
    hide Spared, InsertIndex, Keep;
    if |log.messages| >= limits.maxMessagesPerTask {
      var gone := EvictionIsBounded(log, limits.protectedRecentMessages);
      hide Consistent, Evicted;
      assert Given(log, limits.protectedRecentMessages, gone);
    } else {
      assert log.messages - {} == log.messages;
    }
  }

  lemma NotSpared(log: TaskLog, recent: nat, id: MsgId)
    requires Consistent(log) && id in log.messages && !Protected(log.messages[id])
    requires exists j :: 0 <= j && j + recent < |log.order| && log.order[j] == id
    ensures !Spared(log, recent, id)
  {
  }

  lemma KeepConsistent(log: TaskLog, gone: set<MsgId>)
    requires Consistent(log)
    ensures Consistent(TaskLog(log.messages - gone, Keep(log.order, gone)))
  {
    KeepDistinct(log.order, gone);
    forall id ensures id in Keep(log.order, gone) <==> id in log.messages - gone {
      KeepMembers(log.order, gone, id);
    }
  }

  lemma InsertDistinct(order: seq<MsgId>, k: nat, id: MsgId)
    requires Distinct(order) && k <= |order|
    ensures Distinct(order[..k] + [id] + order[k..]) <==> id !in order
    ensures forall x :: x in order[..k] + [id] + order[k..] <==> x == id || x in order
  {
    var longer := order[..k] + [id] + order[k..];
    if id in order {
      var i :| 0 <= i < |order| && order[i] == id;
      assert longer[k] == longer[if i < k then i else i + 1];
    } else {
      forall i, j | 0 <= i < j < |longer| ensures longer[i] != longer[j] {
        var i', j' := if i < k then i else i - 1, if j < k then j else j - 1;
        assert i != k ==> longer[i] == order[i'];
        assert j != k ==> longer[j] == order[j'];
      }
    }
    forall x | x in order ensures x in longer {
      var i :| 0 <= i < |order| && order[i] == x;
      assert longer[if i < k then i else i + 1] == x;
    }
  }

  /** Inserting keeps list and map in step exactly when the identifier is not stored yet. */
  lemma InsertConsistentIff(log: TaskLog, m: Message)
    requires Consistent(log)
    ensures Consistent(Inserted(log, m)) <==> m.id !in log.messages
  {
    hide Distinct, InsertIndex;
    InsertDistinct(log.order, InsertIndex(log, m), m.id);
  }

  /** The messages in log order. */
  function Transcript(log: TaskLog): seq<Message>
    requires forall id :: id in log.order ==> id in log.messages
  {
    seq(|log.order|, i requires 0 <= i < |log.order| => log.messages[log.order[i]])
  }

  ghost predicate SortedByTime(log: seq<Message>) {
    forall i, j :: 0 <= i < j < |log| ==> log[i].timestamp <= log[j].timestamp
  }

  /** The identifiers are inserted where the messages are. */
  lemma InsertIsInsert(log: TaskLog, m: Message)
    requires Consistent(log) && m.id !in log.messages
    ensures forall id :: id in Inserted(log, m).order ==> id in Inserted(log, m).messages
    ensures Transcript(Inserted(log, m)) == Insert(Transcript(log), m)
  {
    SamePosition(log, m);
    TranscriptInsert(log.messages, log.order, m, InsertIndex(log, m));
  }

  lemma TranscriptInsert(messages: map<MsgId, Message>, order: seq<MsgId>, m: Message, k: nat)
    requires k <= |order| && m.id !in messages && forall id :: id in order ==> id in messages
    ensures forall id :: id in order[..k] + [m.id] + order[k..] ==> id in messages[m.id := m]
    ensures Transcript(TaskLog(messages[m.id := m], order[..k] + [m.id] + order[k..]))
         == Transcript(TaskLog(messages, order))[..k] + [m] + Transcript(TaskLog(messages, order))[k..]
  {
    var messages', order' := messages[m.id := m], order[..k] + [m.id] + order[k..];
    forall i | 0 <= i < |order'| ensures order'[i] in messages' {
      assert i != k ==> order'[i] == order[if i < k then i else i - 1];
    }
    var before := Transcript(TaskLog(messages, order));
    var after := Transcript(TaskLog(messages', order'));
    var expected := before[..k] + [m] + before[k..];
    forall i | 0 <= i < |order'| ensures after[i] == expected[i] {
      if i != k {
        var i' := if i < k then i else i - 1;
        assert order'[i] == order[i'] && expected[i] == before[i'];
      }
    }
  }

  lemma SamePosition(log: TaskLog, m: Message)
    requires Consistent(log)
    ensures Position(Transcript(log), m) == InsertIndex(log, m)
  {
    hide GoesBefore;
    PositionUnique(Transcript(log), m, InsertIndex(log, m));
  }

  lemma PositionUnique(log: seq<Message>, m: Message, k: nat)
    requires k <= |log| && (k < |log| ==> GoesBefore(m, log[k]))
    requires forall i :: 0 <= i < k ==> !GoesBefore(m, log[i])
    ensures Position(log, m) == k
  {
  }

  /** Among messages with other clocks the new one goes to its place in time. */
  lemma InsertKeepsSorted(log: seq<Message>, m: Message)
    requires SortedByTime(log) && forall i :: 0 <= i < |log| ==> !SameCounters(m.clock, log[i].clock)
    ensures SortedByTime(Insert(log, m))
  {
    PositionByTime(log, m);
    hide GoesBefore, SameCounters;
    InsertByTime(log, m, Position(log, m));
  }

  lemma InsertByTime(log: seq<Message>, m: Message, k: nat)
    requires SortedByTime(log) && k <= |log|
    requires forall i :: 0 <= i < k ==> log[i].timestamp <= m.timestamp
    requires k < |log| ==> m.timestamp < log[k].timestamp
    ensures SortedByTime(log[..k] + [m] + log[k..])
  {
    var longer := log[..k] + [m] + log[k..];
    forall i | k <= i < |log| ensures m.timestamp < log[i].timestamp {
      assert log[k].timestamp <= log[i].timestamp;
    }
    forall i, j | 0 <= i < j < |longer| ensures longer[i].timestamp <= longer[j].timestamp {
      if i != k && j != k {
        assert longer[i] == log[if i < k then i else i - 1] && longer[j] == log[if j < k then j else j - 1];
      }
    }
  }

  lemma KeepKeepsSorted(log: TaskLog, gone: set<MsgId>)
    requires Consistent(log) && SortedByTime(Transcript(log))
    ensures Consistent(TaskLog(log.messages - gone, Keep(log.order, gone)))
    ensures SortedByTime(Transcript(TaskLog(log.messages - gone, Keep(log.order, gone))))
  {
    KeepConsistent(log, gone);
    var kept := TaskLog(log.messages - gone, Keep(log.order, gone));
    var after := Transcript(kept);
    forall i, j | 0 <= i < j < |after| ensures after[i].timestamp <= after[j].timestamp {
      var i', j' := KeepEmbeds(log.order, gone, i, j);
      assert Transcript(log)[i'] == after[i] && Transcript(log)[j'] == after[j];
    }
  }

  /** A log sorted by time is causally ordered when timestamps follow causality. */
  lemma SortedIsCausal(log: seq<Message>)
    requires SortedByTime(log) && StampedCausally(log)
    ensures CausallyOrdered(log)
  {
    hide Precedes;
    forall i, j | 0 <= i < j < |log| ensures !Precedes(log[j], log[i]) {
      assert log[i] in log && log[j] in log;
    }
  }
}
