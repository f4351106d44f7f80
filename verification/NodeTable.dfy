/** The node records of packages/cli/src/core/collaboration/ExecutionGraph.ts and
    the status changes made to them. */
module NodeTable {
  import opened Graphs

  datatype TaskStatus = Pending | Ready | Running | Completed | Failed | Cancelled

  /** A falsy startTime, endTime or error (absent in the source) is 0 or "". */
  datatype Node = Node(
    id: Id, taskId: string, status: TaskStatus,
    dependencies: seq<Id>, dependents: seq<Id>, timeout: nat,
    startTime: nat, endTime: nat, error: string)

  type Nodes = map<Id, Node>

  function Dependencies(nodes: Nodes): Graph {
    map v | v in nodes :: nodes[v].dependencies
  }

  function Timeouts(nodes: Nodes): map<Id, nat> {
    map v | v in nodes :: nodes[v].timeout
  }

  predicate IsCompleted(nodes: Nodes, v: Id) {
    v in nodes && nodes[v].status.Completed?
  }

  predicate AllCompleted(nodes: Nodes, ids: seq<Id>) {
    forall d :: d in ids ==> IsCompleted(nodes, d)
  }

  function WithStatus(node: Node, status: TaskStatus, error: string, now: nat): Node {
    node.(
      status := status,
      startTime := if status.Running? && node.startTime == 0 then now else node.startTime,
      endTime := if (status.Completed? || status.Failed? || status.Cancelled?) && node.endTime == 0
                 then now else node.endTime,
      error := if error != "" then error else node.error)
  }

  /** Whether the completion of `done` makes this node ready. */
  predicate BecomesReady(nodes: Nodes, v: Id, done: Id)
    requires v in nodes
  {
    nodes[v].status.Pending? && done in nodes[v].dependencies && AllCompleted(nodes, nodes[v].dependencies)
  }

  function ReadyAfter(nodes: Nodes, done: Id): Nodes {
    map v | v in nodes ::
      if BecomesReady(nodes, v, done) then nodes[v].(status := Ready) else nodes[v]
  }

  /** updateNodeStatus as a function of the table. */
  function UpdateStatus(nodes: Nodes, id: Id, status: TaskStatus, error: string, now: nat): Nodes {
    if id !in nodes then nodes
    else
      var updated := nodes[id := WithStatus(nodes[id], status, error, now)];
      if status.Completed? then ReadyAfter(updated, id) else updated
  }

  lemma UpdatedNode(nodes: Nodes, id: Id, status: TaskStatus, error: string, now: nat, v: Id)
    requires v in nodes
    ensures v in UpdateStatus(nodes, id, status, error, now)
    ensures var after := UpdateStatus(nodes, id, status, error, now)[v];
            && after.id == nodes[v].id
            && after.dependencies == nodes[v].dependencies && after.dependents == nodes[v].dependents
            && after.timeout == nodes[v].timeout
  {
  }

  /** Status changes leave the graph alone. */
  lemma UpdateStatusKeepsGraph(nodes: Nodes, id: Id, status: TaskStatus, error: string, now: nat)
    ensures UpdateStatus(nodes, id, status, error, now).Keys == nodes.Keys
    ensures Dependencies(UpdateStatus(nodes, id, status, error, now)) == Dependencies(nodes)
    ensures Timeouts(UpdateStatus(nodes, id, status, error, now)) == Timeouts(nodes)
  {
    var after := UpdateStatus(nodes, id, status, error, now);
    assert after.Keys == nodes.Keys;
    hide UpdateStatus;
    forall v | v in nodes
      ensures after[v].dependencies == nodes[v].dependencies && after[v].timeout == nodes[v].timeout
    {
      UpdatedNode(nodes, id, status, error, now, v);
    }
  }

  // ----- what a status change amounts to, field by field

  /** Pending, depending on a node just completed, and waiting for nothing else either. */
  ghost predicate Unblocked(nodes: Nodes, v: Id, done: Id)
    requires v in nodes
  {
    && nodes[v].status == Pending && done in nodes[v].dependencies
    && forall d :: d in nodes[v].dependencies ==> d in nodes && nodes[d].status == Completed
  }

  /** Waiting for nothing but `id`, which is completed by this change. */
  ghost predicate Released(before: Nodes, id: Id, status: TaskStatus, v: Id)
    requires v in before
  {
    && status == Completed && before[v].status == Pending && id in before[v].dependencies
    && forall d :: d in before[v].dependencies ==> d == id || (d in before && before[d].status == Completed)
  }

  /** The node has the status asked for, and a first start, a first end and an error that is
      given are noted; every other node is as before or, when it is released, ready. */
  ghost predicate StatusChanged(before: Nodes, after: Nodes, id: Id, status: TaskStatus, error: string, now: nat)
    requires id in before
  {
    && after.Keys == before.Keys
    && after[id] == before[id].(
         status := status,
         startTime := if status == Running && before[id].startTime == 0 then now else before[id].startTime,
         endTime := if status in {Completed, Failed, Cancelled} && before[id].endTime == 0
                    then now else before[id].endTime,
         error := if error == "" then before[id].error else error)
    && forall v :: v in before && v != id ==>
         after[v] == if Released(before, id, status, v) then before[v].(status := Ready) else before[v]
  }

  lemma UpdateChangesStatus(nodes: Nodes, id: Id, status: TaskStatus, error: string, now: nat)
    requires id in nodes
    ensures StatusChanged(nodes, UpdateStatus(nodes, id, status, error, now), id, status, error, now)
  {
    var updated := nodes[id := WithStatus(nodes[id], status, error, now)];
    forall v | v in nodes && v != id && status == Completed
      ensures BecomesReady(updated, v, id) <==> Released(nodes, id, status, v)
    {
      forall d ensures IsCompleted(updated, d) <==> d == id || (d in nodes && nodes[d].status == Completed) {
      }
    }
  }
}
