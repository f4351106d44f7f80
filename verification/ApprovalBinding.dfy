/** What an approved request authorizes: packages/cli/src/core/approvals/ApprovalBinding.ts
    (assertApprovalBinding, assertEvidence) against the requests that
    ApprovalGate.ts:134-169 builds. */
module ApprovalBinding {
  import opened Wrappers
  import opened JsonStrings
  import opened StableSerialize
  import opened Approvals

  datatype PolicyContext = PolicyContext(
    missionId: string, taskId: string, executionId: string,
    workerId: Option<Text>, agentId: Option<Text>, harnessId: Option<Text>,
    command: Text, args: Option<seq<Text>>, cwd: Option<Text>,
    resources: Option<Json>, capabilities: Option<seq<Text>>)

  datatype ScheduleDecision = ScheduleDecision(
    missionId: string, taskId: string, executionId: string,
    workerId: Text, agentId: Text, harnessId: Text, idempotencyKey: string)

  function Strings(ss: seq<Text>): Json {
    Arr(seq(|ss|, i requires 0 <= i < |ss| => Str(ss[i])))
  }

  function Arguments(c: PolicyContext): seq<Text> {
    if c.args.Some? then c.args.value else []
  }

  /** Property names as code units. */
  const WORKER_ID: Text := [119, 111, 114, 107, 101, 114, 73, 100]
  const AGENT_ID: Text := [97, 103, 101, 110, 116, 73, 100]
  const HARNESS_ID: Text := [104, 97, 114, 110, 101, 115, 115, 73, 100]

  function ExecutionValue(d: ScheduleDecision): Json {
    Obj([Entry(WORKER_ID, Str(d.workerId)), Entry(AGENT_ID, Str(d.agentId)), Entry(HARNESS_ID, Str(d.harnessId))])
  }

  /** A missing or empty working directory is left out of the evidence. */
  function OptionalEvidence(c: PolicyContext): seq<Evidence> {
    (if c.cwd.Some? && c.cwd.value != [] then [Evidence("working_directory", "cwd", Str(c.cwd.value), false)] else [])
    + (if c.resources.Some? then [Evidence("resources", "resources", c.resources.value, false)] else [])
    + (if c.capabilities.Some?
       then [Evidence("capability", "capabilities", Strings(c.capabilities.value), false)] else [])
  }

  /** The evidence of a new request; `matched` is the list of matched policies. */
  function GatheredEvidence(d: ScheduleDecision, c: PolicyContext, matched: Json): seq<Evidence> {
    [Evidence("command", "command", Str(c.command), false),
     Evidence("arguments", "arguments", Strings(Arguments(c)), false)]
    + OptionalEvidence(c)
    + [Evidence("policy", "policy", matched, false),
       Evidence("execution_context", "execution", ExecutionValue(d), false)]
  }

  /** Building a Map from the evidence: the last entry of a name wins. */
  function Lookup(evidence: seq<Evidence>, name: string): Option<Json> {
    if evidence == [] then None
    else if evidence[|evidence| - 1].name == name then Some(evidence[|evidence| - 1].value)
    else Lookup(evidence[..|evidence| - 1], name)
  }

  /** assertEvidence: a missing actual value never matches. */
  predicate EvidenceMatches(evidence: seq<Evidence>, name: string, actual: Option<Json>) {
    var recorded := Lookup(evidence, name);
    recorded.Some? && actual.Some? && Serialize(recorded.value) == Serialize(actual.value)
  }

  function Property(v: Json, key: Text): Option<Json> {
    if v.Obj? then FieldValue(v.fields, key) else None
  }

  function FieldValue(fields: seq<Entry<Json>>, key: Text): Option<Json> {
    if fields == [] then None
    else if fields[0].key == key then Some(fields[0].value)
    else FieldValue(fields[1..], key)
  }

  function OptionalString(s: Option<Text>): Option<Json> {
    if s.Some? then Some(Str(s.value)) else None
  }

  predicate ExecutionMatches(evidence: seq<Evidence>, c: PolicyContext) {
    var execution := Lookup(evidence, "execution");
    && execution.Some? && (execution.value.Obj? || execution.value.Arr?)
    && Property(execution.value, WORKER_ID) == OptionalString(c.workerId)
    && Property(execution.value, AGENT_ID) == OptionalString(c.agentId)
    && Property(execution.value, HARNESS_ID) == OptionalString(c.harnessId)
  }

  function OptionalStrings(ss: Option<seq<Text>>): Option<Json> {
    if ss.Some? then Some(Strings(ss.value)) else None
  }

  /** The identifiers, the five serialized fields and the execution context agree. */
  predicate Binds(q: Request, policyId: string, c: PolicyContext) {
    && q.missionId == c.missionId && q.taskId == c.taskId && q.executionId == c.executionId && q.policyId == policyId
    && EvidenceMatches(q.evidence, "command", Some(Str(c.command)))
    && EvidenceMatches(q.evidence, "arguments", Some(Strings(Arguments(c))))
    && EvidenceMatches(q.evidence, "cwd", OptionalString(c.cwd))
    && EvidenceMatches(q.evidence, "resources", c.resources)
    && EvidenceMatches(q.evidence, "capabilities", OptionalStrings(c.capabilities))
    && ExecutionMatches(q.evidence, c)
  }

  /** assertApprovalBinding: the first failing check, if any. */
  function CheckBinding(r: Record, policyId: string, c: PolicyContext): (e: Option<Error>)
    ensures e == None <==> r.status == Approved && Binds(r.request, policyId, c)
  {
    var q := r.request;
    if !r.status.Approved? then Some(NotAuthorizing(r.status))
    else if q.missionId != c.missionId || q.taskId != c.taskId || q.executionId != c.executionId
      || q.policyId != policyId
      then Some(BindingMismatch(""))
    else if !EvidenceMatches(q.evidence, "command", Some(Str(c.command))) then Some(BindingMismatch("command"))
    else if !EvidenceMatches(q.evidence, "arguments", Some(Strings(Arguments(c)))) then
      Some(BindingMismatch("arguments"))
    else if !EvidenceMatches(q.evidence, "cwd", OptionalString(c.cwd)) then Some(BindingMismatch("cwd"))
    else if !EvidenceMatches(q.evidence, "resources", c.resources) then Some(BindingMismatch("resources"))
    else if !EvidenceMatches(q.evidence, "capabilities", OptionalStrings(c.capabilities)) then
      Some(BindingMismatch("capabilities"))
    else if !ExecutionMatches(q.evidence, c) then Some(BindingMismatch("execution_context"))
    else None
  }

  lemma {:induction false} LookupAppend(first: seq<Evidence>, second: seq<Evidence>, name: string)
    ensures Lookup(first + second, name) ==
      if Lookup(second, name).Some? then Lookup(second, name) else Lookup(first, name)
    decreases |second|
  {
    if second == [] {
      assert first + second == first;
    } else {
      var front := second[..|second| - 1];
      assert (first + second)[..|first + second| - 1] == first + front;
      LookupAppend(first, front, name);
    }
  }

  lemma LookupOne(e: Evidence, name: string)
    ensures Lookup([e], name) == if e.name == name then Some(e.value) else None
  {
    assert [e][..0] == [];
  }

  lemma LookupTwo(e: Evidence, f: Evidence, name: string)
    ensures Lookup([e, f], name) ==
      if f.name == name then Some(f.value) else if e.name == name then Some(e.value) else None
  {
    assert [e, f][..1] == [e];
    LookupOne(e, name);
  }

  lemma OptionalLookup(c: PolicyContext, name: string)
    ensures Lookup(OptionalEvidence(c), name) ==
      if name == "cwd" && c.cwd.Some? && c.cwd.value != [] then Some(Str(c.cwd.value))
      else if name == "resources" then c.resources
      else if name == "capabilities" then OptionalStrings(c.capabilities)
      else None
  {
    hide Lookup;
    var a := if c.cwd.Some? && c.cwd.value != []
             then [Evidence("working_directory", "cwd", Str(c.cwd.value), false)] else [];
    var b := if c.resources.Some? then [Evidence("resources", "resources", c.resources.value, false)] else [];
    var d := if c.capabilities.Some?
             then [Evidence("capability", "capabilities", Strings(c.capabilities.value), false)] else [];
    LookupAppend(a + b, d, name);
    LookupAppend(a, b, name);
    LookupNone(name);
    if a != [] { LookupOne(a[0], name); }
    if b != [] { LookupOne(b[0], name); }
    if d != [] { LookupOne(d[0], name); }
  }

  lemma LookupNone(name: string)
    ensures Lookup([], name) == None
  {
  }

  /** What the recorded evidence says under each name that the binding looks up. */
  lemma GatheredLookup(d: ScheduleDecision, c: PolicyContext, matched: Json, name: string)
    requires name != "policy"
    ensures Lookup(GatheredEvidence(d, c, matched), name) ==
      if name == "execution" then Some(ExecutionValue(d))
      else if name == "command" then Some(Str(c.command))
      else if name == "arguments" then Some(Strings(Arguments(c)))
      else Lookup(OptionalEvidence(c), name)
  {
    hide Lookup, OptionalEvidence, ExecutionValue;
    var first := [Evidence("command", "command", Str(c.command), false),
                  Evidence("arguments", "arguments", Strings(Arguments(c)), false)];
    var last := [Evidence("policy", "policy", matched, false),
                 Evidence("execution_context", "execution", ExecutionValue(d), false)];
    LookupAppend(first + OptionalEvidence(c), last, name);
    LookupAppend(first, OptionalEvidence(c), name);
    LookupTwo(first[0], first[1], name);
    LookupTwo(last[0], last[1], name);
    OptionalLookup(c, name);
  }

  lemma StringsAlikeIff(a: seq<Text>, b: seq<Text>)
    ensures Serialize(Strings(a)) == Serialize(Strings(b)) <==> a == b
  {
    PrintsAlikeIff(Strings(a), Strings(b));
    if Equivalent(Strings(a), Strings(b)) {
      forall i | 0 <= i < |a| ensures a[i] == b[i] {
        assert Equivalent(Strings(a).items[i], Strings(b).items[i]);
      }
    }
  }

  lemma StringAlikeIff(a: Text, b: Text)
    ensures Serialize(Str(a)) == Serialize(Str(b)) <==> a == b
  {
    PrintsAlikeIff(Str(a), Str(b));
  }

  lemma ExecutionProperties(d: ScheduleDecision)
    ensures Property(ExecutionValue(d), WORKER_ID) == Some(Str(d.workerId))
    ensures Property(ExecutionValue(d), AGENT_ID) == Some(Str(d.agentId))
    ensures Property(ExecutionValue(d), HARNESS_ID) == Some(Str(d.harnessId))
  {
    var w, a, h := Entry(WORKER_ID, Str(d.workerId)), Entry(AGENT_ID, Str(d.agentId)),
      Entry(HARNESS_ID, Str(d.harnessId));
    assert |WORKER_ID| == 8 && |AGENT_ID| == 7 && |HARNESS_ID| == 9;
    ThreeFields(w, a, h, WORKER_ID);
    ThreeFields(w, a, h, AGENT_ID);
    ThreeFields(w, a, h, HARNESS_ID);
  }

  lemma ThreeFields(e: Entry<Json>, f: Entry<Json>, g: Entry<Json>, key: Text)
    ensures FieldValue([e, f, g], key) ==
      if e.key == key then Some(e.value) else if f.key == key then Some(f.value)
      else if g.key == key then Some(g.value) else None
  {
    assert [e, f, g][1..] == [f, g] && [f, g][1..] == [g] && [g][1..] == [];
    assert FieldValue([g], key) == if g.key == key then Some(g.value) else None;
  }

  /** The resources of a context are JSON, as they come from a request or a plan. */
  ghost predicate JsonContext(c: PolicyContext) {
    c.resources.Some? ==> WellFormed(c.resources.value)
  }

  /** The two contexts agree on everything that a binding compares. */
  ghost predicate SameBoundFields(d: ScheduleDecision, requested: PolicyContext, c: PolicyContext) {
    && c.missionId == d.missionId && c.taskId == d.taskId && c.executionId == d.executionId
    && c.workerId == Some(d.workerId) && c.agentId == Some(d.agentId) && c.harnessId == Some(d.harnessId)
    && c.command == requested.command && Arguments(c) == Arguments(requested)
    && c.cwd == requested.cwd && c.capabilities == requested.capabilities
    && c.resources.Some? && requested.resources.Some? && Equivalent(requested.resources.value, c.resources.value)
  }

  /** What the request must have been built from to bind to anything at all. */
  predicate Complete(c: PolicyContext) {
    c.cwd.Some? && c.cwd.value != [] && c.resources.Some? && c.capabilities.Some?
  }

  ghost predicate BuiltFrom(q: Request, d: ScheduleDecision, requested: PolicyContext, matched: Json,
                            policyId: string)
  {
    && q.missionId == d.missionId && q.taskId == d.taskId && q.executionId == d.executionId && q.policyId == policyId
    && q.evidence == GatheredEvidence(d, requested, matched)
  }

  /** A request built from a context binds to a context exactly when the first was
      complete and the two agree in every bound field. */
  lemma BindsIff(q: Request, d: ScheduleDecision, requested: PolicyContext, matched: Json, policyId: string,
                 policyId': string, c: PolicyContext)
    requires BuiltFrom(q, d, requested, matched, policyId) && JsonContext(requested) && JsonContext(c)
    ensures Binds(q, policyId', c) <==>
      Complete(requested) && policyId' == policyId && SameBoundFields(d, requested, c)
  {
    hide Lookup, GatheredEvidence, OptionalEvidence, Serialize, Strings, ExecutionValue, Property, Equivalent;
    GatheredLookup(d, requested, matched, "command");
    GatheredLookup(d, requested, matched, "arguments");
    GatheredLookup(d, requested, matched, "cwd");
    GatheredLookup(d, requested, matched, "resources");
    GatheredLookup(d, requested, matched, "capabilities");
    GatheredLookup(d, requested, matched, "execution");
    OptionalLookup(requested, "cwd");
    OptionalLookup(requested, "resources");
    OptionalLookup(requested, "capabilities");
    ExecutionIsObject(d);
    ExecutionProperties(d);
    StringAlikeIff(requested.command, c.command);
    StringsAlikeIff(Arguments(requested), Arguments(c));
    if requested.cwd.Some? && c.cwd.Some? {
      StringAlikeIff(requested.cwd.value, c.cwd.value);
    }
    if requested.resources.Some? && c.resources.Some? {
      PrintsAlikeIff(requested.resources.value, c.resources.value);
    }
    if requested.capabilities.Some? && c.capabilities.Some? {
      StringsAlikeIff(requested.capabilities.value, c.capabilities.value);
    }
  }

  lemma ExecutionIsObject(d: ScheduleDecision)
    ensures ExecutionValue(d).Obj?
  {
  }

  /** The context describes the execution that was scheduled. */
  predicate Matches(d: ScheduleDecision, c: PolicyContext) {
    && c.missionId == d.missionId && c.taskId == d.taskId && c.executionId == d.executionId
    && c.workerId == Some(d.workerId) && c.agentId == Some(d.agentId) && c.harnessId == Some(d.harnessId)
  }

  /** A request binds to the very context it was built from exactly when that context is
      complete and describes the scheduled execution; an empty working directory, say,
      makes an approval that authorizes nothing. */
  lemma BindsToItsOwnContextIff(q: Request, d: ScheduleDecision, requested: PolicyContext, matched: Json,
                                policyId: string)
    requires BuiltFrom(q, d, requested, matched, policyId) && JsonContext(requested)
    ensures Binds(q, policyId, requested) <==> Complete(requested) && Matches(d, requested)
  {
    BindsIff(q, d, requested, matched, policyId, policyId, requested);
    if requested.resources.Some? {
      PrintsAlikeIff(requested.resources.value, requested.resources.value);
    }
  }

  /** For instance: nothing, not even itself, is authorized by the approval of a context that
      describes the scheduled execution and has everything, but an empty working directory. */
  lemma EmptyDirectoryBindsNothing(q: Request, d: ScheduleDecision, matched: Json, policyId: string,
                                   policyId': string, c: PolicyContext)
    requires BuiltFrom(q, d, InEmptyDirectory(d), matched, policyId) && JsonContext(c)
    ensures Matches(d, InEmptyDirectory(d)) && !Binds(q, policyId', c)
  {
    BindsIff(q, d, InEmptyDirectory(d), matched, policyId, policyId', c);
  }

  function InEmptyDirectory(d: ScheduleDecision): PolicyContext {
    PolicyContext(d.missionId, d.taskId, d.executionId, Some(d.workerId), Some(d.agentId), Some(d.harnessId),
                  [], Some([]), Some([]), Some(Obj([])), Some([]))
  }
}
