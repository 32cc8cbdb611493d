// What the log of an agent run says: the history of each tool call, what was executed, how often
// the model was asked and what it used; and what appending one event changes.

module AgentLog {
  import opened AgentContracts
  import opened AgentTools
  import opened Common
  import opened EventLog

  function Kind(e: RunEvent): EventType { e.document.eventType }

  predicate IsCall(e: RunEvent) { e.document.payload.Call? }

  function IdOf(e: RunEvent): CallId
    requires IsCall(e)
  {
    e.document.payload.id
  }

  function ToolOf(e: RunEvent): string
    requires IsCall(e)
  {
    e.document.payload.tool
  }

  predicate IsToolEvent(t: EventType) {
    t.ToolProposed? || t.ToolValidated? || t.ToolAllowed? || t.ToolStarted? || t.ToolCompleted? || t.ToolFailed?
  }

  predicate IsEnd(t: EventType) { t.RunCompleted? || t.OutputRejected? || t.RunFailed? }

  predicate Starts(e: RunEvent) { IsCall(e) && Kind(e).ToolStarted? }

  predicate Completes(e: RunEvent) { IsCall(e) && Kind(e).ToolCompleted? }

  // ---- Folds over the log ----

  /** The events of one tool call, in order. */
  function Steps(log: seq<RunEvent>, id: CallId): seq<EventType> {
    if log == [] then []
    else
      var e := log[|log| - 1];
      Steps(log[..|log| - 1], id) + if IsCall(e) && IdOf(e) == id then [Kind(e)] else []
  }

  function Requests(log: seq<RunEvent>): nat {
    if log == [] then 0
    else Requests(log[..|log| - 1]) + if Kind(log[|log| - 1]).ModelRequested? then 1 else 0
  }

  function InputTokens(log: seq<RunEvent>): nat {
    if log == [] then 0 else InputTokens(log[..|log| - 1]) + EventInput(log[|log| - 1])
  }

  function OutputTokens(log: seq<RunEvent>): nat {
    if log == [] then 0 else OutputTokens(log[..|log| - 1]) + EventOutput(log[|log| - 1])
  }

  /** The calls handed to tools, in the order in which they were. */
  function Executions(log: seq<RunEvent>): seq<CallId> {
    if log == [] then []
    else
      var e := log[|log| - 1];
      Executions(log[..|log| - 1]) + if Starts(e) then [IdOf(e)] else []
  }

  function EventInput(e: RunEvent): nat {
    if e.document.payload.Usage? then e.document.payload.inputTokens else 0
  }

  function EventOutput(e: RunEvent): nat {
    if e.document.payload.Usage? then e.document.payload.outputTokens else 0
  }

  lemma Appended(log: seq<RunEvent>, e: RunEvent)
    ensures forall id :: Steps(log + [e], id) == Steps(log, id) + if IsCall(e) && IdOf(e) == id then [Kind(e)] else []
    ensures Requests(log + [e]) == Requests(log) + if Kind(e).ModelRequested? then 1 else 0
    ensures InputTokens(log + [e]) == InputTokens(log) + EventInput(e)
    ensures OutputTokens(log + [e]) == OutputTokens(log) + EventOutput(e)
    ensures Executions(log + [e]) == Executions(log) + if Starts(e) then [IdOf(e)] else []
  {
    assert (log + [e])[..|log + [e]| - 1] == log;
  }

  /** Every event of a call's history stands somewhere in the log. */
  lemma {:induction false} StepsStandInLog(log: seq<RunEvent>, id: CallId, t: EventType) returns (i: nat)
    requires t in Steps(log, id)
    ensures i < |log| && IsCall(log[i]) && IdOf(log[i]) == id && Kind(log[i]) == t
  {
    var n := |log| - 1;
    if IsCall(log[n]) && IdOf(log[n]) == id && Kind(log[n]) == t {
      i := n;
    } else {
      i := StepsStandInLog(log[..n], id, t);
    }
  }

  lemma {:induction false} EventIsStep(log: seq<RunEvent>, i: nat)
    requires i < |log| && IsCall(log[i])
    ensures Kind(log[i]) in Steps(log, IdOf(log[i]))
  {
    if i >= |log| - 1 {
    } else {
      assert log[..|log| - 1][i] == log[i];
      EventIsStep(log[..|log| - 1], i);
    }
  }

  lemma {:induction false} NoStepsBefore(log: seq<RunEvent>, id: CallId)
    requires forall i :: 0 <= i < |log| && IsCall(log[i]) ==> IdOf(log[i]) != id
    ensures Steps(log, id) == []
  {
    if log == [] {
    } else {
      NoStepsBefore(log[..|log| - 1], id);
    }
  }

  // ---- Histories ----

  const ALLOWED_STEPS: seq<EventType> := [ToolProposed, ToolValidated, ToolAllowed]

  /** A call goes through its stages in order, and ends at most once. */
  predicate IsHistory(steps: seq<EventType>) {
    steps <= ALLOWED_STEPS + [ToolStarted, ToolCompleted] || steps <= ALLOWED_STEPS + [ToolStarted, ToolFailed]
  }

  predicate HasHistory(log: seq<RunEvent>, id: CallId) {
    IsHistory(Steps(log, id))
  }

  ghost predicate InOrder(log: seq<RunEvent>) {
    forall id :: HasHistory(log, id)
  }

  // ---- Bookkeeping of the accepted calls ----

  type Calls = map<CallId, ValidatedToolCall>

  function Signature(v: ValidatedToolCall): string {
    v.spec.name + "\n" + v.arguments
  }

  ghost predicate FirstLineEnds(text: string, n: nat) {
    n < |text| && text[n] == '\n' && forall i :: 0 <= i < n ==> text[i] != '\n'
  }

  lemma SignatureParts(v: ValidatedToolCall)
    requires '\n' !in v.spec.name
    ensures var n := |v.spec.name|;
            FirstLineEnds(Signature(v), n) && Signature(v)[..n] == v.spec.name && Signature(v)[n + 1..] == v.arguments
  {
  }

  /** Calls repeat each other exactly when tool and arguments are the same. */
  lemma SignatureIsExact(v: ValidatedToolCall, w: ValidatedToolCall)
    requires '\n' !in v.spec.name && '\n' !in w.spec.name
    ensures Signature(v) == Signature(w) <==> v.spec.name == w.spec.name && v.arguments == w.arguments
  {
    SignatureParts(v);
    SignatureParts(w);
    if Signature(v) == Signature(w) {
      assert |v.spec.name| == |w.spec.name|;
    }
  }

  function WithSignature(calls: Calls, signature: string): set<CallId> {
    set id | id in calls && Signature(calls[id]) == signature
  }

  function RemoteIds(calls: Calls): set<string> {
    set id | id in calls :: calls[id].call.id
  }

  ghost predicate FewRepeats(spec: AgentSpec, calls: Calls) {
    forall signature :: |WithSignature(calls, signature)| <= spec.budget.maxRepeatedToolCalls
  }

  /** The calls that passed the loop guards: bounded in number, bounded per signature, and with
      remote identifiers that never repeat. */
  ghost predicate Guarded(spec: AgentSpec, calls: Calls) {
    |calls| <= spec.budget.maxToolCalls &&
    FewRepeats(spec, calls) &&
    forall a, b :: a in calls && b in calls && a != b ==> calls[a].call.id != calls[b].call.id
  }

  /** Tool events and only they concern a call, an accepted one, under the name of its tool. */
  ghost predicate Named(log: seq<RunEvent>, calls: Calls) {
    forall i :: 0 <= i < |log| ==>
      (IsToolEvent(Kind(log[i])) <==> IsCall(log[i])) &&
      (IsCall(log[i]) ==> IdOf(log[i]) in calls && ToolOf(log[i]) == calls[IdOf(log[i])].spec.name)
  }

  ghost predicate OnlyDeclared(spec: AgentSpec, log: seq<RunEvent>) {
    forall i :: 0 <= i < |log| && Starts(log[i]) ==>
      ToolOf(log[i]) in spec.allowedReadTools || ToolOf(log[i]) == spec.terminalSubmitTool
  }

  ghost predicate OnlyReads(spec: AgentSpec, log: seq<RunEvent>) {
    forall i :: 0 <= i < |log| && Starts(log[i]) ==> ToolOf(log[i]) in spec.allowedReadTools
  }

  /** Nothing runs once the terminal tool has been started. */
  ghost predicate SubmissionIsLast(spec: AgentSpec, log: seq<RunEvent>) {
    forall i, j :: 0 <= i < j < |log| && Starts(log[i]) && ToolOf(log[i]) == spec.terminalSubmitTool ==> !Starts(log[j])
  }

  ghost predicate CompletedAt(log: seq<RunEvent>, i: nat, name: string, turn: nat) {
    i < |log| && Completes(log[i]) && ToolOf(log[i]) == name && IdOf(log[i]).turn < turn
  }

  ghost predicate CompletedBefore(log: seq<RunEvent>, name: string, turn: nat) {
    exists i: nat :: CompletedAt(log, i, name, turn)
  }

  /** What the authorizer has seen to before a tool starts: a call other than the submission only reads,
      and before the submission everything required was retrieved in earlier turns. */
  ghost predicate StartGranted(spec: AgentSpec, log: seq<RunEvent>, calls: Calls, e: RunEvent)
    requires Starts(e)
  {
    if ToolOf(e) == spec.terminalSubmitTool
    then forall name :: name in spec.requiredRetrievalTools ==> CompletedBefore(log, name, IdOf(e).turn)
    else IdOf(e) in calls && calls[IdOf(e)].spec.sideEffect.ReadOnly?
  }

  ghost predicate StartsGranted(spec: AgentSpec, log: seq<RunEvent>, calls: Calls) {
    forall i :: 0 <= i < |log| && Starts(log[i]) ==> StartGranted(spec, log, calls, log[i])
  }

  lemma StaysCompleted(log: seq<RunEvent>, e: RunEvent, name: string, turn: nat)
    requires CompletedBefore(log, name, turn)
    ensures CompletedBefore(log + [e], name, turn)
  {
    var i: nat :| CompletedAt(log, i, name, turn);
    assert CompletedAt(log + [e], i, name, turn);
  }

  lemma StaysGranted(spec: AgentSpec, log: seq<RunEvent>, calls: Calls, e: RunEvent, start: RunEvent)
    requires Starts(start) && StartGranted(spec, log, calls, start)
    ensures StartGranted(spec, log + [e], calls, start)
  {
    if ToolOf(start) == spec.terminalSubmitTool {
      forall name | name in spec.requiredRetrievalTools ensures CompletedBefore(log + [e], name, IdOf(start).turn) {
        StaysCompleted(log, e, name, IdOf(start).turn);
      }
    }
  }

  lemma AppendKeepsGranted(spec: AgentSpec, log: seq<RunEvent>, e: RunEvent, calls: Calls)
    requires StartsGranted(spec, log, calls) && (Starts(e) ==> StartGranted(spec, log, calls, e))
    ensures StartsGranted(spec, log + [e], calls)
  {
    var log' := log + [e];
    forall i | 0 <= i < |log'| && Starts(log'[i]) ensures StartGranted(spec, log', calls, log'[i]) {
      StaysGranted(spec, log, calls, e, log'[i]);
    }
  }

  /** The first event opens the run, or rejects it before it has begun. */
  ghost predicate BeginsRun(log: seq<RunEvent>) {
    log != [] ==> Kind(log[0]).AgentStarted? || Kind(log[0]).OutputRejected?
  }

  ghost predicate Before(log: seq<RunEvent>, turn: nat) {
    forall i :: 0 <= i < |log| && IsCall(log[i]) ==> IdOf(log[i]).turn < turn
  }

  /** No call of a later turn before a call of an earlier one. */
  ghost predicate TurnsInOrder(log: seq<RunEvent>) {
    forall i, j :: 0 <= i < j < |log| && IsCall(log[i]) && IsCall(log[j]) ==> IdOf(log[i]).turn <= IdOf(log[j]).turn
  }

  /** What holds of the log of every run, at every moment. */
  ghost predicate Safe(spec: AgentSpec, log: seq<RunEvent>, calls: Calls) {
    BeginsRun(log) && TurnsInOrder(log) && InOrder(log) && Named(log, calls) && OnlyDeclared(spec, log) &&
    SubmissionIsLast(spec, log) &&
    StartsGranted(spec, log, calls) && Guarded(spec, calls) && Requests(log) <= spec.budget.maxTurns
  }

  ghost predicate NoEnd(log: seq<RunEvent>) {
    forall i :: 0 <= i < |log| ==> !IsEnd(Kind(log[i]))
  }

  /** When an event may follow a safe log. */
  ghost predicate MayFollow(spec: AgentSpec, log: seq<RunEvent>, e: RunEvent, calls: Calls) {
    (IsToolEvent(Kind(e)) <==> IsCall(e)) &&
    (log == [] ==> Kind(e).AgentStarted? || Kind(e).OutputRejected?) &&
    (IsCall(e) ==> Before(log, IdOf(e).turn + 1)) &&
    (IsCall(e) ==>
       IdOf(e) in calls && ToolOf(e) == calls[IdOf(e)].spec.name &&
       IsHistory(Steps(log, IdOf(e)) + [Kind(e)])) &&
    (Starts(e) ==>
       OnlyReads(spec, log) && (ToolOf(e) in spec.allowedReadTools || ToolOf(e) == spec.terminalSubmitTool)) &&
    (Starts(e) ==> StartGranted(spec, log, calls, e)) &&
    (Kind(e).ModelRequested? ==> Requests(log) < spec.budget.maxTurns)
  }

  lemma AppendKeepsSafe(spec: AgentSpec, log: seq<RunEvent>, e: RunEvent, calls: Calls)
    requires IsAgentSpec(spec) && Safe(spec, log, calls) && MayFollow(spec, log, e, calls)
    ensures Safe(spec, log + [e], calls)
    ensures NoEnd(log) && !IsEnd(Kind(e)) ==> NoEnd(log + [e])
  {
    Appended(log, e);
    var log' := log + [e];
    assert forall i :: 0 <= i < |log| ==> log'[i] == log[i];
    AppendKeepsGranted(spec, log, e, calls);
    assert InOrder(log') by {
      forall id ensures HasHistory(log', id) {
        assert HasHistory(log, id);
      }
    }
  }

  /** An event that concerns neither a call nor a model request may follow any begun log. */
  lemma PlainEventKeepsSafe(spec: AgentSpec, log: seq<RunEvent>, e: RunEvent, calls: Calls)
    requires IsAgentSpec(spec) && Safe(spec, log, calls)
    requires !IsCall(e) && !IsToolEvent(Kind(e)) && !Kind(e).ModelRequested?
    requires log != [] || Kind(e).OutputRejected?
    ensures Safe(spec, log + [e], calls) && Requests(log + [e]) == Requests(log)
    ensures NoEnd(log) && !IsEnd(Kind(e)) ==> NoEnd(log + [e])
  {
    AppendKeepsSafe(spec, log, e, calls);
    Appended(log, e);
  }

  // ---- Executions ----

  lemma {:induction false} ExecutionHasStarted(log: seq<RunEvent>, id: CallId)
    ensures id in Executions(log) <==> ToolStarted in Steps(log, id)
  {
    if log == [] {
    } else {
      ExecutionHasStarted(log[..|log| - 1], id);
    }
  }

  lemma {:induction false} ExecutionsAreDistinct(log: seq<RunEvent>)
    requires InOrder(log)
    ensures Distinct(Executions(log))
  {
    if log == [] {
    } else {
      var init, e := log[..|log| - 1], log[|log| - 1];
      assert log == init + [e];
      Appended(init, e);
      forall id ensures HasHistory(init, id) {
        assert HasHistory(log, id);
        assert Steps(init, id) <= Steps(log, id);
      }
      ExecutionsAreDistinct(init);
      if Starts(e) {
        assert HasHistory(log, IdOf(e));
        ExecutionHasStarted(init, IdOf(e));
        OnlyOneStart(Steps(init, IdOf(e)));
      }
    }
  }

  lemma OnlyOneStart(steps: seq<EventType>)
    requires IsHistory(steps + [ToolStarted])
    ensures ToolStarted !in steps
  {
    assert (steps + [ToolStarted])[|steps|] == ToolStarted;
    assert |steps| == 3;
    assert steps == (steps + [ToolStarted])[..3];
  }

  lemma {:induction false} DistinctWithin(ids: seq<CallId>, within: set<CallId>)
    requires Distinct(ids) && forall id :: id in ids ==> id in within
    ensures |ids| <= |within|
  {
    if ids == [] {
    } else {
      var n := |ids| - 1;
      assert ids[n] in ids;
      assert forall id :: id in ids[..n] ==> id in ids && id != ids[n];
      DistinctWithin(ids[..n], within - {ids[n]});
    }
  }

  function ExecutedWith(log: seq<RunEvent>, calls: Calls, signature: string): set<CallId> {
    set id | id in Executions(log) && id in calls && Signature(calls[id]) == signature
  }

  /** No call is executed twice, no more calls are executed than the budget allows, and no more
      with the same tool and arguments than the repeat bound. */
  lemma ExecutionsAreBounded(spec: AgentSpec, log: seq<RunEvent>, calls: Calls)
    requires Safe(spec, log, calls)
    ensures Distinct(Executions(log)) && |Executions(log)| <= spec.budget.maxToolCalls
    ensures forall id :: id in Executions(log) ==> id in calls
    ensures forall signature :: |ExecutedWith(log, calls, signature)| <= spec.budget.maxRepeatedToolCalls
  {
    ExecutionsAreDistinct(log);
    forall id | id in Executions(log) ensures id in calls {
      ExecutionHasStarted(log, id);
      var i := StepsStandInLog(log, id, ToolStarted);
    }
    DistinctWithin(Executions(log), calls.Keys);
    forall signature
      ensures |ExecutedWith(log, calls, signature)| <= spec.budget.maxRepeatedToolCalls
    {
      SubsetIsSmaller(ExecutedWith(log, calls, signature), WithSignature(calls, signature));
    }
  }

  lemma SubsetIsSmaller(a: set<CallId>, b: set<CallId>)
    requires a <= b
    ensures |a| <= |b|
  {
    assert b == a + (b - a);
  }
}
