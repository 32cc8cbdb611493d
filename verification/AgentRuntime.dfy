// One bounded agent run: turns of a model call followed by the tool calls it proposes, read tools
// in parallel, at most one terminal submission. Replies, tool outcomes and the clock are parameters;
// the schedule of the parallel tools, the times recorded and cancellation are arbitrary.

module AgentRuntime {
  import opened AgentContracts
  import opened AgentCourse
  import opened AgentLog
  import opened AgentTools
  import opened Common
  import opened EventLog
  import opened Outcomes

  datatype AgentResult = AgentResult(inputTokens: nat, outputTokens: nat, cost: real, trajectory: seq<RunEvent>)

  /** The variables the turn loop carries; `calls` holds the calls that passed the loop guards. */
  datatype Progress = Progress(
    retrieved: set<string>, inputTokens: nat, outputTokens: nat,
    seen: set<string>, toolCalls: nat, repeated: map<string, nat>, calls: Calls)

  const INITIAL := Progress({}, 0, 0, {}, 0, map[], map[])

  function Cost(spec: AgentSpec, inputTokens: nat, outputTokens: nat): real {
    inputTokens as real * spec.budget.inputTokenCost + outputTokens as real * spec.budget.outputTokenCost
  }

  predicate WithinBudget(spec: AgentSpec, p: Progress) {
    p.inputTokens <= spec.budget.maxInputTokens && p.outputTokens <= spec.budget.maxOutputTokens &&
    Cost(spec, p.inputTokens, p.outputTokens) <= spec.budget.maxCost
  }

  // ---- What holds between the steps of a turn ----

  function CountOf(repeated: map<string, nat>, signature: string): nat {
    if signature in repeated then repeated[signature] else 0
  }

  ghost predicate Tally(repeated: map<string, nat>, calls: Calls) {
    forall signature :: CountOf(repeated, signature) == |WithSignature(calls, signature)|
  }

  ghost predicate Tallied(p: Progress) {
    p.toolCalls == |p.calls| && Tally(p.repeated, p.calls)
  }

  /** These are exactly the required tools that have completed in a turn before `turn`. */
  ghost predicate Retrieved(spec: AgentSpec, log: seq<RunEvent>, names: set<string>, turn: nat) {
    forall name :: name in names <==> name in spec.requiredRetrievalTools && CompletedBefore(log, name, turn)
  }

  /** No call of `turn` or later yet, nothing submitted, and variables that agree with the log. */
  ghost predicate Ready(spec: AgentSpec, log: seq<RunEvent>, turn: nat, requests: nat, done: nat, p: Progress) {
    log != [] && Safe(spec, log, p.calls) && NoEnd(log) && OnlyReads(spec, log) &&
    Before(log, turn) && (forall id :: id in p.calls ==> id.turn < turn) &&
    Requests(log) == requests && InputTokens(log) == p.inputTokens && OutputTokens(log) == p.outputTokens &&
    Tallied(p) && p.seen == RemoteIds(p.calls) && Retrieved(spec, log, p.retrieved, done)
  }

  /** In the middle of `turn`: its calls are accepted, its retrievals do not count yet. */
  ghost predicate InTurn(spec: AgentSpec, log: seq<RunEvent>, turn: nat, p: Progress) {
    Ready(spec, log, turn + 1, turn + 1, turn, p)
  }

  lemma RetrievedStays(spec: AgentSpec, log: seq<RunEvent>, e: RunEvent, names: set<string>, turn: nat)
    requires Retrieved(spec, log, names, turn) && (IsCall(e) ==> IdOf(e).turn >= turn)
    ensures Retrieved(spec, log + [e], names, turn)
  {
    forall name ensures CompletedBefore(log, name, turn) <==> CompletedBefore(log + [e], name, turn) {
      if CompletedBefore(log, name, turn) {
        var i: nat :| CompletedAt(log, i, name, turn);
        assert CompletedAt(log + [e], i, name, turn);
      }
      if CompletedBefore(log + [e], name, turn) {
        var i: nat :| CompletedAt(log + [e], i, name, turn);
        assert CompletedAt(log, i, name, turn);
      }
    }
  }

  lemma AppendKeepsReady(spec: AgentSpec, log: seq<RunEvent>, e: RunEvent, turn: nat, requests: nat, done: nat,
                         p: Progress)
    requires IsAgentSpec(spec) && Ready(spec, log, turn, requests, done, p) && MayFollow(spec, log, e, p.calls)
    requires !IsEnd(Kind(e)) && (IsCall(e) ==> done <= IdOf(e).turn < turn) &&
               (Starts(e) ==> ToolOf(e) in spec.allowedReadTools)
    ensures Ready(spec, log + [e], turn, requests + (if Kind(e).ModelRequested? then 1 else 0), done,
                  p.(inputTokens := p.inputTokens + EventInput(e), outputTokens := p.outputTokens + EventOutput(e)))
  {
    AppendKeepsSafe(spec, log, e, p.calls);
    Appended(log, e);
    RetrievedStays(spec, log, e, p.retrieved, done);
  }

  /** An event of the model call of `turn`. */
  lemma ModelEventKeepsReady(spec: AgentSpec, log: seq<RunEvent>, e: RunEvent, turn: nat, requests: nat, p: Progress)
    requires IsAgentSpec(spec) && Ready(spec, log, turn, requests, turn, p)
    requires !IsCall(e) && (Kind(e).ModelRequested? || Kind(e).ModelCompleted? || Kind(e).ModelFailed?)
    requires Kind(e).ModelRequested? ==> requests < spec.budget.maxTurns
    ensures Ready(spec, log + [e], turn, requests + (if Kind(e).ModelRequested? then 1 else 0), turn,
                  p.(inputTokens := p.inputTokens + EventInput(e), outputTokens := p.outputTokens + EventOutput(e)))
  {
    AppendKeepsReady(spec, log, e, turn, requests, turn, p);
  }

  /** Records one event at whatever time the clock shows. */
  method Note(recorder: LifecycleRecorder, eventType: EventType, payload: Payload) returns (event: RunEvent)
    requires recorder.Valid()
    modifies recorder
    ensures recorder.Valid() && recorder.events == old(recorder.events) + [event]
    ensures Kind(event) == eventType && event.document.payload == payload
  {
    var now: int := *;
    event := recorder.Record(eventType, payload, now);
  }

  // ---- The model call of a turn ----

  /** One request, followed by its failure when that is a controlled one. */
  ghost predicate IsExchange(before: seq<RunEvent>, after: seq<RunEvent>, turn: nat,
                             r: Result<ModelResponse, Exception>) {
    var n := |before|;
    var failed := r.Err? && r.error.RuntimeError?;
    |after| == n + (if failed then 2 else 1) && before <= after &&
    Kind(after[n]).ModelRequested? && after[n].document.payload == Model(turn) &&
    (failed ==> Kind(after[n + 1]).ModelFailed? && after[n + 1].document.payload == Failure(r.error.code))
  }

  /** Asks the model; a controlled failure, which includes the deadline, leaves an event. */
  method CompleteModel(spec: AgentSpec, recorder: LifecycleRecorder, turn: nat, model: ModelClient, ghost p: Progress)
    returns (r: Result<ModelResponse, Exception>)
    requires recorder.Valid() && IsAgentSpec(spec)
    requires turn < spec.budget.maxTurns && Ready(spec, recorder.events, turn, turn, turn, p)
    modifies recorder
    ensures recorder.Valid() && Ready(spec, recorder.events, turn, turn + 1, turn, p)
    ensures r == model(turn) && IsExchange(old(recorder.events), recorder.events, turn, r)
  {
    ghost var log := recorder.events;
    var e := Note(recorder, ModelRequested, Model(turn));
    ModelEventKeepsReady(spec, log, e, turn, turn, p);
    r := model(turn);
    if r.Err? && r.error.RuntimeError? {
      log := recorder.events;
      e := Note(recorder, ModelFailed, Failure(r.error.code));
      ModelEventKeepsReady(spec, log, e, turn, turn + 1, p);
    }
  }

  method ChargeUsage(spec: AgentSpec, recorder: LifecycleRecorder, turn: nat, response: ModelResponse, p: Progress)
      returns (q: Progress)
    requires recorder.Valid() && IsAgentSpec(spec) && Ready(spec, recorder.events, turn, turn + 1, turn, p)
    modifies recorder
    ensures recorder.Valid() && Ready(spec, recorder.events, turn, turn + 1, turn, q)
    ensures q == p.(inputTokens := p.inputTokens + response.inputTokens,
                    outputTokens := p.outputTokens + response.outputTokens)
  {
    q := p.(inputTokens := p.inputTokens + response.inputTokens,
            outputTokens := p.outputTokens + response.outputTokens);
    ghost var log := recorder.events;
    var e := Note(recorder, ModelCompleted, Usage(turn, response.inputTokens, response.outputTokens));
    ModelEventKeepsReady(spec, log, e, turn, turn + 1, p);
  }

  predicate AllRegistered(spec: AgentSpec, registry: Registry) {
    forall name :: name in spec.allowedReadTools + [spec.terminalSubmitTool] ==> name in registry.specs
  }

  predicate Charged(model: ModelClient, p: Progress, n: nat) {
    p.inputTokens == InputOf(model, n) && p.outputTokens == OutputOf(model, n)
  }

  /** The checks before the model is asked. */
  method CheckTurn(k: Setting, turn: nat, p: Progress) returns (refused: Option<FailureCode>, ghost cause: Cause)
    requires Charged(k.world.model, p, turn)
    ensures refused.None? <==> MayAsk(k, turn)
    ensures refused.Some? ==>
              IsOfTurn(cause) && cause.turn == turn && PreventsAsking(k, cause, turn, RuntimeError(refused.value))
  {
    cause := TokensUsedUp(turn);
    if k.spec.budget.maxOutputTokens - p.outputTokens <= 0 {
      return Some(BudgetExceeded), cause;
    }
    var now := k.world.clock(turn + 1);
    if k.context.deadline - now <= 0 {
      return Some(DeadlineExceeded), AskedLate(turn);
    }
    if !AllRegistered(k.spec, k.registry) {
      return Some(UnknownTool), ToolMissing(turn);
    }
    refused := None;
  }

  /** The checks on a reply of the right model, whose tokens have been charged. */
  method CheckReply(k: Setting, turn: nat, response: ModelResponse, q: Progress)
    returns (refused: Option<FailureCode>, ghost cause: Cause)
    requires MayAsk(k, turn) && RightModelReplies(k, turn) && response == k.world.model(turn).value
    requires Charged(k.world.model, q, turn + 1)
    ensures refused.None? <==> RepliesWell(k, turn)
    ensures refused.None? ==> WithinBudget(k.spec, q)
    ensures refused.Some? ==>
              IsOfTurn(cause) && cause.turn == turn && SpoilsReply(k, cause, turn, RuntimeError(refused.value))
  {
    cause := OverBudget(turn);
    if !WithinBudget(k.spec, q) {
      return Some(BudgetExceeded), cause;
    }
    if response.hasText && response.toolCalls == [] {
      return Some(TextCompletionRejected), TextOnly(turn);
    }
    if response.toolCalls == [] {
      return Some(MalformedProviderResponse), NoCalls(turn);
    }
    refused := None;
  }

  /** The part of a turn before its tool calls are looked at. It goes on exactly when the model may be
      asked and replies well, and otherwise fails for the reason that comes up first. */
  method AskModel(k: Setting, recorder: LifecycleRecorder, turn: nat, p: Progress)
    returns (r: Result<seq<ModelToolCall>, Exception>, q: Progress, ghost cause: Cause)
    requires recorder.Valid() && IsAgentSpec(k.spec) && Charged(k.world.model, p, turn)
    requires turn < k.spec.budget.maxTurns && Ready(k.spec, recorder.events, turn, turn, turn, p)
    modifies recorder
    ensures recorder.Valid() && q == p.(inputTokens := q.inputTokens, outputTokens := q.outputTokens)
    ensures Ready(k.spec, recorder.events, turn, turn + (if MayAsk(k, turn) then 1 else 0), turn, q)
    ensures r.Ok? <==> MayAsk(k, turn) && RepliesWell(k, turn)
    ensures r.Ok? ==>
              WithinBudget(k.spec, q) && Charged(k.world.model, q, turn + 1) &&
              r.value == k.world.model(turn).value.toolCalls
    ensures r.Err? ==>
              IsOfTurn(cause) && cause.turn == turn &&
              (PreventsAsking(k, cause, turn, r.error) || SpoilsReply(k, cause, turn, r.error))
  {
    q := p;
    var refused;
    refused, cause := CheckTurn(k, turn, p);
    if refused.Some? {
      return Err(RuntimeError(refused.value)), q, cause;
    }
    var reply := CompleteModel(k.spec, recorder, turn, k.world.model, p);
    if reply.Err? {
      return Err(reply.error), q, NoReply(turn);
    }
    var response := reply.value;
    if response.modelId != k.spec.modelId {
      return Err(RuntimeError(ModelMismatch)), q, WrongModel(turn);
    }
    q := ChargeUsage(k.spec, recorder, turn, response, p);
    refused, cause := CheckReply(k, turn, response, q);
    if refused.Some? {
      return Err(RuntimeError(refused.value)), q, cause;
    }
    r := Ok(response.toolCalls);
  }

  // ---- Accepting the proposed calls ----

  lemma SignatureAdded(calls: Calls, id: CallId, v: ValidatedToolCall, signature: string)
    requires id !in calls
    ensures |WithSignature(calls[id := v], signature)| ==
            |WithSignature(calls, signature)| + if Signature(v) == signature then 1 else 0
  {
    var before := WithSignature(calls, signature);
    assert WithSignature(calls[id := v], signature) == if Signature(v) == signature then before + {id} else before;
  }

  lemma {:induction false} RemoteIdsExtend(calls: Calls, turn: nat, batch: seq<ValidatedToolCall>)
    requires forall id :: id in calls ==> id.turn < turn
    ensures RemoteIds(Extend(calls, turn, batch)) == RemoteIds(calls) + set v | v in batch :: v.call.id
  {
    ExtendMeaning(calls, turn, batch);
    var extended := Extend(calls, turn, batch);
    forall x | x in RemoteIds(calls) + set v | v in batch :: v.call.id ensures x in RemoteIds(extended) {
      if x in RemoteIds(calls) {
        var id :| id in calls && calls[id].call.id == x;
        assert extended[id].call.id == x;
      } else {
        var v :| v in batch && v.call.id == x;
        var j: nat :| j < |batch| && batch[j] == v;
        assert extended[CallId(turn, j)].call.id == x;
      }
    }
    forall x | x in RemoteIds(extended) ensures x in RemoteIds(calls) + set v | v in batch :: v.call.id {
      var id :| id in extended && extended[id].call.id == x;
      if id !in calls {
        assert extended[CallId(turn, id.index)] == batch[id.index];
      }
    }
  }

  /** The loop guards: total number of calls, and number of calls with one signature. */
  method CountCalls(spec: AgentSpec, turn: nat, batch: seq<ValidatedToolCall>, p: Progress)
      returns (ok: bool, q: Progress)
    requires Tallied(p) && (forall id :: id in p.calls ==> id.turn < turn)
    requires FewRepeats(spec, p.calls)
    ensures ok ==> q == p.(toolCalls := q.toolCalls, repeated := q.repeated, calls := Extend(p.calls, turn, batch))
    ensures ok ==> Tallied(q) && q.toolCalls <= spec.budget.maxToolCalls
    ensures ok ==> FewRepeats(spec, q.calls)
    ensures !ok ==> q.calls == p.calls
    ensures !ok ==>
              |Extend(p.calls, turn, batch)| > spec.budget.maxToolCalls ||
              !FewRepeats(spec, Extend(p.calls, turn, batch))
  {
    ExtendMeaning(p.calls, turn, batch);
    q := p.(toolCalls := p.toolCalls + |batch|);
    if q.toolCalls > spec.budget.maxToolCalls {
      return false, q;
    }
    var repeated: map<string, nat> := p.repeated;
    for i := 0 to |batch|
      invariant Tally(repeated, Extend(p.calls, turn, batch[..i])) &&
                FewRepeats(spec, Extend(p.calls, turn, batch[..i]))
    {
      var signature := Signature(batch[i]);
      NextTally(repeated, p.calls, turn, batch, i);
      repeated := repeated[signature := CountOf(repeated, signature) + 1];
      if repeated[signature] > spec.budget.maxRepeatedToolCalls {
        TooManyRepeats(spec, repeated, p.calls, turn, batch, i, signature);
        return false, q;
      }
      FewRepeatsNext(spec, repeated, p.calls, turn, batch, i);
    }
    assert batch[..|batch|] == batch;
    q := q.(repeated := repeated, calls := Extend(p.calls, turn, batch));
    ok := true;
  }

  lemma NextCount(calls: Calls, turn: nat, batch: seq<ValidatedToolCall>, i: nat, s: string)
    requires i < |batch| && (forall id :: id in calls ==> id.turn < turn)
    ensures |WithSignature(Extend(calls, turn, batch[..i + 1]), s)| ==
            |WithSignature(Extend(calls, turn, batch[..i]), s)| + if Signature(batch[i]) == s then 1 else 0
  {
    assert batch[..i + 1][..i] == batch[..i];
    ExtendMeaning(calls, turn, batch[..i]);
    SignatureAdded(Extend(calls, turn, batch[..i]), CallId(turn, i), batch[i], s);
  }

  lemma NextTally(repeated: map<string, nat>, calls: Calls, turn: nat, batch: seq<ValidatedToolCall>, i: nat)
    requires i < |batch| && (forall id :: id in calls ==> id.turn < turn)
    requires Tally(repeated, Extend(calls, turn, batch[..i]))
    ensures Tally(repeated[Signature(batch[i]) := CountOf(repeated, Signature(batch[i])) + 1],
                  Extend(calls, turn, batch[..i + 1]))
  {
    var repeated' := repeated[Signature(batch[i]) := CountOf(repeated, Signature(batch[i])) + 1];
    forall s ensures CountOf(repeated', s) == |WithSignature(Extend(calls, turn, batch[..i + 1]), s)| {
      NextCount(calls, turn, batch, i, s);
      assert CountOf(repeated, s) == |WithSignature(Extend(calls, turn, batch[..i]), s)|;
    }
  }

  lemma FewRepeatsNext(spec: AgentSpec, repeated: map<string, nat>, calls: Calls, turn: nat,
                       batch: seq<ValidatedToolCall>, i: nat)
    requires i < |batch| && (forall id :: id in calls ==> id.turn < turn)
    requires FewRepeats(spec, Extend(calls, turn, batch[..i])) && Tally(repeated, Extend(calls, turn, batch[..i + 1]))
    requires CountOf(repeated, Signature(batch[i])) <= spec.budget.maxRepeatedToolCalls
    ensures FewRepeats(spec, Extend(calls, turn, batch[..i + 1]))
  {
    var after := Extend(calls, turn, batch[..i + 1]);
    forall s ensures |WithSignature(after, s)| <= spec.budget.maxRepeatedToolCalls {
      NextCount(calls, turn, batch, i, s);
      assert CountOf(repeated, s) == |WithSignature(after, s)|;
      assert |WithSignature(Extend(calls, turn, batch[..i]), s)| <= spec.budget.maxRepeatedToolCalls;
    }
  }

  lemma {:induction false} MoreCallsCountMore(calls: Calls, turn: nat, batch: seq<ValidatedToolCall>, i: nat, s: string)
    requires i <= |batch| && (forall id :: id in calls ==> id.turn < turn)
    ensures |WithSignature(Extend(calls, turn, batch[..i]), s)| <= |WithSignature(Extend(calls, turn, batch), s)|
    decreases |batch| - i
  {
    if i < |batch| {
      NextCount(calls, turn, batch, i, s);
      MoreCallsCountMore(calls, turn, batch, i + 1, s);
    } else {
      assert batch[..i] == batch;
    }
  }

  lemma TooManyRepeats(spec: AgentSpec, repeated: map<string, nat>, calls: Calls, turn: nat,
                       batch: seq<ValidatedToolCall>, i: nat, s: string)
    requires i < |batch| && (forall id :: id in calls ==> id.turn < turn)
    requires Tally(repeated, Extend(calls, turn, batch[..i + 1])) &&
             CountOf(repeated, s) > spec.budget.maxRepeatedToolCalls
    ensures !FewRepeats(spec, Extend(calls, turn, batch))
  {
    assert CountOf(repeated, s) == |WithSignature(Extend(calls, turn, batch[..i + 1]), s)|;
    MoreCallsCountMore(calls, turn, batch, i + 1, s);
  }

  ghost predicate HasBatch(calls: Calls, turn: nat, batch: seq<ValidatedToolCall>) {
    (forall j: nat :: j < |batch| ==> CallId(turn, j) in calls && calls[CallId(turn, j)] == batch[j]) &&
    forall id :: id in calls && id.turn == turn ==> id.index < |batch|
  }

  ghost predicate AllAt(log: seq<RunEvent>, turn: nat, from: nat, to: nat, steps: seq<EventType>) {
    forall j: nat :: from <= j < to ==> Steps(log, CallId(turn, j)) == steps
  }

  ghost predicate NewIds(batch: seq<ValidatedToolCall>, seen: set<string>) {
    (forall i, j :: 0 <= i < j < |batch| ==> batch[i].call.id != batch[j].call.id) &&
    forall i :: 0 <= i < |batch| ==> batch[i].call.id !in seen
  }

  lemma RemoteIdsStayDistinct(calls: Calls, turn: nat, batch: seq<ValidatedToolCall>, a: CallId, b: CallId)
    requires forall id :: id in calls ==> id.turn < turn
    requires forall x, y :: x in calls && y in calls && x != y ==> calls[x].call.id != calls[y].call.id
    requires NewIds(batch, RemoteIds(calls))
    requires a in Extend(calls, turn, batch) && b in Extend(calls, turn, batch) && a != b
    ensures Extend(calls, turn, batch)[a].call.id != Extend(calls, turn, batch)[b].call.id
  {
    ExtendMeaning(calls, turn, batch);
    var extended := Extend(calls, turn, batch);
    forall id | id in extended && id !in calls
      ensures id == CallId(turn, id.index) && id.index < |batch| && extended[id] == batch[id.index]
    {
      assert id == CallId(turn, id.index);
    }
    assert forall id :: id in calls ==> calls[id].call.id in RemoteIds(calls);
  }

  lemma AcceptedIsReady(spec: AgentSpec, log: seq<RunEvent>, turn: nat, batch: seq<ValidatedToolCall>, p: Progress,
                        q: Progress)
    requires Ready(spec, log, turn, turn + 1, turn, p) && NewIds(batch, p.seen)
    requires q.calls == Extend(p.calls, turn, batch) && Tallied(q)
    requires q.toolCalls <= spec.budget.maxToolCalls && FewRepeats(spec, q.calls)
    requires q == p.(seen := p.seen + set v | v in batch :: v.call.id, toolCalls := q.toolCalls, repeated := q.repeated,
                     calls := q.calls)
    ensures InTurn(spec, log, turn, q) && HasBatch(q.calls, turn, batch) && AllAt(log, turn, 0, |batch|, [])
  {
    ExtendMeaning(p.calls, turn, batch);
    RemoteIdsExtend(p.calls, turn, batch);
    forall a, b | a in q.calls && b in q.calls && a != b ensures q.calls[a].call.id != q.calls[b].call.id {
      RemoteIdsStayDistinct(p.calls, turn, batch, a, b);
    }
    forall j: nat | j < |batch| ensures Steps(log, CallId(turn, j)) == [] {
      NoStepsBefore(log, CallId(turn, j));
    }
    MoreCallsNamed(spec, log, p.calls, q.calls);
  }

  /** What the log says of its calls stays true when further calls are accepted. */
  lemma MoreCallsNamed(spec: AgentSpec, log: seq<RunEvent>, calls: Calls, more: Calls)
    requires Named(log, calls) && StartsGranted(spec, log, calls)
    requires forall id :: id in calls ==> id in more && more[id] == calls[id]
    ensures Named(log, more) && StartsGranted(spec, log, more)
  {
  }

  /** Validation and the loop guards: the batch accepted is the validated proposal, accepted exactly
      when it passes both. */
  method AcceptCalls(spec: AgentSpec, registry: Registry, turn: nat, proposed: seq<ModelToolCall>,
                     ghost log: seq<RunEvent>, p: Progress)
    returns (r: Result<seq<ValidatedToolCall>, FailureCode>, q: Progress)
    requires IsRegistry(registry) && Ready(spec, log, turn, turn + 1, turn, p)
    ensures r.Ok? <==>
              PassesValidation(registry, proposed, p.seen) &&
              PassesGuards(spec, turn, p.calls, Validated(registry, proposed))
    ensures r.Ok? ==> r.value == Validated(registry, proposed) && q.calls == Extend(p.calls, turn, r.value)
    ensures r.Err? ==> q.calls == p.calls
    ensures proposed != [] && !PassesValidation(registry, proposed, p.seen) ==>
              r.Err? && IsFaultOf(registry, proposed, p.seen, r.error)
    ensures PassesValidation(registry, proposed, p.seen) && r.Err? ==> r.error == ToolLoopGuard
    ensures r.Ok? ==>
              InTurn(spec, log, turn, q) && HasBatch(q.calls, turn, r.value) &&
              AllAt(log, turn, 0, |r.value|, [])
    ensures r.Ok? ==>
              r.value != [] && q.retrieved == p.retrieved && q.inputTokens == p.inputTokens &&
              q.outputTokens == p.outputTokens
  {
    q := p;
    var validated, seen := ValidateCalls(registry, proposed, p.seen);
    if validated.Err? {
      return Err(validated.error), q;
    }
    var batch := validated.value;
    assert batch == Validated(registry, proposed);
    q := q.(seen := seen);
    var ok;
    ok, q := CountCalls(spec, turn, batch, q);
    if !ok {
      return Err(ToolLoopGuard), q;
    }
    assert Members(CallIds(proposed)) == set v | v in batch :: v.call.id by {
      forall x | x in Members(CallIds(proposed)) ensures exists v :: v in batch && v.call.id == x {
        var i :| 0 <= i < |proposed| && CallIds(proposed)[i] == x;
        assert batch[i] in batch && batch[i].call.id == x;
      }
    }
    AcceptedIsReady(spec, log, turn, batch, p, q);
    r := Ok(batch);
  }

  // ---- Recording the stages of the calls ----

  /** A call of a tool that only reads and that the agent may use. */
  predicate IsRead(spec: AgentSpec, v: ValidatedToolCall) {
    v.spec.name in spec.allowedReadTools && v.spec.sideEffect.ReadOnly?
  }

  method NoteCall(spec: AgentSpec, recorder: LifecycleRecorder, eventType: EventType, turn: nat, j: nat,
                  batch: seq<ValidatedToolCall>, ghost p: Progress)
    requires recorder.Valid() && IsAgentSpec(spec) && InTurn(spec, recorder.events, turn, p)
    requires j < |batch| && HasBatch(p.calls, turn, batch)
    requires IsToolEvent(eventType) && IsHistory(Steps(recorder.events, CallId(turn, j)) + [eventType])
    requires eventType.ToolStarted? ==> IsRead(spec, batch[j])
    modifies recorder
    ensures recorder.Valid() && InTurn(spec, recorder.events, turn, p)
    ensures forall id :: Steps(recorder.events, id) == old(Steps(recorder.events, id)) +
              if id == CallId(turn, j) then [eventType] else []
    ensures !eventType.ToolStarted? ==> Executions(recorder.events) == old(Executions(recorder.events))
  {
    ghost var log := recorder.events;
    var e := Note(recorder, eventType, Call(CallId(turn, j), batch[j].spec.name));
    CallEventKeepsTurn(spec, log, e, turn, j, batch, p);
  }

  lemma CallEventKeepsTurn(spec: AgentSpec, log: seq<RunEvent>, e: RunEvent, turn: nat, j: nat,
                           batch: seq<ValidatedToolCall>, p: Progress)
    requires IsAgentSpec(spec) && InTurn(spec, log, turn, p) && j < |batch| && HasBatch(p.calls, turn, batch)
    requires IsToolEvent(Kind(e)) && e.document.payload == Call(CallId(turn, j), batch[j].spec.name)
    requires IsHistory(Steps(log, CallId(turn, j)) + [Kind(e)]) && (Kind(e).ToolStarted? ==> IsRead(spec, batch[j]))
    ensures InTurn(spec, log + [e], turn, p)
    ensures forall id :: Steps(log + [e], id) == Steps(log, id) + if id == CallId(turn, j) then [Kind(e)] else []
    ensures !Kind(e).ToolStarted? ==> Executions(log + [e]) == Executions(log)
  {
    assert MayFollow(spec, log, e, p.calls);
    AppendKeepsReady(spec, log, e, turn + 1, turn + 1, turn, p);
    Appended(log, e);
  }

  /** The call at position `i` moves on to the next stage, the others stay. */
  lemma StageAdvances(log: seq<RunEvent>, log': seq<RunEvent>, turn: nat, i: nat, to: nat, before: seq<EventType>,
                      after: seq<EventType>)
    requires i < to && AllAt(log, turn, 0, i, after) && AllAt(log, turn, i, to, before)
    requires Steps(log', CallId(turn, i)) == after
    requires forall id :: id != CallId(turn, i) ==> Steps(log', id) == Steps(log, id)
    ensures AllAt(log', turn, 0, i + 1, after) && AllAt(log', turn, i + 1, to, before)
  {
  }

  /** The first two stages of one call. */
  method ProposeCall(spec: AgentSpec, recorder: LifecycleRecorder, turn: nat, i: nat, batch: seq<ValidatedToolCall>,
                     ghost p: Progress)
    requires recorder.Valid() && IsAgentSpec(spec) && InTurn(spec, recorder.events, turn, p)
    requires i < |batch| && HasBatch(p.calls, turn, batch) && Steps(recorder.events, CallId(turn, i)) == []
    modifies recorder
    ensures recorder.Valid() && InTurn(spec, recorder.events, turn, p)
    ensures Steps(recorder.events, CallId(turn, i)) == [ToolProposed, ToolValidated]
    ensures forall id :: id != CallId(turn, i) ==> Steps(recorder.events, id) == old(Steps(recorder.events, id))
    ensures Executions(recorder.events) == old(Executions(recorder.events))
  {
    NoteCall(spec, recorder, ToolProposed, turn, i, batch, p);
    assert Steps(recorder.events, CallId(turn, i)) == [ToolProposed];
    NoteCall(spec, recorder, ToolValidated, turn, i, batch, p);
  }

  method ProposeCalls(spec: AgentSpec, recorder: LifecycleRecorder, turn: nat, batch: seq<ValidatedToolCall>,
                      ghost p: Progress)
    requires recorder.Valid() && IsAgentSpec(spec) && InTurn(spec, recorder.events, turn, p)
    requires HasBatch(p.calls, turn, batch) && AllAt(recorder.events, turn, 0, |batch|, [])
    modifies recorder
    ensures recorder.Valid() && InTurn(spec, recorder.events, turn, p)
    ensures AllAt(recorder.events, turn, 0, |batch|, [ToolProposed, ToolValidated])
    ensures Executions(recorder.events) == old(Executions(recorder.events))
  {
    for i := 0 to |batch|
      invariant recorder.Valid() && InTurn(spec, recorder.events, turn, p)
      invariant AllAt(recorder.events, turn, 0, i, [ToolProposed, ToolValidated]) &&
                AllAt(recorder.events, turn, i, |batch|, [])
      invariant Executions(recorder.events) == old(Executions(recorder.events))
    {
      ghost var log := recorder.events;
      ProposeCall(spec, recorder, turn, i, batch, p);
      StageAdvances(log, recorder.events, turn, i, |batch|, [], [ToolProposed, ToolValidated]);
    }
  }

  method AllowCalls(spec: AgentSpec, recorder: LifecycleRecorder, turn: nat, batch: seq<ValidatedToolCall>,
                    ghost p: Progress)
    requires recorder.Valid() && IsAgentSpec(spec) && InTurn(spec, recorder.events, turn, p)
    requires HasBatch(p.calls, turn, batch) && AllAt(recorder.events, turn, 0, |batch|, [ToolProposed, ToolValidated])
    modifies recorder
    ensures recorder.Valid() && InTurn(spec, recorder.events, turn, p)
    ensures AllAt(recorder.events, turn, 0, |batch|, ALLOWED_STEPS)
  {
    for i := 0 to |batch|
      invariant recorder.Valid() && InTurn(spec, recorder.events, turn, p)
      invariant AllAt(recorder.events, turn, 0, i, ALLOWED_STEPS) &&
                AllAt(recorder.events, turn, i, |batch|, [ToolProposed, ToolValidated])
    {
      ghost var log := recorder.events;
      NoteCall(spec, recorder, ToolAllowed, turn, i, batch, p);
      StageAdvances(log, recorder.events, turn, i, |batch|, [ToolProposed, ToolValidated], ALLOWED_STEPS);
    }
  }

  // ---- The parallel read tools ----

  /** One task; `Failed` has met an exception, `Stopped` was cancelled before or after its start. */
  datatype Task = Pending | Running | Completed | Failed(e: Exception) | Stopped(started: bool)

  predicate IsLive(t: Task) { t.Pending? || t.Running? }

  /** What a task adds to the history of its call. */
  function TaskSteps(t: Task): seq<EventType> {
    match t
    case Pending => []
    case Running => [ToolStarted]
    case Completed => [ToolStarted, ToolCompleted]
    case Failed(e) => if e.RuntimeError? then [ToolStarted, ToolFailed] else [ToolStarted]
    case Stopped(started) => if started then [ToolStarted] else []
  }

  function Work(tasks: seq<Task>): nat {
    if tasks == [] then 0
    else
      var t := tasks[|tasks| - 1];
      Work(tasks[..|tasks| - 1]) + if t.Pending? then 2 else if t.Running? then 1 else 0
  }

  lemma {:induction false} WorkShrinks(tasks: seq<Task>, i: nat, t: Task)
    requires i < |tasks| && IsLive(tasks[i]) && (tasks[i].Pending? ==> !t.Pending?) &&
               (tasks[i].Running? ==> !IsLive(t))
    ensures Work(tasks[i := t]) < Work(tasks)
  {
    var n := |tasks| - 1;
    assert tasks[i := t][..n] == if i == n then tasks[..n] else tasks[..n][i := t];
    if i >= n {
    } else {
      WorkShrinks(tasks[..n], i, t);
    }
  }

  ghost predicate TasksAt(log: seq<RunEvent>, turn: nat, tasks: seq<Task>) {
    forall j: nat :: j < |tasks| ==> Steps(log, CallId(turn, j)) == ALLOWED_STEPS + TaskSteps(tasks[j])
  }

  predicate NoneFailed(tasks: seq<Task>) {
    forall i :: 0 <= i < |tasks| ==> !tasks[i].Failed? && !tasks[i].Stopped?
  }

  lemma TaskAdvances(log: seq<RunEvent>, log': seq<RunEvent>, turn: nat, tasks: seq<Task>, i: nat, task: Task, to: nat)
    requires TasksAt(log, turn, tasks) && AllAt(log, turn, |tasks|, to, ALLOWED_STEPS) && i < |tasks|
    requires Steps(log', CallId(turn, i)) == ALLOWED_STEPS + TaskSteps(task)
    requires forall id :: id != CallId(turn, i) ==> Steps(log', id) == Steps(log, id)
    ensures TasksAt(log', turn, tasks[i := task]) && AllAt(log', turn, |tasks|, to, ALLOWED_STEPS)
  {
  }

  lemma AllTasksCompleted(log: seq<RunEvent>, turn: nat, tasks: seq<Task>)
    requires TasksAt(log, turn, tasks) && NoneFailed(tasks) && forall j :: 0 <= j < |tasks| ==> !IsLive(tasks[j])
    ensures AllAt(log, turn, 0, |tasks|, ALLOWED_STEPS + [ToolStarted, ToolCompleted])
  {
  }

  /** A task ends as the tool does, when it is not stopped before. */
  predicate EndsAsTool(world: World, id: CallId, task: Task) {
    (task.Completed? ==> world.tools(id).None?) && (task.Failed? ==> world.tools(id) == Some(task.e))
  }

  ghost predicate EndAsTools(world: World, turn: nat, tasks: seq<Task>) {
    forall j: nat :: j < |tasks| ==> EndsAsTool(world, CallId(turn, j), tasks[j])
  }

  /** How the failure met so far, if any, comes from the tools or from outside. */
  ghost predicate FailureSoFar(world: World, turn: nat, tasks: seq<Task>, failure: Option<Exception>, cancelled: bool) {
    EndAsTools(world, turn, tasks) &&
    (if cancelled then failure == Some(Cancelled)
     else if failure.None? then NoneFailed(tasks)
     else FailedAmong(world, turn, |tasks|, failure.value))
  }

  lemma FailureAfterTask(world: World, turn: nat, tasks: seq<Task>, failure: Option<Exception>, cancelled: bool,
                         i: nat, task: Task)
    requires i < |tasks| && FailureSoFar(world, turn, tasks, failure, cancelled)
    requires EndsAsTool(world, CallId(turn, i), task) && (task.Stopped? ==> failure.Some?)
    ensures FailureSoFar(world, turn, tasks[i := task],
                         if failure.None? && task.Failed? then Some(task.e) else failure, cancelled)
  {
    var after := tasks[i := task];
    forall j: nat | j < |after| ensures EndsAsTool(world, CallId(turn, j), after[j]) {
      assert j != i ==> EndsAsTool(world, CallId(turn, j), tasks[j]);
    }
  }

  ghost predicate FailedAmong(world: World, turn: nat, n: nat, e: Exception) {
    exists j: nat :: j < n && world.tools(CallId(turn, j)) == Some(e)
  }

  predicate MayRead(spec: AgentSpec, batch: seq<ValidatedToolCall>, n: nat)
    requires n <= |batch|
  {
    forall j :: 0 <= j < n ==> IsRead(spec, batch[j])
  }

  /** Runs the first `n` calls of the batch in parallel, under every schedule. Each round is one
      step of one task, or one cancellation from outside, which replaces a failure that is being
      cleaned up. After the first failure the unfinished tasks may be stopped at any point, or still
      finish; all of them end before the method does. It fails exactly when it is interrupted or one
      of the tools fails. */
  method ExecuteReadCalls(spec: AgentSpec, recorder: LifecycleRecorder, turn: nat, batch: seq<ValidatedToolCall>,
                          n: nat, world: World, ghost p: Progress)
    returns (failure: Option<Exception>, ghost wasInterrupted: bool)
    requires recorder.Valid() && IsAgentSpec(spec) && InTurn(spec, recorder.events, turn, p)
    requires HasBatch(p.calls, turn, batch) && n <= |batch| && AllAt(recorder.events, turn, 0, |batch|, ALLOWED_STEPS)
    requires MayRead(spec, batch, n)
    modifies recorder
    ensures recorder.Valid() && InTurn(spec, recorder.events, turn, p)
    ensures AllAt(recorder.events, turn, n, |batch|, ALLOWED_STEPS)
    ensures failure.None? ==> AllAt(recorder.events, turn, 0, n, ALLOWED_STEPS + [ToolStarted, ToolCompleted])
    ensures ReadsEndAs(world, turn, n, failure, wasInterrupted)
  {
    var tasks: seq<Task> := seq(n, _ => Pending);
    failure := None;
    var cancelled := false;
    while exists j :: 0 <= j < |tasks| && IsLive(tasks[j])
      invariant |tasks| == n && recorder.Valid() && InTurn(spec, recorder.events, turn, p)
      invariant TasksAt(recorder.events, turn, tasks) && AllAt(recorder.events, turn, n, |batch|, ALLOWED_STEPS)
      invariant FailureSoFar(world, turn, tasks, failure, cancelled)
      decreases Work(tasks) + if cancelled then 0 else 1
    {
      var interrupted: bool := *;
      if interrupted && !cancelled {
        failure, cancelled := Some(Cancelled), true;
      } else {
        var i: nat :| i < |tasks| && IsLive(tasks[i]);
        ghost var log := recorder.events;
        var task := StepTask(spec, recorder, turn, batch, i, tasks[i], failure.Some?, world, p);
        WorkShrinks(tasks, i, task);
        TaskAdvances(log, recorder.events, turn, tasks, i, task, |batch|);
        FailureAfterTask(world, turn, tasks, failure, cancelled, i, task);
        if failure.None? && task.Failed? {
          failure := Some(task.e);
        }
        tasks := tasks[i := task];
      }
    }
    wasInterrupted := cancelled;
    ReadsMeaning(world, turn, tasks, failure, cancelled);
    if failure.None? {
      AllTasksCompleted(recorder.events, turn, tasks);
    }
  }

  lemma ReadsMeaning(world: World, turn: nat, tasks: seq<Task>, failure: Option<Exception>, cancelled: bool)
    requires FailureSoFar(world, turn, tasks, failure, cancelled) && forall j :: 0 <= j < |tasks| ==> !IsLive(tasks[j])
    ensures ReadsEndAs(world, turn, |tasks|, failure, cancelled)
  {
    if failure.None? {
      AllToolsSucceeded(world, turn, tasks);
    }
  }

  /** The reads fail exactly when they are interrupted or one of the tools fails. */
  ghost predicate ReadsEndAs(world: World, turn: nat, n: nat, failure: Option<Exception>, wasInterrupted: bool) {
    if wasInterrupted then failure == Some(Cancelled)
    else if failure.Some? then FailedAmong(world, turn, n, failure.value)
    else forall j: nat :: j < n ==> world.tools(CallId(turn, j)) == None
  }

  lemma AllToolsSucceeded(world: World, turn: nat, tasks: seq<Task>)
    requires EndAsTools(world, turn, tasks) && NoneFailed(tasks) && forall j :: 0 <= j < |tasks| ==> !IsLive(tasks[j])
    ensures forall j: nat :: j < |tasks| ==> world.tools(CallId(turn, j)) == None
  {
    forall j: nat | j < |tasks| ensures world.tools(CallId(turn, j)) == None {
      assert EndsAsTool(world, CallId(turn, j), tasks[j]);
    }
  }

  /** The next step of one live task: it starts, it ends as its tool does, or, where that is possible,
      it stops. */
  method StepTask(spec: AgentSpec, recorder: LifecycleRecorder, turn: nat, batch: seq<ValidatedToolCall>, i: nat,
                  before: Task, mayStop: bool, world: World, ghost p: Progress)
    returns (after: Task)
    requires recorder.Valid() && IsAgentSpec(spec) && InTurn(spec, recorder.events, turn, p)
    requires HasBatch(p.calls, turn, batch) && i < |batch| && IsRead(spec, batch[i])
    requires IsLive(before) && Steps(recorder.events, CallId(turn, i)) == ALLOWED_STEPS + TaskSteps(before)
    modifies recorder
    ensures recorder.Valid() && InTurn(spec, recorder.events, turn, p)
    ensures Steps(recorder.events, CallId(turn, i)) == ALLOWED_STEPS + TaskSteps(after)
    ensures forall id :: id != CallId(turn, i) ==> Steps(recorder.events, id) == old(Steps(recorder.events, id))
    ensures (before.Pending? ==> !after.Pending?) && (before.Running? ==> !IsLive(after)) &&
            (after.Stopped? ==> mayStop)
    ensures EndsAsTool(world, CallId(turn, i), after)
  {
    var stop: bool := *;
    if stop && mayStop {
      return Stopped(before.Running?);
    }
    if before.Pending? {
      NoteCall(spec, recorder, ToolStarted, turn, i, batch, p);
      return Running;
    }
    var exception := world.tools(CallId(turn, i));
    if exception.None? {
      NoteCall(spec, recorder, ToolCompleted, turn, i, batch, p);
      return Completed;
    }
    if exception.value.RuntimeError? {
      NoteCall(spec, recorder, ToolFailed, turn, i, batch, p);
    }
    return Failed(exception.value);
  }

  // ---- Retrievals and the submission ----

  /** What has completed by the end of the reads completed before the turn or is one of the reads. */
  lemma CompletedByNow(spec: AgentSpec, log: seq<RunEvent>, turn: nat, batch: seq<ValidatedToolCall>, n: nat,
                       p: Progress, name: string)
    requires InTurn(spec, log, turn, p) && HasBatch(p.calls, turn, batch) && n <= |batch|
    requires AllAt(log, turn, 0, n, ALLOWED_STEPS + [ToolStarted, ToolCompleted]) &&
             AllAt(log, turn, n, |batch|, ALLOWED_STEPS)
    ensures CompletedBefore(log, name, turn + 1) <==>
            CompletedBefore(log, name, turn) || exists j :: 0 <= j < n && batch[j].spec.name == name
  {
    if CompletedBefore(log, name, turn + 1) {
      var i: nat :| CompletedAt(log, i, name, turn + 1);
      var id := IdOf(log[i]);
      EventIsStep(log, i);
      if id.turn == turn {
        assert id == CallId(turn, id.index);
        assert ToolCompleted !in ALLOWED_STEPS;
        assert id.index < n;
      } else {
        assert CompletedAt(log, i, name, turn);
      }
    }
    if CompletedBefore(log, name, turn) {
      var i: nat :| CompletedAt(log, i, name, turn);
      assert CompletedAt(log, i, name, turn + 1);
    }
    if j :| 0 <= j < n && batch[j].spec.name == name {
      assert Steps(log, CallId(turn, j))[4] == ToolCompleted;
      var i := StepsStandInLog(log, CallId(turn, j), ToolCompleted);
      assert CompletedAt(log, i, name, turn + 1);
    }
  }

  /** The required tools among the completed reads count from the next turn on. */
  method CollectRetrieved(spec: AgentSpec, turn: nat, batch: seq<ValidatedToolCall>, n: nat, retrieved: set<string>)
      returns (collected: set<string>)
    requires n <= |batch|
    ensures collected == retrieved + RequiredAmong(spec, batch, n)
  {
    collected := retrieved;
    for i := 0 to n
      invariant collected == retrieved + RequiredAmong(spec, batch, i)
    {
      var name := batch[i].spec.name;
      if name in spec.requiredRetrievalTools {
        collected := collected + {name};
      }
    }
  }

  lemma CollectedIsReady(spec: AgentSpec, log: seq<RunEvent>, turn: nat, batch: seq<ValidatedToolCall>, n: nat,
                         p: Progress)
    requires InTurn(spec, log, turn, p) && HasBatch(p.calls, turn, batch) && n <= |batch|
    requires AllAt(log, turn, 0, n, ALLOWED_STEPS + [ToolStarted, ToolCompleted]) &&
             AllAt(log, turn, n, |batch|, ALLOWED_STEPS)
    ensures Ready(spec, log, turn + 1, turn + 1, turn + 1, p.(retrieved := p.retrieved + RequiredAmong(spec, batch, n)))
  {
    var retrieved := p.retrieved + RequiredAmong(spec, batch, n);
    forall name
      ensures name in retrieved <==>
              name in spec.requiredRetrievalTools && CompletedBefore(log, name, turn + 1)
    {
      CompletedByNow(spec, log, turn, batch, n, p, name);
    }
  }

  /** A run that yields a result: everything required was retrieved in earlier turns, the terminal
      tool ran once, as the last tool, and the totals are those of the log and within budget. */
  ghost predicate IsComplete(spec: AgentSpec, log: seq<RunEvent>, result: AgentResult) {
    var n := |log|;
    n >= 4 && Starts(log[n - 4]) && Completes(log[n - 3]) && IdOf(log[n - 4]) == IdOf(log[n - 3]) &&
    ToolOf(log[n - 4]) == ToolOf(log[n - 3]) == spec.terminalSubmitTool &&
    Kind(log[n - 2]).OutputValidated? && Kind(log[n - 1]).RunCompleted? &&
    OnlyReads(spec, log[..n - 4]) &&
    (forall name :: name in spec.requiredRetrievalTools ==>
       CompletedBefore(log[..n - 4], name, IdOf(log[n - 4]).turn)) &&
    result.inputTokens == InputTokens(log) <= spec.budget.maxInputTokens &&
    result.outputTokens == OutputTokens(log) <= spec.budget.maxOutputTokens &&
    result.cost == Cost(spec, result.inputTokens, result.outputTokens) <= spec.budget.maxCost &&
    result.trajectory == log
  }

  /** The outcome of a turn, or of the whole loop. */
  datatype Step = Continue | Finished(result: AgentResult) | Raised(e: Exception)

  ghost predicate AfterStep(spec: AgentSpec, log: seq<RunEvent>, calls: Calls, step: Step) {
    Safe(spec, log, calls) &&
    (step.Finished? ==> IsComplete(spec, log, step.result) && NoEnd(log[..|log| - 1])) &&
    (!step.Finished? ==> NoEnd(log))
  }

  lemma SubmissionCompletes(spec: AgentSpec, log: seq<RunEvent>, turn: nat, tail: seq<RunEvent>, p: Progress)
    requires InTurn(spec, log, turn, p) && AllRetrieved(spec, p.retrieved) && WithinBudget(spec, p)
    requires |tail| == 4 && Starts(tail[0]) && Completes(tail[1]) && IdOf(tail[0]) == IdOf(tail[1])
    requires ToolOf(tail[0]) == ToolOf(tail[1]) == spec.terminalSubmitTool && IdOf(tail[0]).turn == turn
    requires Kind(tail[2]).OutputValidated? && tail[2].document.payload.Submitted? && Kind(tail[3]).RunCompleted? &&
             tail[3].document.payload.Agent?
    ensures var log' := log + [tail[0]] + [tail[1]] + [tail[2]] + [tail[3]];
            IsComplete(spec, log', AgentResult(p.inputTokens, p.outputTokens, Cost(spec, p.inputTokens, p.outputTokens),
                                               log'))
  {
    var log1 := log + [tail[0]];
    var log2 := log1 + [tail[1]];
    var log3 := log2 + [tail[2]];
    var log4 := log3 + [tail[3]];
    Appended(log, tail[0]);
    Appended(log1, tail[1]);
    Appended(log2, tail[2]);
    Appended(log3, tail[3]);
    assert log4[..|log4| - 4] == log;
  }

  ghost predicate IsExecution(e: RunEvent, f: RunEvent, id: CallId, tool: string) {
    Starts(e) && Completes(f) && IdOf(e) == IdOf(f) == id && ToolOf(e) == ToolOf(f) == tool
  }

  lemma TerminalMayStart(spec: AgentSpec, log: seq<RunEvent>, e: RunEvent, id: CallId, p: Progress)
    requires IsAgentSpec(spec) && InTurn(spec, log, id.turn, p) && Steps(log, id) == ALLOWED_STEPS
    requires id in p.calls && p.calls[id].spec.name == spec.terminalSubmitTool && AllRetrieved(spec, p.retrieved)
    requires Kind(e).ToolStarted? && e.document.payload == Call(id, spec.terminalSubmitTool)
    ensures Safe(spec, log + [e], p.calls) && NoEnd(log + [e]) && Before(log + [e], id.turn + 1)
    ensures Requests(log + [e]) == Requests(log)
    ensures Steps(log + [e], id) == ALLOWED_STEPS + [ToolStarted]
  {
    AppendKeepsSafe(spec, log, e, p.calls);
    Appended(log, e);
  }

  lemma TerminalMayEnd(spec: AgentSpec, log: seq<RunEvent>, e: RunEvent, id: CallId, calls: Calls)
    requires IsAgentSpec(spec) && Safe(spec, log, calls) && NoEnd(log)
    requires Before(log, id.turn + 1) && Steps(log, id) == ALLOWED_STEPS + [ToolStarted]
    requires id in calls && calls[id].spec.name == spec.terminalSubmitTool
    requires Kind(e).ToolCompleted? || Kind(e).ToolFailed?
    requires e.document.payload == Call(id, spec.terminalSubmitTool)
    ensures Safe(spec, log + [e], calls) && NoEnd(log + [e]) && Requests(log + [e]) == Requests(log)
  {
    AppendKeepsSafe(spec, log, e, calls);
    Appended(log, e);
  }

  /** Runs the terminal tool. */
  method ExecuteTerminal(spec: AgentSpec, recorder: LifecycleRecorder, turn: nat, j: nat, world: World,
                         ghost p: Progress)
    returns (exception: Option<Exception>, ghost tail: seq<RunEvent>)
    requires recorder.Valid() && IsAgentSpec(spec) && InTurn(spec, recorder.events, turn, p)
    requires CallId(turn, j) in p.calls && p.calls[CallId(turn, j)].spec.name == spec.terminalSubmitTool
    requires Steps(recorder.events, CallId(turn, j)) == ALLOWED_STEPS && AllRetrieved(spec, p.retrieved)
    modifies recorder
    ensures recorder.Valid() && Safe(spec, recorder.events, p.calls) && NoEnd(recorder.events)
    ensures Requests(recorder.events) == old(Requests(recorder.events))
    ensures exception == world.tools(CallId(turn, j))
    ensures exception.None? ==> |tail| == 2 && IsExecution(tail[0], tail[1], CallId(turn, j), spec.terminalSubmitTool)
    ensures exception.None? ==> recorder.events == old(recorder.events) + [tail[0]] + [tail[1]]
  {
    ghost var log := recorder.events;
    var id := CallId(turn, j);
    var started := Note(recorder, ToolStarted, Call(id, spec.terminalSubmitTool));
    TerminalMayStart(spec, log, started, id, p);
    log := recorder.events;
    tail := [];
    exception := world.tools(id);
    if exception.None? {
      var completed := Note(recorder, ToolCompleted, Call(id, spec.terminalSubmitTool));
      TerminalMayEnd(spec, log, completed, id, p.calls);
      tail := [started, completed];
    } else if exception.value.RuntimeError? {
      var failed := Note(recorder, ToolFailed, Call(id, spec.terminalSubmitTool));
      TerminalMayEnd(spec, log, failed, id, p.calls);
    }
  }

  /** Checks the output of the terminal tool and closes the run. */
  method CloseRun(spec: AgentSpec, recorder: LifecycleRecorder, id: CallId, world: World, p: Progress,
                  ghost log: seq<RunEvent>, ghost tail: seq<RunEvent>) returns (step: Step)
    requires recorder.Valid() && IsAgentSpec(spec) && InTurn(spec, log, id.turn, p) &&
             AllRetrieved(spec, p.retrieved) && WithinBudget(spec, p)
    requires |tail| == 2 && IsExecution(tail[0], tail[1], id, spec.terminalSubmitTool)
    requires recorder.events == log + [tail[0]] + [tail[1]]
    requires Safe(spec, recorder.events, p.calls) && NoEnd(recorder.events)
    modifies recorder
    ensures recorder.Valid() && AfterStep(spec, recorder.events, p.calls, step)
    ensures Requests(recorder.events) == old(Requests(recorder.events))
    ensures if world.accepts(id) then step.Finished? else step == Raised(RuntimeError(TerminalSubmitInvalid))
    ensures step.Finished? ==> FinishesWith(recorder.events, step.result, id.turn, p)
  {
    var valid := world.accepts(id);
    if !valid {
      return Raised(RuntimeError(TerminalSubmitInvalid));
    }
    step := CompleteRun(spec, recorder, id, p, log, tail);
  }

  /** Records the last two events of a run that returns a result. */
  method CompleteRun(spec: AgentSpec, recorder: LifecycleRecorder, id: CallId, p: Progress,
                     ghost log: seq<RunEvent>, ghost tail: seq<RunEvent>) returns (step: Step)
    requires recorder.Valid() && IsAgentSpec(spec) && InTurn(spec, log, id.turn, p) &&
             AllRetrieved(spec, p.retrieved) && WithinBudget(spec, p)
    requires |tail| == 2 && IsExecution(tail[0], tail[1], id, spec.terminalSubmitTool)
    requires recorder.events == log + [tail[0]] + [tail[1]]
    requires Safe(spec, recorder.events, p.calls) && NoEnd(recorder.events)
    modifies recorder
    ensures recorder.Valid() && AfterStep(spec, recorder.events, p.calls, step) && step.Finished?
    ensures Requests(recorder.events) == old(Requests(recorder.events))
    ensures FinishesWith(recorder.events, step.result, id.turn, p)
  {
    ghost var before := recorder.events;
    var validated := Note(recorder, OutputValidated, Submitted(id, spec.terminalSubmitTool));
    PlainEventKeepsSafe(spec, before, validated, p.calls);
    before := recorder.events;
    var closed := Note(recorder, RunCompleted, Agent(spec.modelId));
    PlainEventKeepsSafe(spec, before, closed, p.calls);
    SubmissionCompletes(spec, log, id.turn, [tail[0], tail[1], validated, closed], p);
    assert recorder.events[..|recorder.events| - 1] == before;
    step := Finished(AgentResult(p.inputTokens, p.outputTokens, Cost(spec, p.inputTokens, p.outputTokens),
                                 recorder.events));
  }

  /** The submission stands in this turn, and the totals are those of the turn. */
  ghost predicate FinishesWith(log: seq<RunEvent>, result: AgentResult, turn: nat, p: Progress) {
    SubmittedIn(log, turn) && result.inputTokens == p.inputTokens && result.outputTokens == p.outputTokens
  }

  method Submit(spec: AgentSpec, recorder: LifecycleRecorder, turn: nat, batch: seq<ValidatedToolCall>, world: World,
                p: Progress)
      returns (step: Step)
    requires recorder.Valid() && IsAgentSpec(spec) && InTurn(spec, recorder.events, turn, p)
    requires HasBatch(p.calls, turn, batch) && EndsInSubmission(spec, batch) && AllRetrieved(spec, p.retrieved) &&
             WithinBudget(spec, p)
    requires Steps(recorder.events, CallId(turn, |batch| - 1)) == ALLOWED_STEPS
    modifies recorder
    ensures recorder.Valid() && AfterStep(spec, recorder.events, p.calls, step)
    ensures Requests(recorder.events) == old(Requests(recorder.events))
    ensures var id := CallId(turn, |batch| - 1);
            if world.tools(id).Some? then step == Raised(world.tools(id).value)
            else if world.accepts(id) then step.Finished? else step == Raised(RuntimeError(TerminalSubmitInvalid))
    ensures step.Finished? ==> FinishesWith(recorder.events, step.result, turn, p)
  {
    ghost var log := recorder.events;
    var exception, tail := ExecuteTerminal(spec, recorder, turn, |batch| - 1, world, p);
    if exception.Some? {
      return Raised(exception.value);
    }
    step := CloseRun(spec, recorder, CallId(turn, |batch| - 1), world, p, log, tail);
  }

  // ---- The turn loop ----

  ghost predicate AtTurn(spec: AgentSpec, log: seq<RunEvent>, turn: nat, p: Progress) {
    Ready(spec, log, turn, turn, turn, p)
  }

  lemma PermittedReads(spec: AgentSpec, batch: seq<ValidatedToolCall>, completed: set<string>, n: nat)
    requires AllPermitted(spec, batch, completed)
    requires n == if EndsInSubmission(spec, batch) then |batch| - 1 else |batch|
    ensures MayRead(spec, batch, n) && (EndsInSubmission(spec, batch) ==> AllRetrieved(spec, completed))
  {
    forall j | 0 <= j < n ensures IsRead(spec, batch[j]) {
      assert Permitted(spec, batch, completed, j);
    }
    if EndsInSubmission(spec, batch) {
      assert Permitted(spec, batch, completed, |batch| - 1);
    }
  }

  /** The variables of the loop are those of a run in which everything went on. */
  ghost predicate Agrees(k: Setting, turn: nat, p: Progress) {
    p.calls == CallsBefore(k, turn) && p.retrieved == RetrievedBefore(k, turn) && Charged(k.world.model, p, turn)
  }

  /** What a turn leads to: it goes on, succeeds, or fails for a reason of its own. */
  ghost predicate TurnIsExplained(k: Setting, turn: nat, step: Step, cause: Cause) {
    match step
    case Continue => GoesOn(k, turn)
    case Finished(_) => Ends(k, turn)
    case Raised(e) => IsOfTurn(cause) && cause.turn == turn && SpoilsTurn(k, cause, turn, e)
  }

  /** The submission of the turn is made and accepted. */
  ghost predicate Ends(k: Setting, turn: nat) {
    MayExecute(k, turn) && ReadsSucceed(k, turn) && Submits(k, turn) &&
    k.world.tools(SubmissionOf(k, turn)) == None && k.world.accepts(SubmissionOf(k, turn))
  }

  /** One turn. The terminal call, when there is one, is the last of the batch, so that the read
      calls are those before it. */
  method Turn(k: Setting, recorder: LifecycleRecorder, turn: nat, p: Progress)
    returns (step: Step, q: Progress, ghost cause: Cause)
    requires recorder.Valid() && IsAgentSpec(k.spec) && IsRegistry(k.registry)
    requires turn < k.spec.budget.maxTurns && AtTurn(k.spec, recorder.events, turn, p)
    requires Agrees(k, turn, p) && FromModel(k.registry, p.calls, k.world.model)
    modifies recorder
    ensures recorder.Valid() && AfterStep(k.spec, recorder.events, q.calls, step)
    ensures FromModel(k.registry, q.calls, k.world.model)
    ensures Requests(recorder.events) == turn + if MayAsk(k, turn) then 1 else 0
    ensures step.Continue? ==> AtTurn(k.spec, recorder.events, turn + 1, q) && Agrees(k, turn + 1, q)
    ensures step.Finished? ==>
              SubmittedIn(recorder.events, turn) && TotalsOf(k.world.model, recorder.events, step.result)
    ensures TurnIsExplained(k, turn, step, cause)
  {
    var proposed;
    proposed, q, cause := AskModel(k, recorder, turn, p);
    if proposed.Err? {
      return Raised(proposed.error), q, cause;
    }
    step, q, cause := ActOnReply(k, recorder, turn, proposed.value, q);
  }

  /** The part of a turn that follows a usable reply. */
  method ActOnReply(k: Setting, recorder: LifecycleRecorder, turn: nat, proposed: seq<ModelToolCall>, p: Progress)
    returns (step: Step, q: Progress, ghost cause: Cause)
    requires recorder.Valid() && IsAgentSpec(k.spec) && IsRegistry(k.registry)
    requires MayAsk(k, turn) && RepliesWell(k, turn) && proposed == k.world.model(turn).value.toolCalls
    requires Ready(k.spec, recorder.events, turn, turn + 1, turn, p) && WithinBudget(k.spec, p)
    requires p.calls == CallsBefore(k, turn) && p.retrieved == RetrievedBefore(k, turn)
    requires Charged(k.world.model, p, turn + 1) && FromModel(k.registry, p.calls, k.world.model)
    modifies recorder
    ensures recorder.Valid() && AfterStep(k.spec, recorder.events, q.calls, step)
    ensures FromModel(k.registry, q.calls, k.world.model)
    ensures Requests(recorder.events) == turn + 1
    ensures step.Continue? ==> AtTurn(k.spec, recorder.events, turn + 1, q) && Agrees(k, turn + 1, q)
    ensures step.Finished? ==>
              SubmittedIn(recorder.events, turn) && TotalsOf(k.world.model, recorder.events, step.result)
    ensures TurnIsExplained(k, turn, step, cause)
  {
    var accepted;
    accepted, q := AcceptCalls(k.spec, k.registry, turn, proposed, recorder.events, p);
    AcceptanceMeaning(k, turn, accepted, p);
    if accepted.Err? {
      return Raised(RuntimeError(accepted.error)), q, if IsValid(k, turn) then Looping(turn) else NotValid(turn);
    }
    ExtendFromModel(k.registry, p.calls, turn, accepted.value, k.world.model);
    OneTurnMore(k, turn);
    step, q, cause := RunCalls(k, recorder, turn, accepted.value, q);
    if step.Finished? {
      TotalsAreCharged(k.world.model, recorder.events, step.result, turn, q);
    }
  }

  lemma AcceptanceMeaning(k: Setting, turn: nat, accepted: Result<seq<ValidatedToolCall>, FailureCode>, p: Progress)
    requires MayAsk(k, turn) && RepliesWell(k, turn) && p.calls == CallsBefore(k, turn) && p.seen == RemoteIds(p.calls)
    requires var proposed := k.world.model(turn).value.toolCalls;
             (accepted.Ok? <==>
                PassesValidation(k.registry, proposed, p.seen) &&
                PassesGuards(k.spec, turn, p.calls, Validated(k.registry, proposed))) &&
             (accepted.Ok? ==> accepted.value == Validated(k.registry, proposed)) &&
             (!PassesValidation(k.registry, proposed, p.seen) ==>
                accepted.Err? && IsFaultOf(k.registry, proposed, p.seen, accepted.error)) &&
             (PassesValidation(k.registry, proposed, p.seen) && accepted.Err? ==> accepted.error == ToolLoopGuard)
    ensures accepted.Ok? <==> IsValid(k, turn) && IsGuarded(k, turn)
    ensures accepted.Ok? ==>
              accepted.value == BatchOf(k, turn) && |BatchOf(k, turn)| == |k.world.model(turn).value.toolCalls|
    ensures accepted.Err? ==>
              SpoilsBatch(k, if IsValid(k, turn) then Looping(turn) else NotValid(turn), turn,
                          RuntimeError(accepted.error))
  {
    var proposed := k.world.model(turn).value.toolCalls;
    if PassesValidation(k.registry, proposed, p.seen) {
      assert AreGood(k.registry, proposed);
      assert BatchOf(k, turn) == Validated(k.registry, proposed);
    }
  }

  /** The totals of a result are those of the replies up to the turn of the submission. */
  ghost predicate TotalsOf(model: ModelClient, log: seq<RunEvent>, result: AgentResult) {
    |log| >= 4 && IsCall(log[|log| - 4]) &&
    result.inputTokens == InputOf(model, IdOf(log[|log| - 4]).turn + 1) &&
    result.outputTokens == OutputOf(model, IdOf(log[|log| - 4]).turn + 1)
  }

  lemma TotalsAreCharged(model: ModelClient, log: seq<RunEvent>, result: AgentResult, turn: nat, p: Progress)
    requires SubmittedIn(log, turn) && Charged(model, p, turn + 1)
    requires result.inputTokens == p.inputTokens && result.outputTokens == p.outputTokens
    ensures TotalsOf(model, log, result)
  {
  }

  ghost predicate SubmittedIn(log: seq<RunEvent>, turn: nat) {
    |log| >= 4 && IsCall(log[|log| - 4]) && IdOf(log[|log| - 4]).turn == turn
  }

  /** The calls of a turn, from their proposal to their end. A batch that is not permitted as a
      whole executes nothing. */
  method RunCalls(k: Setting, recorder: LifecycleRecorder, turn: nat, batch: seq<ValidatedToolCall>, p: Progress)
    returns (step: Step, q: Progress, ghost cause: Cause)
    requires recorder.Valid() && IsAgentSpec(k.spec) && InTurn(k.spec, recorder.events, turn, p)
    requires WithinBudget(k.spec, p) && batch == BatchOf(k, turn) && p.retrieved == RetrievedBefore(k, turn)
    requires MayAsk(k, turn) && RepliesWell(k, turn) && IsValid(k, turn) && IsGuarded(k, turn)
    requires HasBatch(p.calls, turn, batch) && AllAt(recorder.events, turn, 0, |batch|, [])
    modifies recorder
    ensures recorder.Valid() && AfterStep(k.spec, recorder.events, q.calls, step)
    ensures q == p.(retrieved := q.retrieved) && Requests(recorder.events) == turn + 1
    ensures step.Continue? ==>
              AtTurn(k.spec, recorder.events, turn + 1, q) &&
              q.retrieved == p.retrieved + RequiredAmong(k.spec, batch, |batch|)
    ensures step.Finished? ==> FinishesWith(recorder.events, step.result, turn, p)
    ensures !AllPermitted(k.spec, batch, p.retrieved) ==>
              step.Raised? && Executions(recorder.events) == old(Executions(recorder.events))
    ensures TurnIsExplained(k, turn, step, cause)
  {
    ProposeCalls(k.spec, recorder, turn, batch, p);
    // A run that has submitted never comes back here.
    var terminal := Authorize(k.spec, batch, p.retrieved, false);
    AuthorizeIsExact(k.spec, batch, p.retrieved, false);
    if terminal.Err? {
      RefusalIsExact(k.spec, batch, p.retrieved, false);
      RefusalIsExplained(k, turn, terminal.error);
      return Raised(RuntimeError(terminal.error)), p, NotAuthorized(turn);
    }
    step, q, cause := ExecuteBatch(k, recorder, turn, batch, terminal.value, p);
  }

  lemma RefusalIsExplained(k: Setting, turn: nat, code: FailureCode)
    requires MayAsk(k, turn) && RepliesWell(k, turn) && IsValid(k, turn) && IsGuarded(k, turn) && !IsAuthorized(k, turn)
    requires IsRefusalOf(k.spec, BatchOf(k, turn), RetrievedBefore(k, turn), code)
    ensures TurnIsExplained(k, turn, Raised(RuntimeError(code)), NotAuthorized(turn))
  {
    assert SpoilsBatch(k, NotAuthorized(turn), turn, RuntimeError(code));
  }

  /** A permitted batch: its reads in parallel, then its submission, if there is one. */
  method ExecuteBatch(k: Setting, recorder: LifecycleRecorder, turn: nat, batch: seq<ValidatedToolCall>,
                      terminal: Option<nat>, p: Progress)
    returns (step: Step, q: Progress, ghost cause: Cause)
    requires recorder.Valid() && IsAgentSpec(k.spec) && InTurn(k.spec, recorder.events, turn, p)
    requires WithinBudget(k.spec, p) && batch == BatchOf(k, turn) && p.retrieved == RetrievedBefore(k, turn)
    requires MayExecute(k, turn) && terminal == LastSubmission(k.spec, batch)
    requires HasBatch(p.calls, turn, batch)
    requires AllAt(recorder.events, turn, 0, |batch|, [ToolProposed, ToolValidated])
    modifies recorder
    ensures recorder.Valid() && AfterStep(k.spec, recorder.events, q.calls, step)
    ensures q == p.(retrieved := q.retrieved) && Requests(recorder.events) == turn + 1
    ensures step.Continue? ==>
              AtTurn(k.spec, recorder.events, turn + 1, q) &&
              q.retrieved == p.retrieved + RequiredAmong(k.spec, batch, |batch|)
    ensures step.Finished? ==> FinishesWith(recorder.events, step.result, turn, p)
    ensures TurnIsExplained(k, turn, step, cause)
  {
    AllowCalls(k.spec, recorder, turn, batch, p);
    var n := if terminal.Some? then terminal.value else |batch|;
    PermittedReads(k.spec, batch, p.retrieved, n);
    ghost var wasInterrupted;
    var failure;
    failure, wasInterrupted := ExecuteReadCalls(k.spec, recorder, turn, batch, n, k.world, p);
    if failure.Some? {
      cause := CauseOfFailure(k, turn, failure.value, wasInterrupted);
      return Raised(failure.value), p, cause;
    }
    step, q, cause := ConcludeBatch(k, recorder, turn, batch, n, terminal, p);
  }

  /** After the reads: their retrievals count from now on, and the submission is made, if there is one. */
  method ConcludeBatch(k: Setting, recorder: LifecycleRecorder, turn: nat, batch: seq<ValidatedToolCall>, n: nat,
                       terminal: Option<nat>, p: Progress)
    returns (step: Step, q: Progress, ghost cause: Cause)
    requires recorder.Valid() && IsAgentSpec(k.spec) && InTurn(k.spec, recorder.events, turn, p)
    requires WithinBudget(k.spec, p) && batch == BatchOf(k, turn) && HasBatch(p.calls, turn, batch)
    requires MayExecute(k, turn) && ReadsSucceed(k, turn) && terminal == LastSubmission(k.spec, batch)
    requires n == Reads(k, turn) && (Submits(k, turn) ==> AllRetrieved(k.spec, p.retrieved))
    requires AllAt(recorder.events, turn, 0, n, ALLOWED_STEPS + [ToolStarted, ToolCompleted])
    requires AllAt(recorder.events, turn, n, |batch|, ALLOWED_STEPS)
    modifies recorder
    ensures recorder.Valid() && AfterStep(k.spec, recorder.events, q.calls, step)
    ensures q == p.(retrieved := q.retrieved) && Requests(recorder.events) == turn + 1
    ensures step.Continue? ==>
              AtTurn(k.spec, recorder.events, turn + 1, q) &&
              q.retrieved == p.retrieved + RequiredAmong(k.spec, batch, |batch|)
    ensures step.Finished? ==> FinishesWith(recorder.events, step.result, turn, p)
    ensures TurnIsExplained(k, turn, step, cause)
  {
    var retrieved := CollectRetrieved(k.spec, turn, batch, n, p.retrieved);
    q := p.(retrieved := retrieved);
    if terminal.Some? {
      step := Submit(k.spec, recorder, turn, batch, k.world, p);
      cause := SubmissionIsExplained(k, turn, step);
    } else {
      CollectedIsReady(k.spec, recorder.events, turn, batch, n, p);
      step, cause := Continue, Interrupted(turn);
    }
  }

  lemma SubmissionIsExplained(k: Setting, turn: nat, step: Step) returns (cause: Cause)
    requires MayExecute(k, turn) && ReadsSucceed(k, turn) && Submits(k, turn)
    requires var id := SubmissionOf(k, turn);
             if k.world.tools(id).Some? then step == Raised(k.world.tools(id).value)
             else if k.world.accepts(id) then step.Finished? else step == Raised(RuntimeError(TerminalSubmitInvalid))
    ensures TurnIsExplained(k, turn, step, cause)
  {
    cause := if k.world.tools(SubmissionOf(k, turn)).Some? then SubmissionFailed(turn) else OutputRefused(turn);
    if step.Raised? {
      assert SpoilsExecution(k, cause, turn, step.e);
    }
  }

  lemma CauseOfFailure(k: Setting, turn: nat, e: Exception, wasInterrupted: bool) returns (cause: Cause)
    requires MayExecute(k, turn)
    requires ReadsEndAs(k.world, turn, Reads(k, turn), Some(e), wasInterrupted)
    ensures TurnIsExplained(k, turn, Raised(e), cause)
  {
    if wasInterrupted {
      cause := Interrupted(turn);
    } else {
      var j: nat :| j < Reads(k, turn) && k.world.tools(CallId(turn, j)) == Some(e);
      cause := ReadFailed(turn, j);
    }
    assert SpoilsExecution(k, cause, turn, e);
  }

  /** The checks before the first event. */
  method CheckStart(k: Setting) returns (refused: Option<FailureCode>, ghost cause: Cause)
    requires IsRegistry(k.registry)
    ensures refused.None? <==> MayBegin(k)
    ensures refused.Some? ==> IsBeforeTurns(cause) && PreventsRun(k, cause, RuntimeError(refused.value))
  {
    cause := WrongPolicy;
    if k.context.policyVersion != k.spec.policyVersion {
      return Some(PolicyVersionMismatch), cause;
    }
    var now := k.world.clock(0);
    if k.context.deadline - now <= 0 {
      return Some(DeadlineExceeded), BegunLate;
    }
    if k.spec.terminalSubmitTool !in k.registry.specs {
      return Some(UnknownTool), NoSubmitTool;
    }
    if k.registry.specs[k.spec.terminalSubmitTool].sideEffect != TerminalSubmit {
      return Some(TerminalSubmitInvalid), SubmitToolReads;
    }
    return None, cause;
  }

  /** The outcome of the turns, and of the whole run before it is closed: a result exactly when the
      submission of the turn it stands in succeeds, and an exception for the reason given. */
  ghost predicate IsExplained(k: Setting, log: seq<RunEvent>, step: Step, cause: Cause) {
    match step
    case Continue => false
    case Finished(_) => |log| >= 4 && IsCall(log[|log| - 4]) && Succeeds(k, IdOf(log[|log| - 4]).turn)
    case Raised(e) => Explains(k, cause, e) && Requests(log) == AskedBy(k, cause)
  }

  /** How often the model was asked before the run failed. */
  ghost function AskedBy(k: Setting, cause: Cause): nat {
    if IsBeforeTurns(cause) then 0
    else if cause.NothingSubmitted? then k.spec.budget.maxTurns
    else if MayAsk(k, cause.turn) then cause.turn + 1
    else cause.turn
  }

  lemma TurnEndsRun(k: Setting, log: seq<RunEvent>, turn: nat, step: Step, cause: Cause)
    requires turn < k.spec.budget.maxTurns && Reaches(k, turn) && TurnIsExplained(k, turn, step, cause)
    requires !step.Continue? && (step.Finished? ==> SubmittedIn(log, turn))
    requires Requests(log) == turn + if MayAsk(k, turn) then 1 else 0
    ensures IsExplained(k, log, step, cause) && (step.Raised? ==> IsOfTurn(cause))
  {
  }

  lemma OneTurnFurther(k: Setting, turn: nat)
    requires turn < k.spec.budget.maxTurns && Reaches(k, turn) && GoesOn(k, turn)
    ensures Reaches(k, turn + 1)
  {
  }

  /** The loop over the turns, up to the result or the first exception. */
  method TakeTurns(k: Setting, recorder: LifecycleRecorder)
    returns (step: Step, calls: Calls, ghost cause: Cause)
    requires recorder.Valid() && IsAgentSpec(k.spec) && IsRegistry(k.registry)
    requires AtTurn(k.spec, recorder.events, 0, INITIAL) && MayBegin(k)
    modifies recorder
    ensures recorder.Valid() && AfterStep(k.spec, recorder.events, calls, step)
    ensures FromModel(k.registry, calls, k.world.model)
    ensures step.Finished? ==> TotalsOf(k.world.model, recorder.events, step.result)
    ensures IsExplained(k, recorder.events, step, cause)
    ensures step.Raised? && cause.NothingSubmitted? ==> ToldByLog(k.spec, recorder.events, step.e)
    ensures step.Raised? ==> !IsBeforeTurns(cause)
  {
    var p := INITIAL;
    NoCallsYet(k);
    for turn := 0 to k.spec.budget.maxTurns
      invariant recorder.Valid() && AtTurn(k.spec, recorder.events, turn, p)
      invariant Agrees(k, turn, p) && FromModel(k.registry, p.calls, k.world.model) && Reaches(k, turn)
    {
      step, p, cause := Turn(k, recorder, turn, p);
      if !step.Continue? {
        TurnEndsRun(k, recorder.events, turn, step, cause);
        return step, p.calls, cause;
      }
      OneTurnFurther(k, turn);
    }
    calls, cause := p.calls, NothingSubmitted;
    if exists name :: name in k.spec.requiredRetrievalTools && name !in p.retrieved {
      step := Raised(RuntimeError(RequiredRetrievalMissing));
    } else {
      step := Raised(RuntimeError(TerminalSubmitMissing));
    }
    EndOfTurns(k, recorder.events, p, step.e);
  }

  /** After all turns the log tells which of the two is missing. */
  ghost predicate ToldByLog(spec: AgentSpec, log: seq<RunEvent>, e: Exception) {
    e == RuntimeError(
      if exists name :: name in spec.requiredRetrievalTools && !CompletedBefore(log, name, spec.budget.maxTurns)
      then RequiredRetrievalMissing else TerminalSubmitMissing)
  }

  lemma EndOfTurns(k: Setting, log: seq<RunEvent>, p: Progress, e: Exception)
    requires AtTurn(k.spec, log, k.spec.budget.maxTurns, p) && Agrees(k, k.spec.budget.maxTurns, p)
    requires Reaches(k, k.spec.budget.maxTurns)
    requires e == RuntimeError(if exists name :: name in k.spec.requiredRetrievalTools && name !in p.retrieved
                               then RequiredRetrievalMissing else TerminalSubmitMissing)
    ensures IsExplained(k, log, Raised(e), NothingSubmitted) && ToldByLog(k.spec, log, e)
  {
    MissingRetrievals(k, log, p);
  }

  lemma MissingRetrievals(k: Setting, log: seq<RunEvent>, p: Progress)
    requires AtTurn(k.spec, log, k.spec.budget.maxTurns, p) && Agrees(k, k.spec.budget.maxTurns, p)
    ensures forall name :: name in k.spec.requiredRetrievalTools ==>
              (name in p.retrieved <==> IsRetrieved(k, name, k.spec.budget.maxTurns)) &&
              (name in p.retrieved <==> CompletedBefore(log, name, k.spec.budget.maxTurns))
  {
  }

  /** The checks, the opening event and the turns. */
  method RunTurns(k: Setting, recorder: LifecycleRecorder)
    returns (step: Step, calls: Calls, ghost cause: Cause)
    requires recorder.Valid() && recorder.events == [] && IsAgentSpec(k.spec) && IsRegistry(k.registry)
    modifies recorder
    ensures recorder.Valid() && AfterStep(k.spec, recorder.events, calls, step)
    ensures FromModel(k.registry, calls, k.world.model)
    ensures step.Finished? ==> TotalsOf(k.world.model, recorder.events, step.result)
    ensures IsExplained(k, recorder.events, step, cause)
    ensures step.Raised? && cause.NothingSubmitted? ==> ToldByLog(k.spec, recorder.events, step.e)
    ensures step.Raised? && IsBeforeTurns(cause) ==> recorder.events == []
  {
    calls := map[];
    NothingYet(k.spec);
    var refused;
    refused, cause := CheckStart(k);
    if refused.Some? {
      return Raised(RuntimeError(refused.value)), calls, cause;
    }
    var e := Note(recorder, AgentStarted, Agent(k.spec.modelId));
    FirstEvent(k.spec, e);
    assert [] + [e] == [e];
    step, calls, cause := TakeTurns(k, recorder);
  }

  lemma NothingYet(spec: AgentSpec)
    ensures Safe(spec, [], INITIAL.calls) && NoEnd([])
  {
    assert forall signature :: WithSignature(INITIAL.calls, signature) == {};
  }

  lemma FirstEvent(spec: AgentSpec, e: RunEvent)
    requires IsAgentSpec(spec) && Kind(e).AgentStarted? && e.document.payload.Agent?
    ensures AtTurn(spec, [e], 0, INITIAL)
  {
    NothingYet(spec);
    AppendKeepsSafe(spec, [], e, INITIAL.calls);
    Appended([], e);
    assert [] + [e] == [e];
    assert forall signature :: WithSignature(INITIAL.calls, signature) == {};
    assert RemoteIds(INITIAL.calls) == {};
  }

  // ---- The run ----

  datatype Outcome = Returned(result: AgentResult) | FailedWith(code: FailureCode) | WasCancelled

  /** How the log of a run ends: once, in the way the caller sees. */
  ghost predicate EndsAs(log: seq<RunEvent>, outcome: Outcome) {
    var n := |log|;
    match outcome
    case Returned(_) =>
      n >= 1 && Kind(log[n - 1]).RunCompleted? && NoEnd(log[..n - 1])
    case FailedWith(code) =>
      n >= 2 && Kind(log[n - 2]).OutputRejected? && Kind(log[n - 1]).RunFailed? &&
      log[n - 2].document.payload == log[n - 1].document.payload == Failure(code) && NoEnd(log[..n - 2])
    case WasCancelled => NoEnd(log)
  }

  /** Records the two events of a failed run. */
  method Reject(spec: AgentSpec, recorder: LifecycleRecorder, code: FailureCode, ghost calls: Calls)
    requires recorder.Valid() && IsAgentSpec(spec) && Safe(spec, recorder.events, calls) && NoEnd(recorder.events)
    modifies recorder
    ensures recorder.Valid() && Safe(spec, recorder.events, calls) && EndsAs(recorder.events, FailedWith(code))
    ensures |recorder.events| == |old(recorder.events)| + 2
    ensures recorder.events[..|recorder.events| - 2] == old(recorder.events)
  {
    ghost var log := recorder.events;
    var rejected := Note(recorder, OutputRejected, Failure(code));
    PlainEventKeepsSafe(spec, log, rejected, calls);
    ghost var log1 := recorder.events;
    var failed := Note(recorder, RunFailed, Failure(code));
    PlainEventKeepsSafe(spec, log1, failed, calls);
    assert recorder.events[..|recorder.events| - 2] == log;
  }

  /** The code a run that ends with this exception reports. */
  function CodeOf(e: Exception): FailureCode {
    if e.RuntimeError? then e.code else UnexpectedRuntimeFailure
  }

  ghost predicate FailureIsExplained(k: Setting, log: seq<RunEvent>, code: FailureCode, cause: Cause, e: Exception) {
    !e.Cancelled? && code == CodeOf(e) && IsExplained(k, log, Raised(e), cause) &&
    (cause.NothingSubmitted? ==> ToldByLog(k.spec, log, e))
  }

  /** Why the run ended as it did, from what it met. `log` is the log without the closing events of a
      failed run. */
  ghost predicate OutcomeIsExplained(k: Setting, log: seq<RunEvent>, outcome: Outcome, cause: Cause) {
    match outcome
    case Returned(result) => IsExplained(k, log, Finished(result), cause)
    case FailedWith(code) => !cause.Interrupted? && exists e: Exception :: FailureIsExplained(k, log, code, cause, e)
    case WasCancelled => IsExplained(k, log, Raised(Cancelled), cause)
  }

  /** The log without the two closing events of a failed run. */
  function Open(log: seq<RunEvent>, outcome: Outcome): seq<RunEvent> {
    if outcome.FailedWith? && |log| >= 2 then log[..|log| - 2] else log
  }

  /** Main result: whatever the model replies and whatever the tools, the scheduler and the clock do, the
      log of a run is an unbroken chain, takes every tool call through its stages in order, executes
      declared tools only and nothing after the submission, stays within the budgets, and ends once; a
      result is returned exactly for a complete run; and a failure has the one reason that what the run
      met gives it. */
  method Run(k: Setting, digest: Document -> Hash)
    returns (outcome: Outcome, log: seq<RunEvent>, calls: Calls, ghost cause: Cause)
    requires IsAgentSpec(k.spec) && IsRegistry(k.registry)
    ensures IsChain(log, k.context.runId, digest) && EndsAs(log, outcome)
    ensures BeginsRun(log) && TurnsInOrder(log) && InOrder(log) && Named(log, calls)
    ensures OnlyDeclared(k.spec, log) && SubmissionIsLast(k.spec, log) && StartsGranted(k.spec, log, calls)
    ensures Distinct(Executions(log)) && |Executions(log)| <= k.spec.budget.maxToolCalls
    ensures forall signature :: |ExecutedWith(log, calls, signature)| <= k.spec.budget.maxRepeatedToolCalls
    ensures forall a, b :: a in calls && b in calls && a != b ==> calls[a].call.id != calls[b].call.id
    ensures FromModel(k.registry, calls, k.world.model)
    ensures Requests(log) <= k.spec.budget.maxTurns
    ensures outcome.Returned? ==>
              IsComplete(k.spec, log, outcome.result) && TotalsOf(k.world.model, log, outcome.result)
    ensures OutcomeIsExplained(k, Open(log, outcome), outcome, cause)
  {
    var recorder := new LifecycleRecorder(k.context.runId, digest);
    var step;
    step, calls, cause := RunTurns(k, recorder);
    ghost var before := recorder.events;
    match step {
      case Finished(result) =>
        outcome := Returned(result);
      case Raised(e) =>
        if e.Cancelled? {
          outcome := WasCancelled;
        } else {
          NotInterrupted(k, cause, e);
          var code := if e.RuntimeError? then e.code else UnexpectedRuntimeFailure;
          Reject(k.spec, recorder, code, calls);
          outcome := FailedWith(code);
          assert FailureIsExplained(k, before, code, cause, e);
        }
    }
    log := recorder.events;
    ExecutionsAreBounded(k.spec, log, calls);
  }

  lemma NotInterrupted(k: Setting, cause: Cause, e: Exception)
    requires Explains(k, cause, e) && !e.Cancelled?
    ensures !cause.Interrupted?
  {
  }

  /** A run whose replies, calls, tools and clock are in order up to an accepted submission returns its
      result, unless it is cancelled from outside. */
  lemma GoodRunsReturn(k: Setting, turn: nat, log: seq<RunEvent>, outcome: Outcome, cause: Cause)
    requires Succeeds(k, turn) && OutcomeIsExplained(k, log, outcome, cause)
    ensures outcome.Returned? || (outcome.WasCancelled? && cause.Interrupted?)
  {
    match outcome {
      case Returned(_) =>
      case FailedWith(code) =>
        var e: Exception :| FailureIsExplained(k, log, code, cause, e);
        GoodRunsDoNotFail(k, turn, cause, e);
      case WasCancelled =>
        GoodRunsDoNotFail(k, turn, cause, Cancelled);
    }
  }
}
