// The course of a run as the specification, the registry, the replies of the model, the outcomes of
// the tools and the clock determine it: how far it gets, and the one reason it ends for. Only the
// schedule of parallel tools and a cancellation from outside are not among these.

module AgentCourse {
  import opened AgentContracts
  import opened AgentLog
  import opened AgentTools
  import opened Common
  import opened EventLog
  import opened Outcomes

  datatype Exception = RuntimeError(code: FailureCode) | OtherError | Cancelled

  datatype ModelResponse = ModelResponse(modelId: string, toolCalls: seq<ModelToolCall>, inputTokens: nat,
                                         outputTokens: nat, hasText: bool)

  /** The model as one run meets it: what the request of each turn is answered with. It may depend on
      anything, since nothing is asked twice in one turn. */
  type ModelClient = nat -> Result<ModelResponse, Exception>

  datatype Context = Context(runId: nat, policyVersion: string, deadline: int)

  /** What a run meets: the replies; the exception each executed call ends with, if any; the clock at the
      start and at each turn; and whether the output of a submission passes its validator. */
  datatype World = World(
    model: ModelClient, tools: CallId -> Option<Exception>, clock: nat -> int, accepts: CallId -> bool)

  datatype Setting = Setting(spec: AgentSpec, registry: Registry, context: Context, world: World)

  // ---- Accepted calls ----

  function Extend(calls: Calls, turn: nat, batch: seq<ValidatedToolCall>): Calls {
    if batch == [] then calls
    else
      var n := |batch| - 1;
      Extend(calls, turn, batch[..n])[CallId(turn, n) := batch[n]]
  }

  lemma {:induction false} ExtendMeaning(calls: Calls, turn: nat, batch: seq<ValidatedToolCall>)
    requires forall id :: id in calls ==> id.turn < turn
    ensures forall id :: id in Extend(calls, turn, batch) <==> id in calls || (id.turn == turn && id.index < |batch|)
    ensures forall id :: id in calls ==> Extend(calls, turn, batch)[id] == calls[id]
    ensures forall j: nat :: j < |batch| ==> Extend(calls, turn, batch)[CallId(turn, j)] == batch[j]
    ensures |Extend(calls, turn, batch)| == |calls| + |batch|
  {
    if batch == [] {
    } else {
      ExtendMeaning(calls, turn, batch[..|batch| - 1]);
    }
  }

  function ValidatedOne(registry: Registry, call: ModelToolCall): (v: ValidatedToolCall)
    requires CallFault(registry, call).None?
    ensures IsValidated(registry, call, v)
  {
    ValidatedToolCall(call, registry.specs[call.name], registry.parse(call.name, call.argumentsJson).value)
  }

  predicate AreGood(registry: Registry, proposed: seq<ModelToolCall>) {
    forall i :: 0 <= i < |proposed| ==> CallFault(registry, proposed[i]).None?
  }

  /** The validated form of calls that all pass. */
  function Validated(registry: Registry, proposed: seq<ModelToolCall>): (batch: seq<ValidatedToolCall>)
    requires forall i :: 0 <= i < |proposed| ==> CallFault(registry, proposed[i]).None?
    ensures |batch| == |proposed| && forall i :: 0 <= i < |proposed| ==> IsValidated(registry, proposed[i], batch[i])
  {
    seq(|proposed|, i requires 0 <= i < |proposed| && CallFault(registry, proposed[i]).None? =>
      ValidatedOne(registry, proposed[i]))
  }

  predicate PassesValidation(registry: Registry, proposed: seq<ModelToolCall>, seen: set<string>) {
    proposed != [] && Distinct(CallIds(proposed)) && Members(CallIds(proposed)) !! seen &&
    forall i :: 0 <= i < |proposed| ==> CallFault(registry, proposed[i]).None?
  }

  ghost predicate PassesGuards(spec: AgentSpec, turn: nat, calls: Calls, batch: seq<ValidatedToolCall>) {
    |Extend(calls, turn, batch)| <= spec.budget.maxToolCalls && FewRepeats(spec, Extend(calls, turn, batch))
  }

  /** Every accepted call is the validated form of the call the model proposed at its place. */
  ghost predicate FromModel(registry: Registry, calls: Calls, model: ModelClient) {
    forall id :: id in calls ==> IsProposal(registry, id, calls[id], model)
  }

  predicate IsProposal(registry: Registry, id: CallId, v: ValidatedToolCall, model: ModelClient) {
    model(id.turn).Ok? && id.index < |model(id.turn).value.toolCalls| &&
    IsValidated(registry, model(id.turn).value.toolCalls[id.index], v)
  }

  lemma ExtendFromModel(registry: Registry, calls: Calls, turn: nat, batch: seq<ValidatedToolCall>, model: ModelClient)
    requires FromModel(registry, calls, model) && forall id :: id in calls ==> id.turn < turn
    requires model(turn).Ok? && |batch| == |model(turn).value.toolCalls|
    requires forall j :: 0 <= j < |batch| ==> IsValidated(registry, model(turn).value.toolCalls[j], batch[j])
    ensures FromModel(registry, Extend(calls, turn, batch), model)
  {
    ExtendMeaning(calls, turn, batch);
    var extended := Extend(calls, turn, batch);
    forall id | id in extended ensures IsProposal(registry, id, extended[id], model) {
      if id !in calls {
        assert id == CallId(turn, id.index);
      }
    }
  }

  function RequiredAmong(spec: AgentSpec, batch: seq<ValidatedToolCall>, n: nat): set<string>
    requires n <= |batch|
  {
    set i | 0 <= i < n && batch[i].spec.name in spec.requiredRetrievalTools :: batch[i].spec.name
  }

  // ---- What has been accepted and retrieved when everything went on ----

  /** The tokens of the first `n` replies. */
  function InputOf(model: ModelClient, n: nat): nat {
    if n == 0 then 0 else InputOf(model, n - 1) + if model(n - 1).Ok? then model(n - 1).value.inputTokens else 0
  }

  function OutputOf(model: ModelClient, n: nat): nat {
    if n == 0 then 0 else OutputOf(model, n - 1) + if model(n - 1).Ok? then model(n - 1).value.outputTokens else 0
  }

  /** The validated calls of the reply of `turn`. */
  function BatchOf(k: Setting, turn: nat): (batch: seq<ValidatedToolCall>) {
    var reply := k.world.model(turn);
    if reply.Ok? && AreGood(k.registry, reply.value.toolCalls) then Validated(k.registry, reply.value.toolCalls) else []
  }

  function CallsBefore(k: Setting, turn: nat): Calls {
    if turn == 0 then map[] else Extend(CallsBefore(k, turn - 1), turn - 1, BatchOf(k, turn - 1))
  }

  ghost predicate IsRetrieved(k: Setting, name: string, turn: nat) {
    exists s: nat, j: nat :: s < turn && j < |BatchOf(k, s)| && BatchOf(k, s)[j].spec.name == name
  }

  ghost function RetrievedBefore(k: Setting, turn: nat): set<string> {
    set name | name in k.spec.requiredRetrievalTools && IsRetrieved(k, name, turn)
  }

  // ---- The conditions a turn has to meet, in the order in which they are looked at ----

  predicate InTime(k: Setting, reading: nat) { k.world.clock(reading) < k.context.deadline }

  predicate MayBegin(k: Setting) {
    k.context.policyVersion == k.spec.policyVersion && InTime(k, 0) &&
    k.spec.terminalSubmitTool in k.registry.specs &&
    k.registry.specs[k.spec.terminalSubmitTool].sideEffect.TerminalSubmit?
  }

  predicate ToolsAreThere(k: Setting) {
    k.spec.terminalSubmitTool in k.registry.specs &&
    forall name :: name in k.spec.allowedReadTools ==> name in k.registry.specs
  }

  predicate TokensAreLeft(k: Setting, turn: nat) {
    OutputOf(k.world.model, turn) < k.spec.budget.maxOutputTokens
  }

  predicate MayAsk(k: Setting, turn: nat) {
    TokensAreLeft(k, turn) && InTime(k, turn + 1) && ToolsAreThere(k)
  }

  predicate RightModelReplies(k: Setting, turn: nat) {
    k.world.model(turn).Ok? && k.world.model(turn).value.modelId == k.spec.modelId
  }

  /** The tokens of all replies up to and including that of `turn`, and their cost, are within budget. */
  predicate TotalsAreWithin(k: Setting, turn: nat) {
    var input, output, budget := InputOf(k.world.model, turn + 1), OutputOf(k.world.model, turn + 1), k.spec.budget;
    input <= budget.maxInputTokens && output <= budget.maxOutputTokens &&
    input as real * budget.inputTokenCost + output as real * budget.outputTokenCost <= budget.maxCost
  }

  predicate RepliesWell(k: Setting, turn: nat) {
    RightModelReplies(k, turn) && TotalsAreWithin(k, turn) && k.world.model(turn).value.toolCalls != []
  }

  ghost predicate IsValid(k: Setting, turn: nat)
    requires RightModelReplies(k, turn)
  {
    PassesValidation(k.registry, k.world.model(turn).value.toolCalls, RemoteIds(CallsBefore(k, turn)))
  }

  ghost predicate IsGuarded(k: Setting, turn: nat) {
    PassesGuards(k.spec, turn, CallsBefore(k, turn), BatchOf(k, turn))
  }

  ghost predicate IsAuthorized(k: Setting, turn: nat) {
    AllPermitted(k.spec, BatchOf(k, turn), RetrievedBefore(k, turn))
  }

  predicate Submits(k: Setting, turn: nat) { EndsInSubmission(k.spec, BatchOf(k, turn)) }

  /** The number of reads of a turn: all calls but a submission at the end. */
  function Reads(k: Setting, turn: nat): (n: nat)
    ensures n <= |BatchOf(k, turn)|
  {
    if Submits(k, turn) then |BatchOf(k, turn)| - 1 else |BatchOf(k, turn)|
  }

  ghost predicate ReadsSucceed(k: Setting, turn: nat) {
    forall j: nat :: j < Reads(k, turn) ==> k.world.tools(CallId(turn, j)) == None
  }

  /** Everything up to the tools is in order. */
  ghost predicate MayExecute(k: Setting, turn: nat) {
    MayAsk(k, turn) && RepliesWell(k, turn) && IsValid(k, turn) && IsGuarded(k, turn) && IsAuthorized(k, turn)
  }

  ghost predicate GoesOn(k: Setting, turn: nat) {
    MayExecute(k, turn) && ReadsSucceed(k, turn) && !Submits(k, turn)
  }

  /** The run gets to the beginning of `turn`. */
  ghost predicate Reaches(k: Setting, turn: nat) {
    MayBegin(k) && turn <= k.spec.budget.maxTurns && forall s: nat :: s < turn ==> GoesOn(k, s)
  }

  /** The call of the submission. */
  function SubmissionOf(k: Setting, turn: nat): CallId
    requires Submits(k, turn)
  {
    CallId(turn, |BatchOf(k, turn)| - 1)
  }

  /** The run ends with the submission of `turn`, whose output is accepted. */
  ghost predicate Succeeds(k: Setting, turn: nat) {
    turn < k.spec.budget.maxTurns && Reaches(k, turn) &&
    MayExecute(k, turn) && ReadsSucceed(k, turn) && Submits(k, turn) &&
    k.world.tools(SubmissionOf(k, turn)) == None && k.world.accepts(SubmissionOf(k, turn))
  }

  // ---- The reasons a run fails for ----

  datatype Cause =
    | WrongPolicy | BegunLate | NoSubmitTool | SubmitToolReads
    | TokensUsedUp(turn: nat) | AskedLate(turn: nat) | ToolMissing(turn: nat)
    | NoReply(turn: nat) | WrongModel(turn: nat) | OverBudget(turn: nat) | TextOnly(turn: nat) | NoCalls(turn: nat)
    | NotValid(turn: nat) | Looping(turn: nat) | NotAuthorized(turn: nat)
    | ReadFailed(turn: nat, index: nat) | Interrupted(turn: nat)
    | SubmissionFailed(turn: nat) | OutputRefused(turn: nat)
    | NothingSubmitted

  predicate IsBeforeTurns(cause: Cause) {
    cause.WrongPolicy? || cause.BegunLate? || cause.NoSubmitTool? || cause.SubmitToolReads?
  }

  predicate IsOfTurn(cause: Cause) { !IsBeforeTurns(cause) && !cause.NothingSubmitted? }

  /** Why a reply that has been asked for cannot be acted on. */
  ghost predicate SpoilsReply(k: Setting, cause: Cause, turn: nat, e: Exception) {
    MayAsk(k, turn) &&
    match cause
    case NoReply(_) => k.world.model(turn) == Err(e)
    case WrongModel(_) =>
      k.world.model(turn).Ok? && k.world.model(turn).value.modelId != k.spec.modelId && e == RuntimeError(ModelMismatch)
    case OverBudget(_) => RightModelReplies(k, turn) && !TotalsAreWithin(k, turn) && e == RuntimeError(BudgetExceeded)
    case TextOnly(_) =>
      RightModelReplies(k, turn) && TotalsAreWithin(k, turn) && k.world.model(turn).value.toolCalls == [] &&
      k.world.model(turn).value.hasText && e == RuntimeError(TextCompletionRejected)
    case NoCalls(_) =>
      RightModelReplies(k, turn) && TotalsAreWithin(k, turn) && k.world.model(turn).value.toolCalls == [] &&
      !k.world.model(turn).value.hasText && e == RuntimeError(MalformedProviderResponse)
    case _ => false
  }

  /** Why the model is not asked. */
  ghost predicate PreventsAsking(k: Setting, cause: Cause, turn: nat, e: Exception) {
    match cause
    case TokensUsedUp(_) => !TokensAreLeft(k, turn) && e == RuntimeError(BudgetExceeded)
    case AskedLate(_) => TokensAreLeft(k, turn) && !InTime(k, turn + 1) && e == RuntimeError(DeadlineExceeded)
    case ToolMissing(_) =>
      TokensAreLeft(k, turn) && InTime(k, turn + 1) && !ToolsAreThere(k) && e == RuntimeError(UnknownTool)
    case _ => false
  }

  /** The code of a batch that is not valid: a repeated identifier first, then the first bad call. */
  ghost predicate IsFaultOf(registry: Registry, proposed: seq<ModelToolCall>, seen: set<string>, code: FailureCode) {
    if !Distinct(CallIds(proposed)) || !(Members(CallIds(proposed)) !! seen) then code == DuplicateToolCallId
    else exists i :: FirstFaultIs(registry, proposed, i, code)
  }

  /** The code of a batch that is not permitted: an early submission first, then the first such call. */
  ghost predicate IsRefusalOf(spec: AgentSpec, batch: seq<ValidatedToolCall>, completed: set<string>,
                              code: FailureCode) {
    if SubmitsEarly(spec, batch) then code == PostTerminalToolCall
    else exists j: nat :: FirstRefused(spec, batch, completed, 0, j) && code == Refusal(spec, batch[j])
  }

  ghost predicate SpoilsBatch(k: Setting, cause: Cause, turn: nat, e: Exception) {
    MayAsk(k, turn) && RepliesWell(k, turn) &&
    match cause
    case NotValid(_) =>
      !IsValid(k, turn) && e.RuntimeError? &&
      IsFaultOf(k.registry, k.world.model(turn).value.toolCalls, RemoteIds(CallsBefore(k, turn)), e.code)
    case Looping(_) => IsValid(k, turn) && !IsGuarded(k, turn) && e == RuntimeError(ToolLoopGuard)
    case NotAuthorized(_) =>
      IsValid(k, turn) && IsGuarded(k, turn) && !IsAuthorized(k, turn) && e.RuntimeError? &&
      IsRefusalOf(k.spec, BatchOf(k, turn), RetrievedBefore(k, turn), e.code)
    case _ => false
  }

  ghost predicate SpoilsExecution(k: Setting, cause: Cause, turn: nat, e: Exception) {
    MayExecute(k, turn) &&
    match cause
    case ReadFailed(_, j) => j < Reads(k, turn) && k.world.tools(CallId(turn, j)) == Some(e)
    case Interrupted(_) => e == Cancelled
    case SubmissionFailed(_) =>
      ReadsSucceed(k, turn) && Submits(k, turn) && k.world.tools(SubmissionOf(k, turn)) == Some(e)
    case OutputRefused(_) =>
      ReadsSucceed(k, turn) && Submits(k, turn) && k.world.tools(SubmissionOf(k, turn)) == None &&
      !k.world.accepts(SubmissionOf(k, turn)) && e == RuntimeError(TerminalSubmitInvalid)
    case _ => false
  }

  ghost predicate SpoilsTurn(k: Setting, cause: Cause, turn: nat, e: Exception) {
    PreventsAsking(k, cause, turn, e) || SpoilsReply(k, cause, turn, e) || SpoilsBatch(k, cause, turn, e) ||
    SpoilsExecution(k, cause, turn, e)
  }

  ghost predicate PreventsRun(k: Setting, cause: Cause, e: Exception) {
    var known := k.spec.terminalSubmitTool in k.registry.specs;
    match cause
    case WrongPolicy =>
      k.context.policyVersion != k.spec.policyVersion && e == RuntimeError(PolicyVersionMismatch)
    case BegunLate =>
      k.context.policyVersion == k.spec.policyVersion && !InTime(k, 0) && e == RuntimeError(DeadlineExceeded)
    case NoSubmitTool =>
      k.context.policyVersion == k.spec.policyVersion && InTime(k, 0) && !known && e == RuntimeError(UnknownTool)
    case SubmitToolReads =>
      k.context.policyVersion == k.spec.policyVersion && InTime(k, 0) && known &&
      !k.registry.specs[k.spec.terminalSubmitTool].sideEffect.TerminalSubmit? &&
      e == RuntimeError(TerminalSubmitInvalid)
    case _ => false
  }

  /** After the last turn the missing retrievals are reported first. */
  ghost predicate RunsOut(k: Setting, e: Exception) {
    Reaches(k, k.spec.budget.maxTurns) &&
    e == RuntimeError(
      if exists name :: name in k.spec.requiredRetrievalTools && !IsRetrieved(k, name, k.spec.budget.maxTurns)
      then RequiredRetrievalMissing else TerminalSubmitMissing)
  }

  /** The run ends with this exception for this reason. */
  ghost predicate Explains(k: Setting, cause: Cause, e: Exception) {
    if IsBeforeTurns(cause) then PreventsRun(k, cause, e)
    else if cause.NothingSubmitted? then RunsOut(k, e)
    else cause.turn < k.spec.budget.maxTurns && Reaches(k, cause.turn) && SpoilsTurn(k, cause, cause.turn, e)
  }

  // ---- The reason is unique ----

  /** How far a turn has got when a reason comes up. */
  function StageOf(cause: Cause): nat {
    match cause
    case TokensUsedUp(_) => 0 case AskedLate(_) => 0 case ToolMissing(_) => 0
    case NotValid(_) => 2 case Looping(_) => 2 case NotAuthorized(_) => 2
    case ReadFailed(_, _) => 3 case Interrupted(_) => 3 case SubmissionFailed(_) => 3 case OutputRefused(_) => 3
    case _ => 1
  }

  lemma StageIsReached(k: Setting, cause: Cause, turn: nat, e: Exception)
    requires SpoilsTurn(k, cause, turn, e)
    ensures if StageOf(cause) == 0 then PreventsAsking(k, cause, turn, e) && !MayAsk(k, turn)
            else if StageOf(cause) == 1 then SpoilsReply(k, cause, turn, e) && MayAsk(k, turn) && !RepliesWell(k, turn)
            else if StageOf(cause) == 2
            then SpoilsBatch(k, cause, turn, e) && MayAsk(k, turn) && RepliesWell(k, turn) && !MayExecute(k, turn)
            else SpoilsExecution(k, cause, turn, e) && MayExecute(k, turn)
  {
  }

  /** A turn that fails does not go on. */
  lemma SpoiltTurnsEnd(k: Setting, cause: Cause, turn: nat, e: Exception)
    requires SpoilsTurn(k, cause, turn, e) && !cause.Interrupted?
    ensures !GoesOn(k, turn) && !Succeeds(k, turn)
  {
    StageIsReached(k, cause, turn, e);
    if StageOf(cause) == 3 {
      assert cause.ReadFailed? ==> k.world.tools(CallId(turn, cause.index)) != None;
    }
  }

  lemma OneTurnReached(k: Setting, s: nat, t: nat)
    requires Reaches(k, s) && Reaches(k, t) && !GoesOn(k, s) && !GoesOn(k, t)
    ensures s == t
  {
  }

  /** What the reasons are about is the same whatever the schedule: without an interruption the turn and
      the kind of reason are fixed, and the exception but for which of several reads failed first. */
  lemma CauseIsUnique(k: Setting, c: Cause, e: Exception, d: Cause, f: Exception)
    requires Explains(k, c, e) && Explains(k, d, f) && !c.Interrupted? && !d.Interrupted?
    ensures c == d || (c.ReadFailed? && d.ReadFailed? && c.turn == d.turn)
  {
    if IsOfTurn(c) {
      SpoiltTurnsEnd(k, c, c.turn, e);
    }
    if IsOfTurn(d) {
      SpoiltTurnsEnd(k, d, d.turn, f);
    }
    if IsOfTurn(c) && IsOfTurn(d) {
      OneTurnReached(k, c.turn, d.turn);
      OneCauseInTurn(k, c, e, d, f, c.turn);
    }
  }

  lemma OneCauseInTurn(k: Setting, c: Cause, e: Exception, d: Cause, f: Exception, turn: nat)
    requires SpoilsTurn(k, c, turn, e) && SpoilsTurn(k, d, turn, f) && !c.Interrupted? && !d.Interrupted?
    requires IsOfTurn(c) && IsOfTurn(d) && c.turn == d.turn == turn
    ensures c == d || (c.ReadFailed? && d.ReadFailed?)
  {
    StageIsReached(k, c, turn, e);
    StageIsReached(k, d, turn, f);
    if StageOf(c) == 0 {
      OneWayNotToAsk(k, c, e, d, f, turn);
    } else if StageOf(c) == 1 {
      OneWayToSpoilReply(k, c, e, d, f, turn);
    } else if StageOf(c) == 2 {
      OneWayToSpoilBatch(k, c, e, d, f, turn);
    } else {
      OneWayToSpoilExecution(k, c, e, d, f, turn);
    }
  }

  lemma OneWayNotToAsk(k: Setting, c: Cause, e: Exception, d: Cause, f: Exception, turn: nat)
    requires PreventsAsking(k, c, turn, e) && PreventsAsking(k, d, turn, f) && c.turn == d.turn == turn
    ensures c == d
  {
  }

  lemma OneWayToSpoilReply(k: Setting, c: Cause, e: Exception, d: Cause, f: Exception, turn: nat)
    requires SpoilsReply(k, c, turn, e) && SpoilsReply(k, d, turn, f) && c.turn == d.turn == turn
    ensures c == d
  {
  }

  lemma OneWayToSpoilBatch(k: Setting, c: Cause, e: Exception, d: Cause, f: Exception, turn: nat)
    requires SpoilsBatch(k, c, turn, e) && SpoilsBatch(k, d, turn, f) && c.turn == d.turn == turn
    ensures c == d
  {
  }

  lemma OneWayToSpoilExecution(k: Setting, c: Cause, e: Exception, d: Cause, f: Exception, turn: nat)
    requires SpoilsExecution(k, c, turn, e) && SpoilsExecution(k, d, turn, f) && c.turn == d.turn == turn
    requires !c.Interrupted? && !d.Interrupted?
    ensures c == d || (c.ReadFailed? && d.ReadFailed?)
  {
  }

  lemma RunsOutWithoutSubmission(k: Setting, turn: nat)
    requires Reaches(k, k.spec.budget.maxTurns)
    ensures !Succeeds(k, turn)
  {
    if turn < k.spec.budget.maxTurns {
      assert GoesOn(k, turn);
    }
  }

  /** Main result: a run that meets every condition up to an accepted submission has no reason to fail,
      short of an interruption. */
  lemma GoodRunsDoNotFail(k: Setting, turn: nat, cause: Cause, e: Exception)
    requires Succeeds(k, turn) && Explains(k, cause, e)
    ensures cause.Interrupted? && e == Cancelled
  {
    if cause.NothingSubmitted? {
      RunsOutWithoutSubmission(k, turn);
    } else if IsOfTurn(cause) {
      StageIsReached(k, cause, cause.turn, e);
      if !cause.Interrupted? {
        SpoiltTurnsEnd(k, cause, cause.turn, e);
        OneTurnReached(k, cause.turn, turn);
      }
    }
  }

  /** The calls accepted and the tools retrieved one turn later. */
  lemma OneTurnMore(k: Setting, turn: nat)
    ensures CallsBefore(k, turn + 1) == Extend(CallsBefore(k, turn), turn, BatchOf(k, turn))
    ensures RetrievedBefore(k, turn + 1) ==
            RetrievedBefore(k, turn) + RequiredAmong(k.spec, BatchOf(k, turn), |BatchOf(k, turn)|)
  {
    var all := RequiredAmong(k.spec, BatchOf(k, turn), |BatchOf(k, turn)|);
    forall name | name in RetrievedBefore(k, turn + 1) ensures name in RetrievedBefore(k, turn) + all {
      var s: nat, j: nat :| s < turn + 1 && j < |BatchOf(k, s)| && BatchOf(k, s)[j].spec.name == name;
    }
    forall name | name in RetrievedBefore(k, turn) ensures name in RetrievedBefore(k, turn + 1) {
      var s: nat, j: nat :| s < turn && j < |BatchOf(k, s)| && BatchOf(k, s)[j].spec.name == name;
    }
    forall name | name in all ensures name in RetrievedBefore(k, turn + 1) {
      var i :| 0 <= i < |BatchOf(k, turn)| && BatchOf(k, turn)[i].spec.name == name;
    }
  }

  lemma NoCallsYet(k: Setting)
    ensures CallsBefore(k, 0) == map[] && RetrievedBefore(k, 0) == {}
  {
  }
}
