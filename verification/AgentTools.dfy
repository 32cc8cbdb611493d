// What an agent may call: the static tool registry, validation of proposed calls, and the
// fail-closed authorizer.

module AgentTools {
  import opened AgentContracts
  import opened Common
  import opened Outcomes

  datatype ToolSpec = ToolSpec(name: string, sideEffect: SideEffect)

  /** The registered tools by name; `parse` stands for the strict input model of each tool and
      yields the canonical dump of the arguments. */
  datatype Registry = Registry(specs: map<string, ToolSpec>, parse: (string, string) -> Option<string>)

  predicate IsRegistry(registry: Registry) {
    forall name :: name in registry.specs ==> registry.specs[name].name == name
  }

  datatype ValidatedToolCall = ValidatedToolCall(call: ModelToolCall, spec: ToolSpec, arguments: string)

  // ---- Validation ----

  function CallIds(calls: seq<ModelToolCall>): (ids: seq<string>)
    ensures |ids| == |calls| && forall i :: 0 <= i < |calls| ==> ids[i] == calls[i].id
  {
    seq(|calls|, i requires 0 <= i < |calls| => calls[i].id)
  }

  function Members(s: seq<string>): set<string> {
    set x | x in s
  }

  /** A list has no repetition exactly when its set is as large. */
  lemma {:induction false} DistinctIffAsLarge(s: seq<string>)
    ensures |Members(s)| <= |s|
    ensures |Members(s)| == |s| <==> Distinct(s)
  {
    if s == [] {
    } else {
      var n := |s| - 1;
      var init := s[..n];
      DistinctIffAsLarge(init);
      assert s == init + [s[n]];
      assert Members(s) == Members(init) + {s[n]};
      if s[n] in init {
        var i :| 0 <= i < n && init[i] == s[n];
        assert s[i] == s[n];
        assert Members(s) == Members(init);
      } else {
        assert s[n] !in Members(init);
        assert Distinct(s) <==> Distinct(init);
      }
    }
  }

  /** Why one call cannot be validated, if it cannot. */
  function CallFault(registry: Registry, call: ModelToolCall): Option<FailureCode> {
    if call.name !in registry.specs then Some(UnknownTool)
    else if registry.parse(call.name, call.argumentsJson).None? then Some(ToolArgumentsInvalid)
    else None
  }

  predicate IsValidated(registry: Registry, call: ModelToolCall, v: ValidatedToolCall) {
    v.call == call && call.name in registry.specs && v.spec == registry.specs[call.name] &&
    registry.parse(call.name, call.argumentsJson) == Some(v.arguments)
  }

  predicate FirstFaultIs(registry: Registry, calls: seq<ModelToolCall>, i: nat, code: FailureCode) {
    i < |calls| && CallFault(registry, calls[i]) == Some(code) &&
    forall j :: 0 <= j < i ==> CallFault(registry, calls[j]).None?
  }

  /** All calls of a response or none: the identifiers are remembered only when every call passes. */
  method ValidateCalls(registry: Registry, calls: seq<ModelToolCall>, seen: set<string>)
    returns (r: Result<seq<ValidatedToolCall>, FailureCode>, seen': set<string>)
    ensures r.Ok? <==> calls != [] && Distinct(CallIds(calls)) && Members(CallIds(calls)) !! seen &&
                       forall i :: 0 <= i < |calls| ==> CallFault(registry, calls[i]).None?
    ensures r.Ok? ==> seen' == seen + Members(CallIds(calls)) && |r.value| == |calls| &&
                      forall i :: 0 <= i < |calls| ==> IsValidated(registry, calls[i], r.value[i])
    ensures r.Err? ==> seen' == seen
    ensures calls == [] ==> r == Err(MalformedProviderResponse)
    ensures calls != [] && !(Distinct(CallIds(calls)) && Members(CallIds(calls)) !! seen) ==>
              r == Err(DuplicateToolCallId)
    ensures calls != [] && Distinct(CallIds(calls)) && Members(CallIds(calls)) !! seen && r.Err? ==>
              exists i :: FirstFaultIs(registry, calls, i, r.error)
  {
    seen' := seen;
    if calls == [] {
      return Err(MalformedProviderResponse), seen;
    }
    var callIds := CallIds(calls);
    DistinctIffAsLarge(callIds);
    if |Members(callIds)| != |callIds| || !(Members(callIds) !! seen) {
      return Err(DuplicateToolCallId), seen;
    }
    var validated: seq<ValidatedToolCall> := [];
    for i := 0 to |calls|
      invariant |validated| == i
      invariant forall j :: 0 <= j < i ==>
                  CallFault(registry, calls[j]).None? &&
                  IsValidated(registry, calls[j], validated[j])
    {
      var call := calls[i];
      if call.name !in registry.specs {
        assert FirstFaultIs(registry, calls, i, UnknownTool);
        return Err(UnknownTool), seen;
      }
      var arguments := registry.parse(call.name, call.argumentsJson);
      if arguments.None? {
        assert FirstFaultIs(registry, calls, i, ToolArgumentsInvalid);
        return Err(ToolArgumentsInvalid), seen;
      }
      validated := validated + [ValidatedToolCall(call, registry.specs[call.name], arguments.value)];
    }
    return Ok(validated), seen + Members(callIds);
  }

  // ---- Authorization ----

  function TerminalPositions(spec: AgentSpec, calls: seq<ValidatedToolCall>): (ps: seq<nat>)
    ensures forall k :: 0 <= k < |ps| ==> ps[k] < |calls| && calls[ps[k]].spec.name == spec.terminalSubmitTool
    ensures |ps| > 1 ==> ps[0] < |calls| - 1
  {
    if calls == [] then []
    else
      var n := |calls| - 1;
      var init := TerminalPositions(spec, calls[..n]);
      if calls[n].spec.name == spec.terminalSubmitTool then init + [n] else init
  }

  predicate AllRetrieved(spec: AgentSpec, completed: set<string>) {
    forall name :: name in spec.requiredRetrievalTools ==> name in completed
  }

  /** The check of the call at position `i`. */
  function PositionFault(spec: AgentSpec, calls: seq<ValidatedToolCall>, terminal: Option<nat>, completed: set<string>,
                         i: nat): Option<FailureCode>
    requires i < |calls|
  {
    var tool := calls[i].spec;
    if tool.name == spec.terminalSubmitTool then
      if !tool.sideEffect.TerminalSubmit? then Some(TerminalSubmitInvalid)
      else if Some(i) != terminal then Some(PostTerminalToolCall)
      else if !AllRetrieved(spec, completed) then Some(RequiredRetrievalMissing)
      else None
    else if !tool.sideEffect.ReadOnly? || tool.name !in spec.allowedReadTools then Some(ToolNotAllowed)
    else None
  }

  function FirstPositionFault(spec: AgentSpec, calls: seq<ValidatedToolCall>, terminal: Option<nat>,
                              completed: set<string>, i: nat): Option<FailureCode>
    requires i <= |calls|
    decreases |calls| - i
  {
    if i == |calls| then None
    else if PositionFault(spec, calls, terminal, completed, i).Some?
      then PositionFault(spec, calls, terminal, completed, i)
    else FirstPositionFault(spec, calls, terminal, completed, i + 1)
  }

  function Authorize(spec: AgentSpec, calls: seq<ValidatedToolCall>, completed: set<string>, submitted: bool):
        Result<Option<nat>, FailureCode> {
    if submitted then Err(PostTerminalToolCall)
    else
      var positions := TerminalPositions(spec, calls);
      if |positions| > 1 then Err(PostTerminalToolCall)
      else
        var terminal := if positions == [] then None else Some(positions[0]);
        if terminal.Some? && terminal.value != |calls| - 1 then Err(PostTerminalToolCall)
        else
          match FirstPositionFault(spec, calls, terminal, completed, 0)
          case Some(code) => Err(code)
          case None => Ok(terminal)
  }

  /** What a batch must look like: reads that the agent may make, then at most one submission, in
      the last place, once everything required has been retrieved. */
  predicate Permitted(spec: AgentSpec, calls: seq<ValidatedToolCall>, completed: set<string>, i: nat)
    requires i < |calls|
  {
    if calls[i].spec.name == spec.terminalSubmitTool
    then i == |calls| - 1 && calls[i].spec.sideEffect.TerminalSubmit? &&
         forall name :: name in spec.requiredRetrievalTools ==> name in completed
    else calls[i].spec.sideEffect.ReadOnly? && calls[i].spec.name in spec.allowedReadTools
  }

  predicate EndsInSubmission(spec: AgentSpec, calls: seq<ValidatedToolCall>) {
    calls != [] && calls[|calls| - 1].spec.name == spec.terminalSubmitTool
  }

  predicate AllPermitted(spec: AgentSpec, calls: seq<ValidatedToolCall>, completed: set<string>) {
    forall i :: 0 <= i < |calls| ==> Permitted(spec, calls, completed, i)
  }

  predicate SubmitsEarly(spec: AgentSpec, calls: seq<ValidatedToolCall>) {
    exists i :: 0 <= i < |calls| - 1 && calls[i].spec.name == spec.terminalSubmitTool
  }

  lemma {:induction false} TerminalPositionsComplete(spec: AgentSpec, calls: seq<ValidatedToolCall>, i: nat)
    requires i < |calls| && calls[i].spec.name == spec.terminalSubmitTool
    ensures i in TerminalPositions(spec, calls)
  {
    var n := |calls| - 1;
    if i >= n {
    } else {
      assert calls[..n][i] == calls[i];
      TerminalPositionsComplete(spec, calls[..n], i);
    }
  }

  lemma TerminalIsLast(spec: AgentSpec, calls: seq<ValidatedToolCall>)
    requires !SubmitsEarly(spec, calls)
    ensures TerminalPositions(spec, calls) == if EndsInSubmission(spec, calls) then [|calls| - 1] else []
  {
    var ps := TerminalPositions(spec, calls);
    if ps != [] {
      assert ps[0] == |calls| - 1;
    }
    if EndsInSubmission(spec, calls) {
      TerminalPositionsComplete(spec, calls, |calls| - 1);
    }
  }

  lemma EarlySubmissionIsRefused(spec: AgentSpec, calls: seq<ValidatedToolCall>, completed: set<string>)
    requires SubmitsEarly(spec, calls)
    ensures Authorize(spec, calls, completed, false) == Err(PostTerminalToolCall)
  {
    var ps := TerminalPositions(spec, calls);
    var i :| 0 <= i < |calls| - 1 && calls[i].spec.name == spec.terminalSubmitTool;
    TerminalPositionsComplete(spec, calls, i);
    if |ps| == 1 {
      assert ps[0] == i;
    }
  }

  function LastSubmission(spec: AgentSpec, calls: seq<ValidatedToolCall>): Option<nat> {
    if EndsInSubmission(spec, calls) then Some(|calls| - 1) else None
  }

  /** The code a call that is not permitted is refused with, when nothing is submitted early. */
  function Refusal(spec: AgentSpec, call: ValidatedToolCall): FailureCode {
    if call.spec.name != spec.terminalSubmitTool then ToolNotAllowed
    else if call.spec.sideEffect.ReadOnly? then TerminalSubmitInvalid
    else RequiredRetrievalMissing
  }

  lemma PositionFaultMeaning(spec: AgentSpec, calls: seq<ValidatedToolCall>, completed: set<string>, i: nat)
    requires !SubmitsEarly(spec, calls) && i < |calls|
    ensures PositionFault(spec, calls, LastSubmission(spec, calls), completed, i) ==
            if Permitted(spec, calls, completed, i) then None else Some(Refusal(spec, calls[i]))
  {
  }

  ghost predicate FirstRefused(spec: AgentSpec, calls: seq<ValidatedToolCall>, completed: set<string>, i: nat, j: nat) {
    i <= j < |calls| && !Permitted(spec, calls, completed, j) &&
    forall k :: i <= k < j ==> Permitted(spec, calls, completed, k)
  }

  lemma {:induction false} FirstPositionFaultMeaning(spec: AgentSpec, calls: seq<ValidatedToolCall>,
                                                     completed: set<string>, i: nat) returns (j: nat)
    requires !SubmitsEarly(spec, calls) && i <= |calls|
    ensures var fault := FirstPositionFault(spec, calls, LastSubmission(spec, calls), completed, i);
            if fault.None? then forall k :: i <= k < |calls| ==> Permitted(spec, calls, completed, k)
            else FirstRefused(spec, calls, completed, i, j) && fault.value == Refusal(spec, calls[j])
    decreases |calls| - i
  {
    j := i;
    if i >= |calls| {
    } else {
      PositionFaultMeaning(spec, calls, completed, i);
      if Permitted(spec, calls, completed, i) {
        j := FirstPositionFaultMeaning(spec, calls, completed, i + 1);
      }
    }
  }

  lemma AuthorizeUnfolds(spec: AgentSpec, calls: seq<ValidatedToolCall>, completed: set<string>)
    requires !SubmitsEarly(spec, calls)
    ensures var fault := FirstPositionFault(spec, calls, LastSubmission(spec, calls), completed, 0);
            Authorize(spec, calls, completed, false) ==
              if fault.None? then Ok(LastSubmission(spec, calls)) else Err(fault.value)
  {
    TerminalIsLast(spec, calls);
  }

  /** The authorizer accepts exactly the permitted batches, and points at the submission. */
  lemma AuthorizeIsExact(spec: AgentSpec, calls: seq<ValidatedToolCall>, completed: set<string>, submitted: bool)
    ensures Authorize(spec, calls, completed, submitted).Ok? <==> !submitted && AllPermitted(spec, calls, completed)
    ensures Authorize(spec, calls, completed, submitted).Ok? ==>
              Authorize(spec, calls, completed, submitted).value == LastSubmission(spec, calls)
  {
    if SubmitsEarly(spec, calls) {
      EarlySubmissionIsRefused(spec, calls, completed);
      var i :| 0 <= i < |calls| - 1 && calls[i].spec.name == spec.terminalSubmitTool;
      assert !Permitted(spec, calls, completed, i);
    } else {
      AuthorizeUnfolds(spec, calls, completed);
      var j := FirstPositionFaultMeaning(spec, calls, completed, 0);
    }
  }

  /** The refusal of a batch: any submission that is not the last call, or one after a submission,
      comes first; otherwise the first call that is not permitted decides. */
  lemma RefusalIsExact(spec: AgentSpec, calls: seq<ValidatedToolCall>, completed: set<string>, submitted: bool)
    requires Authorize(spec, calls, completed, submitted).Err?
    ensures submitted || SubmitsEarly(spec, calls) ==>
              Authorize(spec, calls, completed, submitted) == Err(PostTerminalToolCall)
    ensures !submitted && !SubmitsEarly(spec, calls) ==>
              exists j: nat :: FirstRefused(spec, calls, completed, 0, j) &&
                          Authorize(spec, calls, completed, submitted) == Err(Refusal(spec, calls[j]))
  {
    if !submitted {
      if SubmitsEarly(spec, calls) {
        EarlySubmissionIsRefused(spec, calls, completed);
      } else {
        AuthorizeUnfolds(spec, calls, completed);
        var j := FirstPositionFaultMeaning(spec, calls, completed, 0);
      }
    }
  }
}
