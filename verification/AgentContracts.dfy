// The values an agent run is described by: failure codes, proposed calls, budgets, specifications.

module AgentContracts {
  import opened Common

  datatype FailureCode =
    | BudgetExceeded | DeadlineExceeded | TurnLimitExceeded | TextCompletionRejected | MalformedProviderResponse
    | UnknownTool | DuplicateToolCallId | ToolArgumentsInvalid | ToolNotAllowed | ToolTimeout
    | ToolExecutionFailed | ToolLoopGuard | ObservationTooLarge | RequiredRetrievalMissing
    | TerminalSubmitMissing | TerminalSubmitInvalid | PostTerminalToolCall | PolicyVersionMismatch
    | ModelMismatch | UnexpectedRuntimeFailure | CircuitOpen | Provider(detail: string)

  datatype SideEffect = ReadOnly | TerminalSubmit

  datatype ModelToolCall = ModelToolCall(id: string, name: string, argumentsJson: string)

  datatype AgentBudget = AgentBudget(
    maxTurns: nat, maxToolCalls: nat, maxRepeatedToolCalls: nat,
    maxInputTokens: nat, maxOutputTokens: nat,
    maxCost: real, inputTokenCost: real, outputTokenCost: real)

  datatype AgentSpec = AgentSpec(
    modelId: string, policyVersion: string,
    allowedReadTools: seq<string>, requiredRetrievalTools: seq<string>, terminalSubmitTool: string,
    budget: AgentBudget)

  /** The invariants a specification is constructed with. */
  predicate IsAgentSpec(spec: AgentSpec) {
    Distinct(spec.allowedReadTools) && Distinct(spec.requiredRetrievalTools) &&
    spec.terminalSubmitTool !in spec.allowedReadTools &&
    forall name :: name in spec.requiredRetrievalTools ==> name in spec.allowedReadTools
  }
}
