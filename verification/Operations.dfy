/** Operations of the runner service, their recorded state, and the statuses that end them. */
module Operations {
  import opened Sequences

  datatype OperationType = BuildImage(revision: string) | PullImage | RunTests

  datatype Status =
    | Building | Pulling | Running
    | Succeeded | Passed | Failed | Cancelled | TimedOut | InfrastructureError | Interrupted
  {
    predicate IsTerminal() { !Building? && !Pulling? && !Running? }
  }

  datatype ReportStatus = ReportPublished | ReportFailed

  datatype TestSummary = TestSummary(total: int, passed: int, failed: int, errors: int, skipped: int)

  datatype OperationState = OperationState(
    operationId: string,
    operationType: OperationType,
    status: Status,
    containerName: Option<string>,
    exitCode: Option<int>,
    imageDigest: Option<string>,
    summary: Option<TestSummary>,
    reportStatus: Option<ReportStatus>,
    message: Option<string>)

  function ActiveStatus(operationType: OperationType): Status {
    match operationType
    case BuildImage(_) => Building
    case PullImage => Pulling
    case RunTests => Running
  }

  function Started(operationId: string, operationType: OperationType): OperationState {
    OperationState(operationId, operationType, ActiveStatus(operationType),
      if operationType.RunTests? then Some("hardware-test-run-" + operationId) else None,
      None, None, None, None,
      if operationType.BuildImage? then
        Some("Building configured checkout revision '" + operationType.revision + "'")
      else None)
  }

  predicate IsActive(state: OperationState) { state.status in {Building, Pulling, Running} }

  /** The second state is the first one, interrupted by a restart and otherwise unchanged. */
  predicate Interrupts(found: OperationState, now: OperationState) {
    && now.status == Interrupted
    && now.message == Some("The service restarted while the operation was active")
    && now.operationId == found.operationId && now.operationType == found.operationType
    && now.containerName == found.containerName && now.exitCode == found.exitCode
    && now.imageDigest == found.imageDigest && now.summary == found.summary
    && now.reportStatus == found.reportStatus
  }

  /** A restart turns what was stored into this. */
  predicate Restarted(found: Option<OperationState>, now: Option<OperationState>) {
    if found.Some? && IsActive(found.value) then now.Some? && Interrupts(found.value, now.value) else now == found
  }

  /** What a restart records for an operation that was active: the same state, interrupted. */
  function MarkInterrupted(state: OperationState): OperationState {
    if state.status.IsTerminal() then state
    else state.(status := Interrupted,
                message := Some("The service restarted while the operation was active"))
  }
}
