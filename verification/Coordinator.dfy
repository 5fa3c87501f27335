/**
The operation coordinator as a state machine whose steps are the stretches of code between two
awaits. Any interleaving of starts, cancellations, shutdowns, resumptions of the background task,
crashes and restarts is a sequence of these steps.
*/
module Coordinator {
  import opened Sequences
  import opened Operations

  datatype Settings = Settings(
    reportPortal: bool,
    junitPath: bool,
    allure: bool,
    allureResultsPath: bool,
    allureToken: bool)

  // ----- The background task -----

  /** Where the task is suspended, with the local values it still needs. */
  datatype Point =
    | NotStarted
    | ImageCommand
    | ImageInspect
    | ImageTimeoutCancel
    | TestCommand
    | ReportPortalLookup(exitCode: int)
    | AllurePublish(exitCode: int, summary: Option<TestSummary>)
    | AllureTimeoutCancel(exitCode: int, summary: Option<TestSummary>)
    | TestTimeoutCancel
    | TestTimeoutLookup
    | Returned
    | CancelledByShutdown
  {
    predicate Done() { Returned? || CancelledByShutdown? }

    /** The exit code that the test command completed with, once it has. */
    function TestExitCode(): Option<int> {
      match this
      case ReportPortalLookup(code) => Some(code)
      case AllurePublish(code, _) => Some(code)
      case AllureTimeoutCancel(code, _) => Some(code)
      case _ => None
    }
  }

  datatype Task = Task(state: OperationState, point: Point, cancelPending: bool)

  /** How the awaited call ends: a process result, a timeout, another exception, or plainly. */
  datatype Resume = Begin | Result(exitCode: int, output: string) | Timeout | Raises(message: string) | Completed

  datatype JunitReport = JunitEscapes | JunitMissing | JunitUnreadable | JunitRead(summary: TestSummary)
  datatype AllureResults = AllureEscapes | AllureMissing | AllurePresent

  /** What the file system shows after the test command. */
  datatype Facts = Facts(directory: bool, junit: JunitReport, allure: AllureResults)

  predicate Enabled(point: Point, resume: Resume) {
    match point
    case NotStarted => resume.Begin?
    case ImageCommand => resume.Result? || resume.Timeout? || resume.Raises?
    case ImageInspect => resume.Result? || resume.Timeout? || resume.Raises?
    case TestCommand => resume.Result? || resume.Timeout? || resume.Raises?
    case AllurePublish(_, _) => resume.Result? || resume.Timeout? || resume.Raises?
    case Returned => false
    case CancelledByShutdown => false
    case _ => resume.Completed?
  }

  /** What one stretch does: the states it writes to the store, in order, and where it stops. */
  datatype Stretch = Stretch(writes: seq<OperationState>, point: Point)

  function Finish(state: OperationState, status: Status, exitCode: Option<int>): OperationState {
    state.(status := status, exitCode := exitCode, containerName := None)
  }

  function Finished(state: OperationState): Stretch { Stretch([state], Returned) }

  function Infrastructure(state: OperationState, message: string): OperationState {
    Finish(state, InfrastructureError, None).(message := Some(message))
  }

  /** The digest that the inspection printed: its last line, without surrounding white space. */
  function Digest(output: string): string { LastLine(Strip(output)) }

  /** The image operation between two awaits. */
  function ImageStretch(state: OperationState, point: Point, cancelRequested: bool, resume: Resume): Stretch
    requires Enabled(point, resume) && (point.ImageCommand? || point.ImageInspect? || point.ImageTimeoutCancel?)
  {
    match resume
    case Result(exitCode, output) =>
      if point.ImageCommand? then
        if cancelRequested then Finished(Finish(state, Cancelled, Some(exitCode)))
        else if exitCode != 0 then Finished(Finish(state, Failed, Some(exitCode)))
        else Stretch([], ImageInspect)
      else if exitCode != 0 || Strip(output) == "" then
        Finished(Finish(state, InfrastructureError, Some(exitCode)).(
          message := Some("The prepared image could not be inspected")))
      else Finished(Finish(state, Succeeded, Some(0)).(imageDigest := Some(Digest(output))))
    case Timeout => Stretch([], ImageTimeoutCancel)
    case Raises(message) => Finished(Infrastructure(state, message))
    case _ => Finished(Finish(state, TimedOut, None).(message := Some("Image operation timed out")))
  }

  /** The end of a test run whose command completed with this exit code. */
  function Conclude(state: OperationState, cancelRequested: bool, exitCode: int,
                    summary: Option<TestSummary>, report: Option<ReportStatus>): OperationState
  {
    var status := if cancelRequested then Cancelled else if exitCode == 0 then Passed else Failed;
    Finish(state, status, Some(exitCode)).(summary := summary, reportStatus := report)
  }

  /** The publication of the Allure results; their path is resolved outside the local try. */
  function PublishAllure(settings: Settings, state: OperationState, exitCode: int, summary: Option<TestSummary>,
                         facts: Facts): Stretch
  {
    if !settings.allureResultsPath then Finished(Conclude(state, false, exitCode, summary, Some(ReportFailed)))
    else if facts.allure.AllureEscapes? then
      Finished(Infrastructure(state, "report path escapes the session directory"))
    else if facts.allure.AllureMissing? then
      Finished(Conclude(state, false, exitCode, summary, Some(ReportFailed)))
    else
      var publishing := state.(containerName := Some("allure-publish-" + state.operationId));
      if !settings.allureToken then
        Stretch([publishing, Conclude(state, false, exitCode, summary, Some(ReportFailed))], Returned)
      else Stretch([publishing], AllurePublish(exitCode, summary))
  }

  /** From the reading of the JUnit report on; the report paths are resolved outside the local tries. */
  function AfterCommand(settings: Settings, state: OperationState, cancelRequested: bool, exitCode: int,
                        facts: Facts): Stretch
  {
    if cancelRequested then Finished(Finish(state, Cancelled, Some(exitCode)))
    else if !facts.directory then Finished(Conclude(state, false, exitCode, None, None))
    else if settings.junitPath && facts.junit.JunitEscapes? then
      Finished(Infrastructure(state, "report path escapes the session directory"))
    else
      var summary := if settings.junitPath && facts.junit.JunitRead? then Some(facts.junit.summary) else None;
      if !settings.allure then Finished(Conclude(state, false, exitCode, summary, None))
      else PublishAllure(settings, state, exitCode, summary, facts)
  }

  /** The test run between two awaits. */
  function TestStretch(settings: Settings, state: OperationState, point: Point, cancelRequested: bool,
                       resume: Resume, facts: Facts): Stretch
    requires Enabled(point, resume) && !point.NotStarted?
    requires !point.ImageCommand? && !point.ImageInspect? && !point.ImageTimeoutCancel?
  {
    match point
    case TestCommand => (
      match resume
      case Result(exitCode, _) =>
        if settings.reportPortal then Stretch([], ReportPortalLookup(exitCode))
        else AfterCommand(settings, state, cancelRequested, exitCode, facts)
      case Timeout => Stretch([], TestTimeoutCancel)
      case Raises(message) => Finished(Infrastructure(state, message))
    )
    case ReportPortalLookup(exitCode) => AfterCommand(settings, state, cancelRequested, exitCode, facts)
    case AllurePublish(exitCode, summary) => (
      match resume
      case Result(code, _) =>
        Finished(Conclude(state, cancelRequested, exitCode, summary,
          Some(if code == 0 then ReportPublished else ReportFailed)))
      case Timeout => Stretch([], AllureTimeoutCancel(exitCode, summary))
      case Raises(_) => Finished(Conclude(state, cancelRequested, exitCode, summary, Some(ReportFailed)))
    )
    case AllureTimeoutCancel(exitCode, summary) =>
      Finished(Conclude(state, cancelRequested, exitCode, summary, Some(ReportFailed)))
    case TestTimeoutCancel =>
      if settings.reportPortal then Stretch([], TestTimeoutLookup) else Finished(TestTimedOut(state))
    case TestTimeoutLookup => Finished(TestTimedOut(state))
  }

  function TestTimedOut(state: OperationState): OperationState {
    Finish(state, TimedOut, None).(message := Some("Hardware test run timed out"))
  }

  /** One resumption of the task. A cancellation by shutdown is delivered instead of the result. */
  function Continue(settings: Settings, task: Task, cancelRequested: bool, resume: Resume, facts: Facts): Stretch
    requires Enabled(task.point, resume)
  {
    if task.cancelPending then Stretch([], CancelledByShutdown)
    else
      match task.point
      case NotStarted => Stretch([], if task.state.operationType.RunTests? then TestCommand else ImageCommand)
      case ImageCommand => ImageStretch(task.state, task.point, cancelRequested, resume)
      case ImageInspect => ImageStretch(task.state, task.point, cancelRequested, resume)
      case ImageTimeoutCancel => ImageStretch(task.state, task.point, cancelRequested, resume)
      case _ => TestStretch(settings, task.state, task.point, cancelRequested, resume, facts)
  }

  // ----- The system -----

  /**
  The coordinator, the state on disk, and the history that the properties speak of: the operations
  whose tasks exist and have not ended, all writes, and the operations started and cancelled so far.
  */
  datatype System = System(
    stored: Option<OperationState>,
    task: Option<Task>,
    unfinished: set<string>,
    cancelRequested: bool,
    locked: bool,
    writes: seq<OperationState>,
    accepted: set<string>,
    cancelAccepted: set<string>)

  datatype Action =
    | Start(operationId: string, operationType: OperationType)
    | CancelBegin
    | CancelEnd
    | ShutdownCancel(operationId: string)
    | ResumeTask(resume: Resume, facts: Facts)
    | Restart
    | RestartDuringStart(operationId: string, operationType: OperationType)
    | RestartDuring(resume: Resume, facts: Facts, written: nat)

  function Save(s: System, states: seq<OperationState>): System {
    if states == [] then s
    else s.(stored := Some(states[|states| - 1]), writes := s.writes + states)
  }

  predicate Busy(s: System) { s.task.Some? && !s.task.value.point.Done() }

  predicate CanAct(s: System, a: Action) {
    match a
    case Start(id, _) => !s.locked && id !in s.accepted
    case CancelBegin => !s.locked
    case CancelEnd => s.locked
    case ShutdownCancel(_) => true
    case ResumeTask(resume, _) => s.task.Some? && Enabled(s.task.value.point, resume)
    case Restart => true
    case RestartDuringStart(id, _) => !s.locked && id !in s.accepted && !Busy(s)
    case RestartDuring(resume, _, _) => s.task.Some? && Enabled(s.task.value.point, resume)
  }

  /** The body of a start once it holds the lock; it does not await. */
  function StartBody(s: System, operationId: string, operationType: OperationType): System {
    if Busy(s) then s
    else
      var state := Started(operationId, operationType);
      Save(s, [state]).(
        cancelRequested := false,
        task := Some(Task(state, NotStarted, false)),
        unfinished := s.unfinished + {operationId},
        accepted := s.accepted + {operationId})
  }

  /** A cancellation is accepted when a task exists and the stored state is not terminal. */
  predicate CancelIsAccepted(s: System) {
    s.stored.Some? && !s.stored.value.status.IsTerminal() && s.task.Some?
  }

  /** The memory of the process is lost; the new one marks an active state as interrupted. */
  function AfterRestart(s: System): System {
    var blank := s.(task := None, unfinished := {}, cancelRequested := false, locked := false);
    if s.stored.Some? && !s.stored.value.status.IsTerminal()
    then Save(blank, [MarkInterrupted(s.stored.value)]) else blank
  }

  /** The current task made this stretch. */
  function Advance(s: System, stretch: Stretch): System
    requires s.task.Some?
  {
    var id := s.task.value.state.operationId;
    Save(s, stretch.writes).(
      task := Some(s.task.value.(point := stretch.point)),
      unfinished := if stretch.point.Done() then s.unfinished - {id} else s.unfinished)
  }

  /** The writes that were done before the process stopped. */
  function Begun(states: seq<OperationState>, written: nat): seq<OperationState> {
    if written < |states| then states[..written] else states
  }

  function Next(s: System, settings: Settings, a: Action): System
    requires CanAct(s, a)
  {
    match a
    case Start(id, operationType) => StartBody(s, id, operationType)
    case CancelBegin =>
      if CancelIsAccepted(s) then
        s.(cancelRequested := true, locked := true,
           cancelAccepted := s.cancelAccepted + {s.stored.value.operationId})
      else s
    case CancelEnd => s.(locked := false)
    case ShutdownCancel(id) =>
      if Busy(s) && s.task.value.state.operationId == id
      then s.(task := Some(s.task.value.(cancelPending := true))) else s
    case ResumeTask(resume, facts) =>
      Advance(s, Continue(settings, s.task.value, s.cancelRequested, resume, facts))
    case Restart => AfterRestart(s)
    case RestartDuringStart(id, operationType) =>
      AfterRestart(Save(s, [Started(id, operationType)]).(accepted := s.accepted + {id}))
    case RestartDuring(resume, facts, written) =>
      var states := Continue(settings, s.task.value, s.cancelRequested, resume, facts).writes;
      AfterRestart(Save(s, Begun(states, written)))
  }

  /** A coordinator that has just come up. */
  predicate Initial(s: System) {
    && s.task.None? && s.unfinished == {} && !s.cancelRequested && !s.locked
    && (s.stored.Some? ==> s.stored.value.status.IsTerminal())
    && s.writes == [] && s.cancelAccepted == {}
    && (s.stored.Some? ==> s.stored.value.operationId in s.accepted)
  }

  ghost predicate Steps(settings: Settings, states: seq<System>, actions: seq<Action>) {
    && |states| == |actions| + 1
    && forall i :: 0 <= i < |actions| ==>
        CanAct(states[i], actions[i]) && states[i + 1] == Next(states[i], settings, actions[i])
  }

  ghost predicate Run(settings: Settings, states: seq<System>, actions: seq<Action>) {
    Steps(settings, states, actions) && Initial(states[0])
  }

  predicate EndsProcess(a: Action) { a.Restart? || a.RestartDuringStart? || a.RestartDuring? }

  /** These actions can be taken one after the other from this state, within one process. */
  ghost predicate Feasible(settings: Settings, s: System, actions: seq<Action>)
    decreases |actions|
  {
    actions == []
    || (CanAct(s, actions[0]) && !EndsProcess(actions[0])
        && Feasible(settings, Next(s, settings, actions[0]), actions[1..]))
  }

  lemma StepsSnoc(settings: Settings, states: seq<System>, actions: seq<Action>, a: Action)
    requires Steps(settings, states, actions) && CanAct(states[|actions|], a)
    ensures Steps(settings, states + [Next(states[|actions|], settings, a)], actions + [a])
  {
    hide CanAct, Next;
  }

  // ----- What one stretch writes -----

  /** How often a terminal state was written for this operation. */
  function TerminalWrites(writes: seq<OperationState>, id: string): nat {
    if writes == [] then 0
    else
      var last := writes[|writes| - 1];
      TerminalWrites(writes[..|writes| - 1], id) + if last.operationId == id && last.status.IsTerminal() then 1 else 0
  }

  /** A write about the operation itself, with an outcome that agrees with the cancel flag. */
  predicate OwnWrite(state: OperationState, cancelRequested: bool, w: OperationState) {
    && w.operationId == state.operationId
    && (w.status == Cancelled ==> cancelRequested)
    && (w.status == Passed || w.status == Failed ==> !cancelRequested)
    && w.status != Interrupted
  }

  /** A stretch writes about its own operation; a terminal state is its last write, and ends the task. */
  predicate OwnWrites(state: OperationState, cancelRequested: bool, stretch: Stretch) {
    && |stretch.writes| <= 2
    && (forall i :: 0 <= i < |stretch.writes| ==>
          && OwnWrite(state, cancelRequested, stretch.writes[i])
          && (stretch.writes[i].status.IsTerminal() <==> stretch.point.Returned? && i == |stretch.writes| - 1))
    && (stretch.point.Returned? ==> stretch.writes != [])
  }

  lemma FinishedOwns(state: OperationState, cancelRequested: bool, w: OperationState)
    requires OwnWrite(state, cancelRequested, w) && w.status.IsTerminal()
    ensures OwnWrites(state, cancelRequested, Finished(w))
  {
  }

  lemma ImageStretchOwns(state: OperationState, point: Point, cancelRequested: bool, resume: Resume)
    requires Enabled(point, resume) && (point.ImageCommand? || point.ImageInspect? || point.ImageTimeoutCancel?)
    ensures OwnWrites(state, cancelRequested, ImageStretch(state, point, cancelRequested, resume))
    ensures !ImageStretch(state, point, cancelRequested, resume).point.CancelledByShutdown?
  {
    hide OwnWrites;
    var stretch := ImageStretch(state, point, cancelRequested, resume);
    if stretch.point.Returned? {
      FinishedOwns(state, cancelRequested, stretch.writes[0]);
    } else {
      SilentOwns(state, cancelRequested, stretch.point);
    }
  }

  lemma SilentOwns(state: OperationState, cancelRequested: bool, point: Point)
    ensures !point.Returned? ==> OwnWrites(state, cancelRequested, Stretch([], point))
  {
  }

  lemma ConcludeOwns(state: OperationState, cancelRequested: bool, exitCode: int)
    ensures forall summary, report ::
      var w := Conclude(state, cancelRequested, exitCode, summary, report);
      OwnWrite(state, cancelRequested, w) && w.status.IsTerminal()
  {
  }

  lemma AbandonOwns(state: OperationState, cancelRequested: bool, exitCode: int)
    ensures forall message ::
      var w := Infrastructure(state, message);
      OwnWrite(state, cancelRequested, w) && w.status.IsTerminal()
    ensures cancelRequested ==>
      var w := Finish(state, Cancelled, Some(exitCode));
      OwnWrite(state, cancelRequested, w) && w.status.IsTerminal()
  {
  }

  lemma PublishingOwns(state: OperationState, cancelRequested: bool, stretch: Stretch)
    requires 1 <= |stretch.writes| <= 2 && (stretch.point.Returned? <==> |stretch.writes| == 2)
    requires stretch.writes[0] == state.(containerName := stretch.writes[0].containerName)
    requires !state.status.IsTerminal()
    requires |stretch.writes| == 2 ==>
      OwnWrite(state, cancelRequested, stretch.writes[1]) && stretch.writes[1].status.IsTerminal()
    ensures OwnWrites(state, cancelRequested, stretch)
  {
  }

  lemma PublishAllureOwns(
    settings: Settings, state: OperationState, exitCode: int, summary: Option<TestSummary>, facts: Facts
  )
    requires !state.status.IsTerminal()
    ensures OwnWrites(state, false, PublishAllure(settings, state, exitCode, summary, facts))
    ensures !PublishAllure(settings, state, exitCode, summary, facts).point.CancelledByShutdown?
  {
    hide OwnWrites, OwnWrite, Conclude, Infrastructure;
    ConcludeOwns(state, false, exitCode);
    AbandonOwns(state, false, exitCode);
    var stretch := PublishAllure(settings, state, exitCode, summary, facts);
    if |stretch.writes| == 1 && stretch.point.Returned? {
      FinishedOwns(state, false, stretch.writes[0]);
    } else {
      PublishingOwns(state, false, stretch);
    }
  }

  lemma AfterCommandOwns(settings: Settings, state: OperationState, cancelRequested: bool, exitCode: int, facts: Facts)
    requires !state.status.IsTerminal()
    ensures OwnWrites(state, cancelRequested, AfterCommand(settings, state, cancelRequested, exitCode, facts))
    ensures !AfterCommand(settings, state, cancelRequested, exitCode, facts).point.CancelledByShutdown?
  {
    hide OwnWrites, OwnWrite, Conclude, Infrastructure, Finish, PublishAllure;
    ConcludeOwns(state, cancelRequested, exitCode);
    AbandonOwns(state, cancelRequested, exitCode);
    var summary := if settings.junitPath && facts.junit.JunitRead? then Some(facts.junit.summary) else None;
    PublishAllureOwns(settings, state, exitCode, summary, facts);
    var stretch := AfterCommand(settings, state, cancelRequested, exitCode, facts);
    if |stretch.writes| == 1 && stretch.point.Returned? {
      FinishedIfTerminal(state, cancelRequested, stretch.writes[0]);
    }
  }

  lemma FinishedIfTerminal(state: OperationState, cancelRequested: bool, w: OperationState)
    ensures OwnWrite(state, cancelRequested, w) && w.status.IsTerminal() ==>
      OwnWrites(state, cancelRequested, Finished(w))
  {
  }

  lemma TestStretchOwns(settings: Settings, state: OperationState, point: Point, cancelRequested: bool,
                        resume: Resume, facts: Facts)
    requires Enabled(point, resume) && !point.NotStarted? && !state.status.IsTerminal()
    requires !point.ImageCommand? && !point.ImageInspect? && !point.ImageTimeoutCancel?
    ensures OwnWrites(state, cancelRequested, TestStretch(settings, state, point, cancelRequested, resume, facts))
    ensures !TestStretch(settings, state, point, cancelRequested, resume, facts).point.CancelledByShutdown?
  {
    hide OwnWrites, AfterCommand;
    var stretch := TestStretch(settings, state, point, cancelRequested, resume, facts);
    if (point.TestCommand? && resume.Result? && !settings.reportPortal) || point.ReportPortalLookup? {
      var exitCode := if point.TestCommand? then resume.exitCode else point.exitCode;
      AfterCommandOwns(settings, state, cancelRequested, exitCode, facts);
    } else if stretch.point.Returned? {
      FinishedOwns(state, cancelRequested, stretch.writes[0]);
    } else {
      SilentOwns(state, cancelRequested, stretch.point);
    }
  }

  lemma StretchWrites(settings: Settings, task: Task, cancelRequested: bool, resume: Resume, facts: Facts)
    requires Enabled(task.point, resume) && !task.state.status.IsTerminal()
    ensures var stretch := Continue(settings, task, cancelRequested, resume, facts);
      && OwnWrites(task.state, cancelRequested, stretch)
      && (stretch.point.CancelledByShutdown? <==> task.cancelPending)
      && (task.cancelPending ==> stretch.writes == [])
  {
    hide OwnWrites, ImageStretch, TestStretch;
    var point := task.point;
    SilentOwns(task.state, cancelRequested, Continue(settings, task, cancelRequested, resume, facts).point);
    if !task.cancelPending && !point.NotStarted? {
      if point.ImageCommand? || point.ImageInspect? || point.ImageTimeoutCancel? {
        ImageStretchOwns(task.state, point, cancelRequested, resume);
      } else {
        TestStretchOwns(settings, task.state, point, cancelRequested, resume, facts);
      }
    }
  }

  // ----- The invariant -----

  /** What the store holds about the current task. */
  predicate TaskAgrees(s: System) {
    && s.unfinished == (if Busy(s) then {s.task.value.state.operationId} else {})
    && match s.task
    case None => (s.stored.Some? ==> s.stored.value.status.IsTerminal()) && !s.cancelRequested
    case Some(task) =>
      && !task.state.status.IsTerminal()
      && task.state.operationId in s.accepted
      && s.stored.Some? && s.stored.value.operationId == task.state.operationId
      && (s.stored.value.status.IsTerminal() <==> task.point.Returned?)
      && TerminalWrites(s.writes, task.state.operationId) == (if task.point.Returned? then 1 else 0)
      && (s.cancelRequested <==> task.state.operationId in s.cancelAccepted)
  }

  /** What the history says about cancellations. */
  predicate CancelsHonoured(s: System) {
    && s.cancelAccepted <= s.accepted
    && forall w :: w in s.writes ==>
        && w.operationId in s.accepted
        && (w.status == Cancelled ==> w.operationId in s.cancelAccepted)
        && (w.status == Passed || w.status == Failed ==> w.operationId !in s.cancelAccepted)
  }

  /** The history on its own: at most one terminal write for each operation, and its end is stored. */
  ghost predicate HistoryAgrees(s: System) {
    && CancelsHonoured(s)
    && (s.stored.Some? ==> s.stored.value.operationId in s.accepted)
    && (s.writes != [] ==> s.stored == Some(s.writes[|s.writes| - 1]))
    && (forall id :: TerminalWrites(s.writes, id) <= 1)
    && (forall id :: id !in s.accepted ==> TerminalWrites(s.writes, id) == 0)
  }

  ghost predicate Inv(s: System) { TaskAgrees(s) && HistoryAgrees(s) }

  lemma {:induction false} TerminalWritesAppend(writes: seq<OperationState>, more: seq<OperationState>, id: string)
    ensures TerminalWrites(writes + more, id) == TerminalWrites(writes, id) + TerminalWrites(more, id)
  {
    if more == [] {
      assert writes + more == writes;
    } else {
      assert (writes + more)[..|writes + more| - 1] == writes + more[..|more| - 1];
      TerminalWritesAppend(writes, more[..|more| - 1], id);
    }
  }

  lemma {:induction false} TerminalIsCounted(writes: seq<OperationState>, w: OperationState)
    requires w in writes && w.status.IsTerminal()
    ensures TerminalWrites(writes, w.operationId) >= 1
  {
    if writes[|writes| - 1] != w {
      TerminalIsCounted(writes[..|writes| - 1], w);
    }
  }

  lemma TerminalWritesOfOne(w: OperationState, id: string)
    ensures TerminalWrites([w], id) == if w.operationId == id && w.status.IsTerminal() then 1 else 0
  {
    assert [w][..0] == [];
  }

  /** How one more write changes the counts. */
  lemma OneMoreWrite(writes: seq<OperationState>, w: OperationState)
    ensures forall id ::
      TerminalWrites(writes + [w], id) ==
        TerminalWrites(writes, id) + (if id == w.operationId && w.status.IsTerminal() then 1 else 0)
  {
    forall id ensures TerminalWrites(writes + [w], id) ==
      TerminalWrites(writes, id) + if id == w.operationId && w.status.IsTerminal() then 1 else 0
    {
      TerminalWritesAppend(writes, [w], id);
      TerminalWritesOfOne(w, id);
    }
  }

  /** Saving one state about an operation that has no terminal write yet keeps the history sound. */
  lemma SaveOne(s: System, w: OperationState)
    requires HistoryAgrees(s) && w.operationId in s.accepted
    requires TerminalWrites(s.writes, w.operationId) == 0
    requires w.status == Cancelled ==> w.operationId in s.cancelAccepted
    requires w.status == Passed || w.status == Failed ==> w.operationId !in s.cancelAccepted
    ensures HistoryAgrees(Save(s, [w])) && Save(s, [w]).stored == Some(w)
    ensures TerminalWrites(Save(s, [w]).writes, w.operationId) == if w.status.IsTerminal() then 1 else 0
  {
    OneMoreWrite(s.writes, w);
    hide TerminalWrites;
  }

  lemma SaveInTurn(s: System, states: seq<OperationState>, w: OperationState)
    ensures Save(s, states + [w]) == Save(Save(s, states), [w])
  {
    assert s.writes + (states + [w]) == s.writes + states + [w];
  }

  /** Saving the writes of a stretch, all or some, of the current and unfinished operation. */
  lemma {:induction false} SaveKeepsHistory(s: System, state: OperationState, stretch: Stretch, written: nat)
    requires HistoryAgrees(s) && state.operationId in s.accepted
    requires s.stored.Some? && s.stored.value.operationId == state.operationId
    requires !s.stored.value.status.IsTerminal() && TerminalWrites(s.writes, state.operationId) == 0
    requires s.cancelRequested <==> state.operationId in s.cancelAccepted
    requires OwnWrites(state, s.cancelRequested, stretch) && written <= |stretch.writes|
    ensures var t := Save(s, stretch.writes[..written]);
      && HistoryAgrees(t)
      && t.stored.Some? && t.stored.value.operationId == state.operationId
      && (t.stored.value.status.IsTerminal() <==>
            stretch.point.Returned? && written == |stretch.writes| && written > 0)
      && TerminalWrites(t.writes, state.operationId) == (if t.stored.value.status.IsTerminal() then 1 else 0)
    decreases written
  {
    hide TerminalWrites, HistoryAgrees;
    if written > 0 {
      SaveKeepsHistory(s, state, stretch, written - 1);
      var w := stretch.writes[written - 1];
      assert OwnWrite(state, s.cancelRequested, w);
      assert stretch.writes[..written] == stretch.writes[..written - 1] + [w];
      SaveInTurn(s, stretch.writes[..written - 1], w);
      SaveOne(Save(s, stretch.writes[..written - 1]), w);
    }
  }

  /** The history does not depend on where the task is. */
  lemma SameHistory(s: System, t: System)
    requires HistoryAgrees(s) && t == s.(task := t.task, unfinished := t.unfinished)
    ensures HistoryAgrees(t)
  {
  }

  lemma TaskStepKeeps(s: System, settings: Settings, resume: Resume, facts: Facts)
    requires Inv(s) && s.task.Some? && Enabled(s.task.value.point, resume)
    ensures Inv(Next(s, settings, ResumeTask(resume, facts)))
  {
    hide Continue, TerminalWrites, OwnWrites, HistoryAgrees;
    var task := s.task.value;
    var stretch := Continue(settings, task, s.cancelRequested, resume, facts);
    StretchWrites(settings, task, s.cancelRequested, resume, facts);
    ReturnedWrites(task.state, s.cancelRequested, stretch);
    assert stretch.writes[..|stretch.writes|] == stretch.writes;
    NotYetReturned(s, resume);
    SaveKeepsHistory(s, task.state, stretch, |stretch.writes|);
    SameHistory(Save(s, stretch.writes), Advance(s, stretch));
  }

  lemma ReturnedWrites(state: OperationState, cancelRequested: bool, stretch: Stretch)
    requires OwnWrites(state, cancelRequested, stretch)
    ensures stretch.point.Returned? ==> stretch.writes != []
  {
  }

  lemma NotYetReturned(s: System, resume: Resume)
    requires s.task.Some? && Enabled(s.task.value.point, resume)
    ensures !s.task.value.point.Returned?
  {
  }

  /** The state that a start records is the first write about its fresh operation. */
  lemma StartKeeps(s: System, id: string, operationType: OperationType)
    requires Inv(s) && id !in s.accepted && !Busy(s)
    ensures Inv(StartBody(s, id, operationType))
  {
    hide TerminalWrites;
    SaveOne(s.(accepted := s.accepted + {id}), Started(id, operationType));
  }

  /** A state that a restart finds is terminal or becomes interrupted, and the memory starts afresh. */
  lemma RestartKeeps(s: System)
    requires HistoryAgrees(s)
    requires s.stored.Some? && !s.stored.value.status.IsTerminal() ==>
      TerminalWrites(s.writes, s.stored.value.operationId) == 0
    ensures Inv(AfterRestart(s))
  {
    hide TerminalWrites;
    if s.stored.Some? && !s.stored.value.status.IsTerminal() {
      var blank := s.(task := None, unfinished := {}, cancelRequested := false, locked := false);
      SaveOne(blank, MarkInterrupted(s.stored.value));
    }
  }

  lemma RestartDuringKeeps(s: System, settings: Settings, resume: Resume, facts: Facts, written: nat)
    requires Inv(s) && s.task.Some? && Enabled(s.task.value.point, resume)
    ensures Inv(Next(s, settings, RestartDuring(resume, facts, written)))
  {
    hide Continue, Next, AfterRestart, TerminalWrites, OwnWrites, Save;
    var task := s.task.value;
    var stretch := Continue(settings, task, s.cancelRequested, resume, facts);
    var t := Save(s, Begun(stretch.writes, written));
    RestartDuringStep(s, settings, resume, facts, written);
    StretchWrites(settings, task, s.cancelRequested, resume, facts);
    NotYetReturned(s, resume);
    var n := if written < |stretch.writes| then written else |stretch.writes|;
    assert Begun(stretch.writes, written) == stretch.writes[..n];
    SaveKeepsHistory(s, task.state, stretch, n);
    RestartKeeps(t);
  }

  lemma RestartDuringStep(s: System, settings: Settings, resume: Resume, facts: Facts, written: nat)
    requires s.task.Some? && Enabled(s.task.value.point, resume)
    ensures
      var stretch := Continue(settings, s.task.value, s.cancelRequested, resume, facts);
      Next(s, settings, RestartDuring(resume, facts, written)) == AfterRestart(Save(s, Begun(stretch.writes, written)))
  {
    hide Continue, AfterRestart, Save;
  }

  /** Accepting a cancellation concerns an operation without a terminal write, so nothing is broken. */
  lemma CancelKeeps(s: System, settings: Settings)
    requires Inv(s) && !s.locked
    ensures Inv(Next(s, settings, CancelBegin))
  {
    if CancelIsAccepted(s) {
      forall w | w in s.writes && w.operationId == s.stored.value.operationId
        ensures w.status != Passed && w.status != Failed
      {
        if w.status.IsTerminal() {
          TerminalIsCounted(s.writes, w);
        }
      }
    }
  }

  /** Every step of every interleaving keeps the invariant. */
  lemma NextKeepsInv(s: System, settings: Settings, a: Action)
    requires Inv(s) && CanAct(s, a)
    ensures Inv(Next(s, settings, a))
  {
    match a
    case Start(id, operationType) =>
      if !Busy(s) {
        StartKeeps(s, id, operationType);
      }
    case CancelBegin => CancelKeeps(s, settings);
    case CancelEnd =>
    case ShutdownCancel(_) =>
    case ResumeTask(resume, facts) => TaskStepKeeps(s, settings, resume, facts);
    case Restart => RestartKeeps(s);
    case RestartDuringStart(id, operationType) =>
      StartKeeps(s, id, operationType);
      RestartKeeps(StartBody(s, id, operationType));
    case RestartDuring(resume, facts, written) => RestartDuringKeeps(s, settings, resume, facts, written);
  }

  // ----- Safety over whole runs -----

  lemma {:induction false} RunKeepsInv(settings: Settings, states: seq<System>, actions: seq<Action>, i: nat)
    requires Run(settings, states, actions) && i < |states|
    ensures Inv(states[i])
  {
    if i > 0 {
      RunKeepsInv(settings, states, actions, i - 1);
      NextKeepsInv(states[i - 1], settings, actions[i - 1]);
    }
  }

  /**
  At every point of every run: an unfinished task has a non-terminal stored state with its own
  operation id; a task that returned has written exactly one terminal state, which is stored; and no
  operation, current or past, has more than one.
  */
  lemma StoreAgreesWithTask(settings: Settings, states: seq<System>, actions: seq<Action>, i: nat)
    requires Run(settings, states, actions) && i < |states|
    ensures var s := states[i];
      && (s.task.Some? ==>
            && s.stored.Some? && s.stored.value.operationId == s.task.value.state.operationId
            && (s.stored.value.status.IsTerminal() <==> s.task.value.point.Returned?)
            && TerminalWrites(s.writes, s.stored.value.operationId)
                == (if s.task.value.point.Returned? then 1 else 0))
      && (s.task.None? && s.stored.Some? ==> s.stored.value.status.IsTerminal())
      && forall id :: TerminalWrites(s.writes, id) <= 1
  {
    RunKeepsInv(settings, states, actions, i);
  }

  /** At most one unfinished task exists at any time, and it is the one the coordinator refers to. */
  lemma AtMostOneUnfinishedTask(settings: Settings, states: seq<System>, actions: seq<Action>, i: nat)
    requires Run(settings, states, actions) && i < |states|
    ensures |states[i].unfinished| <= 1
    ensures forall id :: id in states[i].unfinished <==> Busy(states[i]) && states[i].task.value.state.operationId == id
  {
    RunKeepsInv(settings, states, actions, i);
  }

  /** A start that finds an unfinished task is refused, and the state it reports is that task's. */
  lemma BusyReportsTheActiveOperation(settings: Settings, states: seq<System>, actions: seq<Action>, i: nat)
    requires Run(settings, states, actions) && i < |actions|
    requires actions[i].Start? && Busy(states[i])
    ensures states[i + 1] == states[i] && states[i].stored.Some?
    ensures states[i].stored.value.operationId == states[i].task.value.state.operationId
    ensures !states[i].stored.value.status.IsTerminal()
  {
    RunKeepsInv(settings, states, actions, i);
  }

  /** A terminal state stays stored until the next start that is accepted, restarts included. */
  lemma {:induction false} TerminalStateStays(
    settings: Settings, states: seq<System>, actions: seq<Action>, i: nat, j: nat
  )
    requires Run(settings, states, actions) && |states| == |actions| + 1 && i <= j < |states|
    requires states[i].stored.Some? && states[i].stored.value.status.IsTerminal()
    requires forall k :: i <= k < j ==> !actions[k].Start? && !actions[k].RestartDuringStart?
    ensures states[j].stored == states[i].stored
    ensures states[i].task.Some? && states[j].task.Some? ==> states[j].task.value.point.Returned?
  {
    hide *;
    if i < j {
      TerminalStateStays(settings, states, actions, i, j - 1);
      RunKeepsInv(settings, states, actions, j - 1);
      RunStep(settings, states, actions, j - 1);
      TerminalStateStaysOnce(settings, states[j - 1], actions[j - 1]);
    } else {
      RunKeepsInv(settings, states, actions, i);
      TerminalMeansReturned(states[i]);
    }
  }

  lemma RunStep(settings: Settings, states: seq<System>, actions: seq<Action>, i: nat)
    requires Run(settings, states, actions) && i < |actions|
    ensures |states| == |actions| + 1
    ensures CanAct(states[i], actions[i]) && states[i + 1] == Next(states[i], settings, actions[i])
  {
    hide CanAct, Next;
  }

  lemma TerminalMeansReturned(s: System)
    requires Inv(s) && s.stored.Some? && s.stored.value.status.IsTerminal()
    ensures s.task.Some? ==> s.task.value.point.Returned?
  {
    hide HistoryAgrees;
  }

  lemma TerminalStateStaysOnce(settings: Settings, s: System, a: Action)
    requires Inv(s) && CanAct(s, a) && !a.Start? && !a.RestartDuringStart?
    requires s.stored.Some? && s.stored.value.status.IsTerminal()
    ensures Next(s, settings, a).stored == s.stored
    ensures Next(s, settings, a).task.Some? ==> Next(s, settings, a).task.value.point.Returned?
  {
    hide Continue, HistoryAgrees, TerminalWrites;
    if a.ResumeTask? {
      NotYetReturned(s, a.resume);
    } else if a.RestartDuring? {
      NotYetReturned(s, a.resume);
    }
  }

  /**
  Cancellation is honoured and never leaks: CANCELLED is written only for an operation whose own
  cancellation was accepted, and PASSED or FAILED never for such an operation, at any time.
  */
  lemma CancellationHonoured(settings: Settings, states: seq<System>, actions: seq<Action>, i: nat, w: OperationState)
    requires Run(settings, states, actions) && i < |states| && w in states[i].writes
    ensures w.status == Cancelled ==> w.operationId in states[i].cancelAccepted
    ensures w.operationId in states[i].cancelAccepted ==> w.status != Passed && w.status != Failed
  {
    RunKeepsInv(settings, states, actions, i);
  }

  /** The shared flag is set exactly when the current operation's own cancellation was accepted. */
  lemma FlagBelongsToCurrentOperation(settings: Settings, states: seq<System>, actions: seq<Action>, i: nat)
    requires Run(settings, states, actions) && i < |states|
    ensures var s := states[i];
      s.cancelRequested <==> s.task.Some? && s.task.value.state.operationId in s.cancelAccepted
  {
    RunKeepsInv(settings, states, actions, i);
  }

  /** Whenever the process restarts, an active state is recorded as interrupted, and nothing else changes. */
  lemma RestartInRun(settings: Settings, states: seq<System>, actions: seq<Action>, i: nat)
    requires Run(settings, states, actions) && i < |actions| && actions[i].Restart?
    ensures Restarted(states[i].stored, states[i + 1].stored)
    ensures states[i + 1].task.None? && states[i + 1].unfinished == {}
  {
    RunStep(settings, states, actions, i);
  }

  // ----- What a cancellation does not prevent -----

  /** Cancelled too early to succeed: no success so far, and the current task, if it is this one, is past it. */
  predicate CannotSucceed(s: System, id: string) {
    && id in s.accepted
    && (forall w :: w in s.writes && w.operationId == id ==> w.status != Succeeded)
    && (s.task.Some? && s.task.value.state.operationId == id ==> s.cancelRequested && !CanStillSucceed(s.task.value))
  }

  /** The task waits for the inspection of its image, and no shutdown is about to end it. */
  predicate CanStillSucceed(task: Task) { task.point.ImageInspect? && !task.cancelPending }

  /** With the flag set a stretch records a success only right after the inspection, and never gets there. */
  lemma StretchCannotSucceed(settings: Settings, task: Task, resume: Resume, facts: Facts)
    requires Enabled(task.point, resume) && !CanStillSucceed(task) && !task.state.status.IsTerminal()
    ensures var stretch := Continue(settings, task, true, resume, facts);
      && (forall i :: 0 <= i < |stretch.writes| ==> stretch.writes[i].status != Succeeded)
      && !stretch.point.ImageInspect?
  {
    hide Strip, LastLine;
  }

  lemma WritesCannotSucceed(s: System, settings: Settings, resume: Resume, facts: Facts, id: string)
    requires Inv(s) && CannotSucceed(s, id) && s.task.Some? && Enabled(s.task.value.point, resume)
    ensures var stretch := Continue(settings, s.task.value, s.cancelRequested, resume, facts);
      && (forall i :: 0 <= i < |stretch.writes| && stretch.writes[i].operationId == id ==>
            stretch.writes[i].status != Succeeded)
      && (s.task.value.state.operationId == id ==> !stretch.point.ImageInspect?)
  {
    hide Continue, HistoryAgrees, TerminalWrites;
    var task := s.task.value;
    StretchWrites(settings, task, s.cancelRequested, resume, facts);
    if task.state.operationId == id {
      StretchCannotSucceed(settings, task, resume, facts);
    }
  }

  lemma SaveCannotSucceed(s: System, states: seq<OperationState>, id: string)
    requires forall w :: w in s.writes && w.operationId == id ==> w.status != Succeeded
    requires forall i :: 0 <= i < |states| && states[i].operationId == id ==> states[i].status != Succeeded
    ensures forall w :: w in Save(s, states).writes && w.operationId == id ==> w.status != Succeeded
  {
  }

  lemma RestartCannotSucceed(s: System, id: string)
    requires id in s.accepted
    requires forall w :: w in s.writes && w.operationId == id ==> w.status != Succeeded
    ensures CannotSucceed(AfterRestart(s), id)
  {
  }

  /** A cancellation that came too early stays effective, whatever happens afterwards. */
  lemma NextCannotSucceed(s: System, settings: Settings, a: Action, id: string)
    requires Inv(s) && CanAct(s, a) && CannotSucceed(s, id)
    ensures CannotSucceed(Next(s, settings, a), id)
  {
    hide Continue, Inv, AfterRestart;
    match a
    case Start(_, _) =>
    case CancelBegin =>
    case CancelEnd =>
    case ShutdownCancel(_) =>
    case ResumeTask(resume, facts) =>
      var stretch := Continue(settings, s.task.value, s.cancelRequested, resume, facts);
      WritesCannotSucceed(s, settings, resume, facts, id);
      SaveCannotSucceed(s, stretch.writes, id);
    case Restart => RestartCannotSucceed(s, id);
    case RestartDuringStart(other, operationType) =>
      var t := Save(s, [Started(other, operationType)]).(accepted := s.accepted + {other});
      SaveCannotSucceed(s, [Started(other, operationType)], id);
      RestartCannotSucceed(t, id);
    case RestartDuring(resume, facts, written) =>
      var stretch := Continue(settings, s.task.value, s.cancelRequested, resume, facts);
      WritesCannotSucceed(s, settings, resume, facts, id);
      SaveCannotSucceed(s, Begun(stretch.writes, written), id);
      RestartCannotSucceed(Save(s, Begun(stretch.writes, written)), id);
  }

  lemma {:induction false} StepsCannotSucceed(
    settings: Settings, states: seq<System>, actions: seq<Action>, i: nat, id: string
  )
    requires Steps(settings, states, actions) && i < |states|
    requires Inv(states[0]) && CannotSucceed(states[0], id)
    ensures Inv(states[i]) && CannotSucceed(states[i], id)
  {
    hide Inv, CanAct, Next, CannotSucceed;
    if i > 0 {
      StepsCannotSucceed(settings, states, actions, i - 1, id);
      NextKeepsInv(states[i - 1], settings, actions[i - 1]);
      NextCannotSucceed(states[i - 1], settings, actions[i - 1], id);
    }
  }

  /** What an accepted cancellation finds decides whether its operation can still succeed. */
  lemma CancelDecides(s: System, settings: Settings)
    requires Inv(s) && !s.locked && CancelIsAccepted(s) && !CanStillSucceed(s.task.value)
    ensures CannotSucceed(Next(s, settings, CancelBegin), s.stored.value.operationId)
  {
    forall w | w in s.writes && w.operationId == s.stored.value.operationId
      ensures w.status != Succeeded
    {
      if w.status.IsTerminal() {
        TerminalIsCounted(s.writes, w);
      }
    }
  }

  predicate HasSucceeded(s: System, id: string) {
    exists i :: 0 <= i < |s.writes| && s.writes[i].operationId == id && s.writes[i].status == Succeeded
  }

  /**
  SUCCEEDED is recorded for a cancelled operation only if every cancellation accepted for it came while
  its task was waiting for the inspection of the image, with no shutdown pending.
  */
  lemma SucceededOnlyAfterLateCancel(settings: Settings, states: seq<System>, actions: seq<Action>, k: nat, i: nat)
    requires Run(settings, states, actions) && k < i < |states|
    requires actions[k].CancelBegin? && CancelIsAccepted(states[k])
    requires HasSucceeded(states[i], states[k].stored.value.operationId)
    ensures CanStillSucceed(states[k].task.value)
  {
    hide Initial, Next, CanAct, CannotSucceed;
    RunKeepsInv(settings, states, actions, k);
    RunKeepsInv(settings, states, actions, k + 1);
    RunStep(settings, states, actions, k);
    var id := states[k].stored.value.operationId;
    CancelNeedsLock(states[k]);
    if !CanStillSucceed(states[k].task.value) {
      CancelDecides(states[k], settings);
      var later, rest := states[k + 1..], actions[k + 1..];
      StepsFrom(settings, states, actions, k + 1);
      StepsCannotSucceed(settings, later, rest, i - k - 1, id);
      NoSuccess(states[i], id);
      assert false;
    }
  }

  lemma CancelNeedsLock(s: System)
    ensures CanAct(s, CancelBegin) <==> !s.locked
  {
  }

  lemma NoSuccess(s: System, id: string)
    requires CannotSucceed(s, id)
    ensures !HasSucceeded(s, id)
  {
  }

  lemma StepsFrom(settings: Settings, states: seq<System>, actions: seq<Action>, k: nat)
    requires Steps(settings, states, actions) && k < |states|
    ensures Steps(settings, states[k..], actions[k..])
  {
    hide CanAct, Next;
    var later, rest := states[k..], actions[k..];
    forall i | 0 <= i < |rest|
      ensures CanAct(later[i], rest[i]) && later[i + 1] == Next(later[i], settings, rest[i])
    {
      assert later[i] == states[k + i] && rest[i] == actions[k + i] && later[i + 1] == states[k + i + 1];
    }
  }

  /**
  The exact condition, known at the moment of the cancellation: some continuation records SUCCEEDED for
  the cancelled operation if and only if its task is waiting for the inspection with no shutdown pending.
  */
  lemma SucceededAfterCancel(settings: Settings, s: System)
    requires Inv(s) && !s.locked && CancelIsAccepted(s)
    ensures CanStillSucceed(s.task.value) <==> exists states, actions ::
      && Steps(settings, states, actions) && states[0] == Next(s, settings, CancelBegin)
      && HasSucceeded(states[|states| - 1], s.stored.value.operationId)
  {
    hide Next, CannotSucceed, HasSucceeded, CanAct;
    CancelNeedsLock(s);
    var start, id := Next(s, settings, CancelBegin), s.stored.value.operationId;
    NextKeepsInv(s, settings, CancelBegin);
    if CanStillSucceed(s.task.value) {
      InspectionSucceeds(settings, s);
      var action := ResumeTask(Result(0, EXAMPLE_OUTPUT), EXAMPLE_FACTS);
      var states, actions := [start, Next(start, settings, action)], [action];
      assert Steps(settings, states, actions);
    } else {
      CancelDecides(s, settings);
      forall states, actions | Steps(settings, states, actions) && states[0] == start
        ensures !HasSucceeded(states[|states| - 1], id)
      {
        StepsCannotSucceed(settings, states, actions, |states| - 1, id);
        NoSuccess(states[|states| - 1], id);
      }
    }
  }

  lemma InspectionSucceeds(settings: Settings, s: System)
    requires Inv(s) && !s.locked && CancelIsAccepted(s) && CanStillSucceed(s.task.value)
    ensures var start := Next(s, settings, CancelBegin);
      var action := ResumeTask(Result(0, EXAMPLE_OUTPUT), EXAMPLE_FACTS);
      CanAct(start, action) && HasSucceeded(Next(start, settings, action), s.stored.value.operationId)
  {
    hide Strip, LastLine, HistoryAgrees, TerminalWrites;
    ExampleOutputIsNotBlank();
    var start := Next(s, settings, CancelBegin);
    var action := ResumeTask(Result(0, EXAMPLE_OUTPUT), EXAMPLE_FACTS);
    var after := Next(start, settings, action);
    assert after.writes[|after.writes| - 1].status == Succeeded;
  }

  predicate CancelAcceptedYetSucceeded(s: System) {
    s.stored.Some? && s.stored.value.status == Succeeded && s.stored.value.operationId in s.cancelAccepted
  }

  const EXAMPLE_ID := "pull-1"
  const EXAMPLE_OUTPUT := "sha256:1"
  const EXAMPLE_FACTS := Facts(false, JunitMissing, AllureMissing)

  /** A pull that is cancelled while its image is being inspected, step by step. */
  function ExampleState(i: nat): System {
    var state := Started(EXAMPLE_ID, PullImage);
    var done := Finish(state, Succeeded, Some(0)).(imageDigest := Some(Digest(EXAMPLE_OUTPUT)));
    var point :=
      if i <= 1 then NotStarted else if i == 2 then ImageCommand else if i <= 4 then ImageInspect else Returned;
    if i == 0 then System(None, None, {}, false, false, [], {}, {})
    else System(
      Some(if i <= 4 then state else done), Some(Task(state, point, false)), if i <= 4 then {EXAMPLE_ID} else {},
      i >= 4, i >= 4, if i <= 4 then [state] else [state] + [done], {EXAMPLE_ID}, if i >= 4 then {EXAMPLE_ID} else {})
  }

  function ExampleAction(i: nat): Action {
    if i == 0 then Start(EXAMPLE_ID, PullImage)
    else if i == 1 then ResumeTask(Begin, EXAMPLE_FACTS)
    else if i == 2 then ResumeTask(Result(0, ""), EXAMPLE_FACTS)
    else if i == 3 then CancelBegin
    else ResumeTask(Result(0, EXAMPLE_OUTPUT), EXAMPLE_FACTS)
  }

  lemma ExampleOutputIsNotBlank()
    ensures Strip(EXAMPLE_OUTPUT) != ""
  {
  }

  lemma ExampleStep(settings: Settings, i: nat)
    requires i < 5
    ensures CanAct(ExampleState(i), ExampleAction(i))
    ensures ExampleState(i + 1) == Next(ExampleState(i), settings, ExampleAction(i))
  {
    hide Strip, LastLine;
    var s, a := ExampleState(i), ExampleAction(i);
    if i == 1 || i == 2 || i == 4 {
      ExampleOutputIsNotBlank();
      var stretch := Continue(settings, s.task.value, s.cancelRequested, a.resume, a.facts);
      assert stretch == (
        if i == 1 then Stretch([], ImageCommand)
        else if i == 2 then Stretch([], ImageInspect)
        else Finished(ExampleState(5).stored.value));
      hide Continue;
      assert Next(s, settings, a) == ExampleState(i + 1);
    }
  }

  lemma ExampleEnds()
    ensures Initial(ExampleState(0)) && CancelAcceptedYetSucceeded(ExampleState(5))
  {
    hide Strip, LastLine, Digest;
  }

  /** A run in which an operation succeeds after its cancellation was accepted. */
  lemma CancelledYetSucceeded(settings: Settings)
    ensures exists states: seq<System>, actions: seq<Action> ::
      Run(settings, states, actions) && CancelAcceptedYetSucceeded(states[|states| - 1])
  {
    hide CanAct, Next, Initial, CancelAcceptedYetSucceeded, ExampleState, ExampleAction;
    var states := seq(6, i requires 0 <= i < 6 => ExampleState(i));
    var actions := seq(5, i requires 0 <= i < 5 => ExampleAction(i));
    ExampleEnds();
    forall i | 0 <= i < 5
      ensures CanAct(states[i], actions[i]) && states[i + 1] == Next(states[i], settings, actions[i])
    {
      ExampleStep(settings, i);
    }
    assert Run(settings, states, actions);
  }

  // ----- The exit code of the test command -----

  /** A report path that is configured and consulted resolves outside the session directory. */
  predicate PathEscapes(settings: Settings, facts: Facts) {
    && facts.directory
    && ((settings.junitPath && facts.junit.JunitEscapes?)
        || (settings.allure && settings.allureResultsPath && facts.allure.AllureEscapes?))
  }

  predicate IsVerdict(w: OperationState, exitCode: int, cancelRequested: bool) {
    && w.exitCode == Some(exitCode)
    && w.status == (if cancelRequested then Cancelled else if exitCode == 0 then Passed else Failed)
  }

  /** The exit code that this stretch starts with: carried since the command, or just obtained. */
  function CommandExitCode(point: Point, resume: Resume): Option<int> {
    if point.TestCommand? && resume.Result? then Some(resume.exitCode) else point.TestExitCode()
  }

  /**
  The stretch carries the code on, or it is the last one and records the code with the verdict that
  it and the cancel flag call for; when the code is lost, it records an error without any.
  */
  predicate CarriesOrRecords(stretch: Stretch, code: int, cancelRequested: bool, lost: bool) {
    if stretch.point.Returned? then
      && stretch.writes != []
      && var last := stretch.writes[|stretch.writes| - 1];
        if lost then last.status == InfrastructureError && last.exitCode == None
        else IsVerdict(last, code, cancelRequested)
    else !lost && stretch.point.TestExitCode() == Some(code)
  }

  lemma AfterCommandCarries(settings: Settings, state: OperationState, cancelRequested: bool, code: int, facts: Facts)
    ensures CarriesOrRecords(AfterCommand(settings, state, cancelRequested, code, facts), code, cancelRequested,
      !cancelRequested && PathEscapes(settings, facts))
  {
  }

  /**
  The stretch after the test command, and every later one, carries the exit code on or records it.
  There are two exceptions: the stretch that resolves an escaping report path without a cancellation
  loses the code, and a shutdown that is delivered in its place records nothing at all.
  */
  lemma ExitCodeCarried(settings: Settings, task: Task, cancelRequested: bool, resume: Resume, facts: Facts)
    requires Enabled(task.point, resume) && CommandExitCode(task.point, resume).Some?
    ensures var code := CommandExitCode(task.point, resume).value;
      var stretch := Continue(settings, task, cancelRequested, resume, facts);
      var resolves := task.point.ReportPortalLookup? || (task.point.TestCommand? && !settings.reportPortal);
      var lost := resolves && !cancelRequested && PathEscapes(settings, facts);
      if task.cancelPending then stretch == Stretch([], CancelledByShutdown)
      else CarriesOrRecords(stretch, code, cancelRequested, lost)
  {
    hide AfterCommand, PathEscapes, ImageStretch;
    var code := CommandExitCode(task.point, resume).value;
    AfterCommandCarries(settings, task.state, cancelRequested, code, facts);
  }

  /** What one stretch of a task meets: the flag at that time, the result awaited and the files found. */
  datatype Turn = Turn(cancelRequested: bool, resume: Resume, facts: Facts)

  /** The points and the writes of a task that goes through these turns. */
  ghost predicate Turns(settings: Settings, tasks: seq<Task>, turns: seq<Turn>) {
    && |tasks| == |turns| + 1
    && forall i :: 0 <= i < |turns| ==>
        && Enabled(tasks[i].point, turns[i].resume) && !tasks[i].cancelPending
        && tasks[i + 1] == tasks[i].(point :=
             Continue(settings, tasks[i], turns[i].cancelRequested, turns[i].resume, turns[i].facts).point)
  }

  /**
  Exit code preservation over a whole task: once the test command has completed with a code and no
  configured report path escapes, whatever the later lookups, reports and publications do, the
  task that returns has recorded that code as its last write, with CANCELLED, PASSED or FAILED.
  */
  lemma {:induction false} ExitCodePreserved(settings: Settings, tasks: seq<Task>, turns: seq<Turn>, code: int)
    requires Turns(settings, tasks, turns) && turns != []
    requires CommandExitCode(tasks[0].point, turns[0].resume) == Some(code)
    requires forall turn :: turn in turns ==> !PathEscapes(settings, turn.facts)
    requires tasks[|tasks| - 1].point.Done()
    ensures tasks[|tasks| - 1].point.Returned?
    ensures var last := |turns| - 1;
      var writes := Continue(settings, tasks[last], turns[last].cancelRequested, turns[last].resume,
        turns[last].facts).writes;
      writes != [] && IsVerdict(writes[|writes| - 1], code, turns[last].cancelRequested)
    decreases |turns|
  {
    hide Continue, IsVerdict, PathEscapes;
    var turn := turns[0];
    ExitCodeCarried(settings, tasks[0], turn.cancelRequested, turn.resume, turn.facts);
    assert !PathEscapes(settings, turn.facts);
    if |turns| > 1 {
      assert Enabled(tasks[1].point, turns[1].resume);
      assert tasks[1..][|tasks[1..]| - 1] == tasks[|tasks| - 1];
      forall i | 0 <= i < |turns[1..]|
        ensures Enabled(tasks[1..][i].point, turns[1..][i].resume) && !tasks[1..][i].cancelPending
        ensures tasks[1..][i + 1] == tasks[1..][i].(point := Continue(settings, tasks[1..][i],
          turns[1..][i].cancelRequested, turns[1..][i].resume, turns[1..][i].facts).point)
      {
        assert tasks[1..][i] == tasks[i + 1] && turns[1..][i] == turns[i + 1] && tasks[1..][i + 1] == tasks[i + 2];
      }
      assert Turns(settings, tasks[1..], turns[1..]);
      assert CommandExitCode(tasks[1..][0].point, turns[1..][0].resume) == Some(code);
      ExitCodePreserved(settings, tasks[1..], turns[1..], code);
      assert turns[1..][|turns[1..]| - 1] == turns[|turns| - 1];
      assert tasks[1..][|turns[1..]| - 1] == tasks[|turns| - 1];
    }
  }

  // ----- The exit code over whole runs -----

  /**
  As far as this operation has a task, the task carries the code with no shutdown pending, or it has
  returned and the code is stored with its verdict.
  */
  predicate CodeKept(s: System, id: string, code: int) {
    && id in s.accepted
    && (s.task.Some? && s.task.value.state.operationId == id ==>
          if s.task.value.point.Returned? then
            s.stored.Some? && s.stored.value.operationId == id && IsVerdict(s.stored.value, code, s.cancelRequested)
          else s.task.value.point.TestExitCode() == Some(code) && !s.task.value.cancelPending)
  }

  /** An action that spares the exit code of this operation: no shutdown of it, no escaping report path. */
  predicate SparesCode(settings: Settings, a: Action, id: string) {
    && a != ShutdownCancel(id)
    && (a.ResumeTask? ==> !PathEscapes(settings, a.facts))
  }

  lemma TaskStepKeepsCode(s: System, settings: Settings, resume: Resume, facts: Facts, code: int)
    requires Inv(s) && s.task.Some? && Enabled(s.task.value.point, resume)
    requires !s.task.value.cancelPending && CommandExitCode(s.task.value.point, resume) == Some(code)
    requires !PathEscapes(settings, facts)
    ensures CodeKept(Next(s, settings, ResumeTask(resume, facts)), s.task.value.state.operationId, code)
  {
    hide Continue, PathEscapes, HistoryAgrees, OwnWrites, TerminalWrites;
    var task := s.task.value;
    var stretch := Continue(settings, task, s.cancelRequested, resume, facts);
    ExitCodeCarried(settings, task, s.cancelRequested, resume, facts);
    StretchWrites(settings, task, s.cancelRequested, resume, facts);
    OwnIds(task.state, s.cancelRequested, stretch);
  }

  lemma OwnIds(state: OperationState, cancelRequested: bool, stretch: Stretch)
    requires OwnWrites(state, cancelRequested, stretch)
    ensures stretch.writes != [] ==> stretch.writes[|stretch.writes| - 1].operationId == state.operationId
  {
  }

  lemma CancelKeepsCode(s: System, settings: Settings, id: string, code: int)
    requires Inv(s) && CanAct(s, CancelBegin) && CodeKept(s, id, code)
    ensures CodeKept(Next(s, settings, CancelBegin), id, code)
  {
    hide HistoryAgrees, IsVerdict, TerminalWrites;
  }

  lemma StartKeepsCode(
    s: System, settings: Settings, id: string, other: string, operationType: OperationType, code: int
  )
    requires CanAct(s, Start(other, operationType)) && CodeKept(s, id, code)
    ensures CodeKept(Next(s, settings, Start(other, operationType)), id, code)
  {
    hide IsVerdict;
  }

  /** What happens to a task of another operation does not matter. */
  lemma OtherTaskKeepsCode(s: System, stretch: Stretch, id: string, code: int)
    requires s.task.Some? && s.task.value.state.operationId != id && CodeKept(s, id, code)
    ensures CodeKept(Advance(s, stretch), id, code)
  {
    hide IsVerdict;
  }

  lemma RestartKeepsCode(s: System, id: string, code: int)
    requires id in s.accepted
    ensures CodeKept(AfterRestart(s), id, code)
  {
    hide IsVerdict;
  }

  lemma NextKeepsCode(s: System, settings: Settings, a: Action, id: string, code: int)
    requires Inv(s) && CanAct(s, a) && CodeKept(s, id, code) && SparesCode(settings, a, id)
    ensures CodeKept(Next(s, settings, a), id, code)
  {
    hide Continue, PathEscapes, Inv, IsVerdict, AfterRestart, Advance;
    match a
    case Start(other, operationType) => StartKeepsCode(s, settings, id, other, operationType, code);
    case CancelBegin => CancelKeepsCode(s, settings, id, code);
    case CancelEnd =>
    case ShutdownCancel(_) =>
    case ResumeTask(resume, facts) =>
      NotYetReturned(s, resume);
      if s.task.value.state.operationId == id {
        CarriedCode(s.task.value.point, resume, code);
        TaskStepKeepsCode(s, settings, resume, facts, code);
      } else {
        OtherTaskKeepsCode(s, Continue(settings, s.task.value, s.cancelRequested, resume, facts), id, code);
      }
    case Restart => RestartKeepsCode(s, id, code);
    case RestartDuringStart(other, operationType) =>
      RestartKeepsCode(Save(s, [Started(other, operationType)]).(accepted := s.accepted + {other}), id, code);
    case RestartDuring(resume, facts, written) =>
      var states := Continue(settings, s.task.value, s.cancelRequested, resume, facts).writes;
      RestartKeepsCode(Save(s, Begun(states, written)), id, code);
  }

  lemma CarriedCode(point: Point, resume: Resume, code: int)
    ensures point.TestExitCode() == Some(code) ==> CommandExitCode(point, resume) == Some(code)
  {
  }

  lemma {:induction false} StepsKeepCode(
    settings: Settings, states: seq<System>, actions: seq<Action>, i: nat, id: string, code: int
  )
    requires Steps(settings, states, actions) && i < |states|
    requires Inv(states[0]) && CodeKept(states[0], id, code)
    requires forall k :: 0 <= k < i ==> SparesCode(settings, actions[k], id)
    ensures Inv(states[i]) && CodeKept(states[i], id, code)
  {
    hide Inv, CanAct, Next, CodeKept, SparesCode;
    if i > 0 {
      StepsKeepCode(settings, states, actions, i - 1, id, code);
      NextKeepsInv(states[i - 1], settings, actions[i - 1]);
      NextKeepsCode(states[i - 1], settings, actions[i - 1], id, code);
    }
  }

  /**
  In every run: when the test command of a task completes with a code at step k, and from then on no
  shutdown of the operation is begun and no consulted report path escapes, then the task, once it has
  returned, has left that code stored with the verdict that it and the cancel flag call for.
  */
  lemma ExitCodeInRun(settings: Settings, states: seq<System>, actions: seq<Action>, k: nat, j: nat, code: int)
    requires Run(settings, states, actions) && k < j < |states|
    requires actions[k].ResumeTask? && states[k].task.Some? && states[k].task.value.point.TestCommand?
    requires actions[k].resume.Result? && actions[k].resume.exitCode == code && !states[k].task.value.cancelPending
    requires
      var id := states[k].task.value.state.operationId;
      forall i :: k <= i < j ==> SparesCode(settings, actions[i], id)
    ensures
      var id, task := states[k].task.value.state.operationId, states[j].task;
      task.Some? && task.value.state.operationId == id && task.value.point.Returned? ==>
        && states[j].stored.Some? && states[j].stored.value.operationId == id
        && IsVerdict(states[j].stored.value, code, states[j].cancelRequested)
  {
    hide Initial, Inv, CanAct, Next, PathEscapes, IsVerdict;
    var id := states[k].task.value.state.operationId;
    RunKeepsInv(settings, states, actions, k);
    RunKeepsInv(settings, states, actions, k + 1);
    RunStep(settings, states, actions, k);
    ResumesEnabled(states[k], actions[k]);
    assert SparesCode(settings, actions[k], id);
    TaskStepKeepsCode(states[k], settings, actions[k].resume, actions[k].facts, code);
    var later, rest := states[k + 1..], actions[k + 1..];
    StepsFrom(settings, states, actions, k + 1);
    forall i | 0 <= i < j - k - 1
      ensures SparesCode(settings, rest[i], id)
    {
      assert rest[i] == actions[k + 1 + i];
    }
    StepsKeepCode(settings, later, rest, j - k - 1, id, code);
    assert later[j - k - 1] == states[j];
  }

  lemma ResumesEnabled(s: System, a: Action)
    requires CanAct(s, a) && a.ResumeTask?
    ensures s.task.Some? && Enabled(s.task.value.point, a.resume)
  {
  }

  // ----- A run that loses it -----

  const ESCAPING_FACTS := Facts(true, JunitEscapes, AllureMissing)

  /** A test run whose command succeeds and whose JUnit path then turns out to escape. */
  function LosingState(i: nat): System {
    var state := Started(EXAMPLE_ID, RunTests);
    var lost := Infrastructure(state, "report path escapes the session directory");
    var point := if i <= 1 then NotStarted else if i == 2 then TestCommand else Returned;
    if i == 0 then System(None, None, {}, false, false, [], {}, {})
    else System(
      Some(if i <= 2 then state else lost), Some(Task(state, point, false)), if i <= 2 then {EXAMPLE_ID} else {},
      false, false, if i <= 2 then [state] else [state] + [lost], {EXAMPLE_ID}, {})
  }

  function LosingAction(i: nat): Action {
    if i == 0 then Start(EXAMPLE_ID, RunTests)
    else if i == 1 then ResumeTask(Begin, ESCAPING_FACTS)
    else ResumeTask(Result(0, ""), ESCAPING_FACTS)
  }

  lemma LosingStep(settings: Settings, i: nat)
    requires settings.junitPath && !settings.reportPortal && i < 3
    ensures CanAct(LosingState(i), LosingAction(i))
    ensures LosingState(i + 1) == Next(LosingState(i), settings, LosingAction(i))
  {
    var s, a := LosingState(i), LosingAction(i);
    if i > 0 {
      var stretch := Continue(settings, s.task.value, s.cancelRequested, a.resume, a.facts);
      assert stretch == if i == 1 then Stretch([], TestCommand) else Finished(LosingState(3).stored.value);
      hide Continue;
      assert Next(s, settings, a) == LosingState(i + 1);
    }
  }

  predicate LosesCode(s: System, resume: Resume) {
    && resume == Result(0, "")
    && s.stored.Some? && s.stored.value.status == InfrastructureError && s.stored.value.exitCode == None
  }

  /** A run in which the test command completes with code 0 and the recorded state has no exit code. */
  lemma EscapingPathLosesCode(settings: Settings)
    requires settings.junitPath && !settings.reportPortal
    ensures exists states: seq<System>, actions: seq<Action> ::
      && Run(settings, states, actions) && |actions| == 3
      && actions[2].ResumeTask? && LosesCode(states[3], actions[2].resume)
  {
    hide CanAct, Next, Initial, LosingState, LosingAction, LosesCode;
    var states := seq(4, i requires 0 <= i < 4 => LosingState(i));
    var actions := seq(3, i requires 0 <= i < 3 => LosingAction(i));
    LosingEnds();
    forall i | 0 <= i < 3
      ensures CanAct(states[i], actions[i]) && states[i + 1] == Next(states[i], settings, actions[i])
    {
      LosingStep(settings, i);
    }
    assert Run(settings, states, actions);
  }

  lemma LosingEnds()
    ensures Initial(LosingState(0)) && LosingAction(2).ResumeTask?
    ensures LosesCode(LosingState(3), LosingAction(2).resume)
  {
  }
}
