/**
The coordinator object: its fields, updated in place, and its methods cut at every await. Each piece
does to the object what the state machine of module Coordinator says, and any interleaving of the
pieces is a run of the machine, so what is proved there of all runs holds here.
*/
module Worker {
  import opened Sequences
  import opened Operations
  import opened Coordinator
  import StateStore

  predicate EndsWith(all: seq<OperationState>, last: seq<OperationState>) {
    |last| <= |all| && all[|all| - |last|..] == last
  }

  lemma EndsWithSnoc(all: seq<OperationState>, last: seq<OperationState>, state: OperationState)
    requires EndsWith(all, last)
    ensures EndsWith(all + [state], last + [state])
  {
  }

  datatype StartAnswer = Accepted(operationId: string) | RunnerBusy(active: Option<OperationState>)

  class OperationCoordinator {
    const settings: Settings
    const stateStore: StateStore.StateStore
    var task: Option<Task>
    var cancelRequested: bool
    var locked: bool
    ghost var unfinished: set<string>
    ghost var writes: seq<OperationState>
    ghost var accepted: set<string>
    ghost var cancelAccepted: set<string>

    /** The writes of the machine's history are the last writes of the store. */
    ghost predicate Valid()
      reads this, stateStore, stateStore.directory
    {
      stateStore.Valid() && EndsWith(stateStore.written, writes)
    }

    /** The object as a state of the state machine. */
    ghost function Abs(): System
      reads this, stateStore, stateStore.directory
    {
      System(stateStore.Stored(), task, unfinished, cancelRequested, locked, writes, accepted, cancelAccepted)
    }

    /** The service starts on a store that an earlier one left, after marking it interrupted. */
    constructor (settings: Settings, stateStore: StateStore.StateStore)
      requires stateStore.Valid()
      modifies stateStore, stateStore.directory
      ensures Valid() && this.settings == settings && this.stateStore == stateStore
      ensures Initial(Abs()) && Inv(Abs())
      ensures Restarted(old(stateStore.Stored()), stateStore.Stored())
    {
      this.settings, this.stateStore := settings, stateStore;
      task, cancelRequested, locked := None, false, false;
      unfinished, writes, cancelAccepted := {}, [], {};
      accepted := {};
      new;
      var found := stateStore.MarkStoredInterrupted();
      accepted := if found.Some? then {found.value.operationId} else {};
    }

    /** Write one state and remember that it was written. */
    method Record(state: OperationState)
      requires Valid()
      modifies stateStore, stateStore.directory, this`writes
      ensures Valid() && Abs() == Save(old(Abs()), [state])
    {
      EndsWithSnoc(stateStore.written, writes, state);
      stateStore.Write(state);
      writes := writes + [state];
    }

    /** The body of start_build, start_pull and start_run while it holds the lock. */
    method Start(operationId: string, operationType: OperationType) returns (r: StartAnswer)
      requires Valid() && !locked && operationId !in accepted
      modifies this, stateStore, stateStore.directory
      ensures Valid() && Abs() == Next(old(Abs()), settings, Action.Start(operationId, operationType))
      ensures r == if old(Busy(Abs())) then RunnerBusy(old(stateStore.Stored())) else Accepted(operationId)
    {
      var current := stateStore.Stored();
      if task.Some? && !task.value.point.Done() {
        return RunnerBusy(current);
      }
      cancelRequested := false;
      var state := Started(operationId, operationType);
      Record(state);
      task := Some(Task(state, NotStarted, false));
      unfinished, accepted := unfinished + {operationId}, accepted + {operationId};
      return Accepted(operationId);
    }

    /** cancel up to its await on the process runner: None is NoActiveOperationError. */
    method CancelBegin() returns (r: Option<OperationState>)
      requires Valid() && !locked
      modifies this
      ensures Valid() && Abs() == Next(old(Abs()), settings, Action.CancelBegin)
      ensures r.Some? <==> old(CancelIsAccepted(Abs()))
      ensures r.Some? ==> r == stateStore.Stored()
    {
      var state := stateStore.Stored();
      if state.None? || state.value.status.IsTerminal() || task.None? {
        return None;
      }
      locked, cancelRequested := true, true;
      cancelAccepted := cancelAccepted + {state.value.operationId};
      return state;
    }

    method CancelEnd()
      requires Valid() && locked
      modifies this
      ensures Valid() && Abs() == Next(old(Abs()), settings, Action.CancelEnd)
    {
      locked := false;
    }

    /** The part of shutdown after its await: cancel the task that it found before, if it still runs. */
    method ShutdownCancel(operationId: string)
      requires Valid()
      modifies this
      ensures Valid() && Abs() == Next(old(Abs()), settings, Action.ShutdownCancel(operationId))
    {
      if task.Some? && !task.value.point.Done() && task.value.state.operationId == operationId {
        task := Some(task.value.(cancelPending := true));
      }
    }

    /** The task stops at its next await, or has ended. */
    method Suspend(point: Point)
      requires Valid() && task.Some?
      modifies this`task, this`unfinished
      ensures Valid() && Abs() == Advance(old(Abs()), Stretch([], point))
    {
      task := Some(task.value.(point := point));
      if point.Done() {
        unfinished := unfinished - {task.value.state.operationId};
      }
    }

    /** Record the outcome and return from the task. */
    method FinishTask(state: OperationState)
      requires Valid() && task.Some?
      modifies this`task, this`unfinished, this`writes, stateStore, stateStore.directory
      ensures Valid() && Abs() == Advance(old(Abs()), Finished(state))
    {
      Record(state);
      Suspend(Returned);
    }

    /** The image operation from one await to the next. */
    method ExecuteImageOperation(resume: Resume)
      requires Valid() && task.Some? && Enabled(task.value.point, resume)
      requires task.value.point.ImageCommand? || task.value.point.ImageInspect? || task.value.point.ImageTimeoutCancel?
      modifies this`task, this`unfinished, this`writes, stateStore, stateStore.directory
      ensures Valid() && Abs() ==
        Advance(old(Abs()), ImageStretch(old(task).value.state, old(task).value.point, cancelRequested, resume))
    {
      hide Advance, StateStore.StateStore.Valid;
      var state, point := task.value.state, task.value.point;
      if point.ImageTimeoutCancel? {
        FinishTask(Finish(state, TimedOut, None).(message := Some("Image operation timed out")));
        return;
      }
      if resume.Timeout? {
        Suspend(ImageTimeoutCancel);
        return;
      }
      if resume.Raises? {
        FinishTask(Infrastructure(state, resume.message));
        return;
      }
      if point.ImageCommand? {
        if cancelRequested {
          FinishTask(Finish(state, Cancelled, Some(resume.exitCode)));
        } else if resume.exitCode != 0 {
          FinishTask(Finish(state, Failed, Some(resume.exitCode)));
        } else {
          Suspend(ImageInspect);
        }
        return;
      }
      if resume.exitCode != 0 || Strip(resume.output) == "" {
        FinishTask(Finish(state, InfrastructureError, Some(resume.exitCode)).(
          message := Some("The prepared image could not be inspected")));
      } else {
        FinishTask(Finish(state, Succeeded, Some(0)).(imageDigest := Some(Digest(resume.output))));
      }
    }

    /** The test run once its command and the ReportPortal lookup are over. */
    method CollectReports(exitCode: int, facts: Facts)
      requires Valid() && task.Some?
      modifies this`task, this`unfinished, this`writes, stateStore, stateStore.directory
      ensures Valid() && Abs() ==
        Advance(old(Abs()), AfterCommand(settings, old(task).value.state, cancelRequested, exitCode, facts))
    {
      hide StateStore.StateStore.Valid;
      var state := task.value.state;
      if cancelRequested {
        FinishTask(Finish(state, Cancelled, Some(exitCode)));
        return;
      }
      if !facts.directory {
        FinishTask(Conclude(state, false, exitCode, None, None));
        return;
      }
      if settings.junitPath && facts.junit.JunitEscapes? {
        FinishTask(Infrastructure(state, "report path escapes the session directory"));
        return;
      }
      var summary := if settings.junitPath && facts.junit.JunitRead? then Some(facts.junit.summary) else None;
      if !settings.allure {
        FinishTask(Conclude(state, false, exitCode, summary, None));
        return;
      }
      if settings.allureResultsPath && facts.allure.AllureEscapes? {
        FinishTask(Infrastructure(state, "report path escapes the session directory"));
        return;
      }
      if !settings.allureResultsPath || facts.allure.AllureMissing? {
        FinishTask(Conclude(state, false, exitCode, summary, Some(ReportFailed)));
        return;
      }
      var publishing := state.(containerName := Some("allure-publish-" + state.operationId));
      Record(publishing);
      if !settings.allureToken {
        FinishTask(Conclude(state, false, exitCode, summary, Some(ReportFailed)));
      } else {
        Suspend(AllurePublish(exitCode, summary));
      }
    }

    /** The test run from one await to the next. */
    method ExecuteTestRun(resume: Resume, facts: Facts)
      requires Valid() && task.Some? && Enabled(task.value.point, resume) && !task.value.point.NotStarted?
      requires !task.value.point.ImageCommand? && !task.value.point.ImageInspect?
      requires !task.value.point.ImageTimeoutCancel?
      modifies this`task, this`unfinished, this`writes, stateStore, stateStore.directory
      ensures Valid() && Abs() == Advance(old(Abs()),
        TestStretch(settings, old(task).value.state, old(task).value.point, cancelRequested, resume, facts))
    {
      hide Advance, AfterCommand, StateStore.StateStore.Valid;
      var state := task.value.state;
      match task.value.point
      case TestCommand =>
        if resume.Timeout? {
          Suspend(TestTimeoutCancel);
        } else if resume.Raises? {
          FinishTask(Infrastructure(state, resume.message));
        } else if settings.reportPortal {
          Suspend(ReportPortalLookup(resume.exitCode));
        } else {
          CollectReports(resume.exitCode, facts);
        }
      case ReportPortalLookup(exitCode) =>
        CollectReports(exitCode, facts);
      case AllurePublish(exitCode, summary) =>
        if resume.Timeout? {
          Suspend(AllureTimeoutCancel(exitCode, summary));
        } else {
          var published := resume.Result? && resume.exitCode == 0;
          FinishTask(Conclude(state, cancelRequested, exitCode, summary,
            Some(if published then ReportPublished else ReportFailed)));
        }
      case AllureTimeoutCancel(exitCode, summary) =>
        FinishTask(Conclude(state, cancelRequested, exitCode, summary, Some(ReportFailed)));
      case TestTimeoutCancel =>
        if settings.reportPortal {
          Suspend(TestTimeoutLookup);
        } else {
          FinishTask(TestTimedOut(state));
        }
      case TestTimeoutLookup =>
        FinishTask(TestTimedOut(state));
    }

    /** The event loop resumes the task: a pending cancellation is raised, or the await has a result. */
    method ResumeTask(resume: Resume, facts: Facts)
      requires Valid() && task.Some? && Enabled(task.value.point, resume)
      modifies this`task, this`unfinished, this`writes, stateStore, stateStore.directory
      ensures Valid() && Abs() == Next(old(Abs()), settings, Action.ResumeTask(resume, facts))
    {
      hide Advance, ImageStretch, TestStretch, StateStore.StateStore.Valid;
      if task.value.cancelPending {
        Suspend(CancelledByShutdown);
        return;
      }
      match task.value.point
      case NotStarted =>
        Suspend(if task.value.state.operationType.RunTests? then TestCommand else ImageCommand);
      case ImageCommand => ExecuteImageOperation(resume);
      case ImageInspect => ExecuteImageOperation(resume);
      case ImageTimeoutCancel => ExecuteImageOperation(resume);
      case _ => ExecuteTestRun(resume, facts);
    }

    /** One piece, whichever; it keeps the invariant. */
    method Perform(a: Action)
      requires Valid() && Inv(Abs()) && CanAct(Abs(), a) && !EndsProcess(a)
      modifies this, stateStore, stateStore.directory
      ensures Valid() && Inv(Abs()) && Abs() == Next(old(Abs()), settings, a)
    {
      hide *;
      NextKeepsInv(Abs(), settings, a);
      CanActMeans(this, a);
      match a
      case Start(operationId, operationType) =>
        var _ := Start(operationId, operationType);
      case CancelBegin =>
        var _ := CancelBegin();
      case CancelEnd => CancelEnd();
      case ShutdownCancel(operationId) => ShutdownCancel(operationId);
      case ResumeTask(resume, facts) => ResumeTask(resume, facts);
      case _ =>
    }

    /** Any interleaving of the pieces is a run of the machine from where the object was. */
    method Drive(script: seq<Action>) returns (ghost states: seq<System>)
      requires Valid() && Inv(Abs()) && Feasible(settings, Abs(), script)
      modifies this, stateStore, stateStore.directory
      ensures Valid() && Inv(Abs())
      ensures Steps(settings, states, script) && states[0] == old(Abs()) && states[|script|] == Abs()
    {
      hide CanAct, Next, Inv, StateStore.StateStore.Valid;
      states := [Abs()];
      assert script[..0] == [] && script[0..] == script;
      for i := 0 to |script|
        invariant Valid() && Inv(Abs()) && Feasible(settings, Abs(), script[i..])
        invariant Steps(settings, states, script[..i]) && states[0] == old(Abs()) && states[i] == Abs()
      {
        assert script[i..][0] == script[i] && script[i..][1..] == script[i + 1..];
        StepsSnoc(settings, states, script[..i], script[i]);
        Perform(script[i]);
        states := states + [Abs()];
        assert script[..i + 1] == script[..i] + [script[i]];
      }
      assert script[..|script|] == script;
    }
  }

  /**
  A process that dies in the middle of its writes, after any primitive step, leaves the state of one of
  them whole: the last one whose rename was done, as a restart of the machine has it.
  */
  lemma CrashLeavesAWrite(coordinator: OperationCoordinator, k: nat, after: StateStore.Disk)
    requires coordinator.Valid() && k <= |coordinator.stateStore.directory.trace|
    requires
      var directory := coordinator.stateStore.directory;
      StateStore.Crash(StateStore.DoAll(directory.found, directory.trace[..k]), after)
    ensures
      var store := coordinator.stateStore;
      var earlier, n := |store.written| - |coordinator.writes|, StateStore.Renames(store.directory.trace[..k]);
      n > earlier ==>
        n - earlier <= |coordinator.writes|
        && StateStore.Read(store.codec, after) == StateStore.Present(coordinator.writes[n - earlier - 1])
  {
    hide StateStore.DoAll, StateStore.Crash, StateStore.Read, StateStore.Renames, StateStore.StateStore.Valid;
    StateStore.CrashAnytime(coordinator.stateStore, k, after);
  }

  lemma CanActMeans(coordinator: OperationCoordinator, a: Action)
    requires CanAct(coordinator.Abs(), a)
    ensures EndsProcess(a) <==> a.Restart? || a.RestartDuringStart? || a.RestartDuring?
    ensures a.Start? ==> !coordinator.locked && a.operationId !in coordinator.accepted
    ensures a.CancelBegin? ==> !coordinator.locked
    ensures a.CancelEnd? ==> coordinator.locked
    ensures a.ResumeTask? ==> coordinator.task.Some? && Enabled(coordinator.task.value.point, a.resume)
  {
  }
}
