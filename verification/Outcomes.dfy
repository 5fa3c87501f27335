/**
Which outcome every operation records, as statements about runs of the coordinator: what its commands
came to, turn by turn, decides when it is over and every field of the state that is then stored.
*/
module Outcomes {
  import opened Sequences
  import opened Operations
  import opened Coordinator

  // ----- The turns of an operation -----

  /**
  The task of this operation is resumed, and not to raise a cancellation by shutdown. A process that
  dies in that stretch counts once it has written something.
  */
  predicate Resumes(s: System, a: Action, id: string) {
    && (a.ResumeTask? || (a.RestartDuring? && a.written > 0))
    && s.task.Some? && s.task.value.state.operationId == id && !s.task.value.cancelPending
  }

  function TurnAt(s: System, a: Action): Turn
    requires a.ResumeTask? || a.RestartDuring?
  {
    Turn(s.cancelRequested, a.resume, a.facts)
  }

  /** What the awaits of this operation came to in the first i steps, in order. */
  function TurnsOf(states: seq<System>, actions: seq<Action>, i: nat, id: string): seq<Turn>
    requires i <= |actions| && i <= |states|
  {
    if i == 0 then []
    else
      TurnsOf(states, actions, i - 1, id)
      + if Resumes(states[i - 1], actions[i - 1], id) then [TurnAt(states[i - 1], actions[i - 1])] else []
  }

  /** The command of this turn ended with code 0, and no cancellation was asked for by then. */
  predicate Passes(turn: Turn) { turn.resume.Result? && turn.resume.exitCode == 0 && !turn.cancelRequested }

  // ----- Image operations -----

  predicate BlankIn(s: string, a: nat, b: nat)
    requires a <= b <= |s|
  {
    forall k :: a <= k < b ==> IsSpace(s[k])
  }

  predicate Blank(s: string) { BlankIn(s, 0, |s|) }

  /** The text from m to j is the last line of what remains without the white space before i and from j on. */
  predicate LastLineAt(s: string, i: nat, m: nat, j: nat, line: string) {
    && i <= m <= j <= |s| && BlankIn(s, 0, i) && BlankIn(s, j, |s|)
    && (i < j ==> !IsSpace(s[i]) && !IsSpace(s[j - 1]))
    && line == s[m..j] && (forall k :: 0 <= k < |line| ==> !IsLineBreak(line[k]))
    && (m == i || IsLineBreak(s[m - 1]))
  }

  ghost predicate IsLastLine(s: string, line: string) {
    exists i: nat, m: nat, j: nat :: LastLineAt(s, i, m, j, line)
  }

  /** Turn 0 starts the task, turn 1 is the command's, and turn 2 is that of the inspection, if there is one. */
  predicate InspectionFound(turns: seq<Turn>) {
    && |turns| > 2 && Passes(turns[1])
    && turns[2].resume.Result? && turns[2].resume.exitCode == 0 && !Blank(turns[2].resume.output)
  }

  predicate InspectionFailed(turns: seq<Turn>) {
    && |turns| > 2 && Passes(turns[1])
    && turns[2].resume.Result? && (turns[2].resume.exitCode != 0 || Blank(turns[2].resume.output))
  }

  /** The turns up to the end of an image operation; after a timeout there is one more. */
  predicate ImageOver(turns: seq<Turn>) {
    && |turns| > 1
    && if Passes(turns[1]) then |turns| > 2 && (turns[2].resume.Timeout? ==> |turns| > 3)
       else turns[1].resume.Timeout? ==> |turns| > 2
  }

  /** The message that an operation starts with, and keeps unless its outcome has one of its own. */
  function Announcement(operationType: OperationType): Option<string> {
    match operationType
    case BuildImage(revision) => Some("Building configured checkout revision '" + revision + "'")
    case _ => None
  }

  /** What an image operation records. */
  ghost predicate ImageRecords(turns: seq<Turn>, w: OperationState)
    requires |turns| > 1
  {
    var command := turns[1];
    && (w.status == Succeeded <==> InspectionFound(turns))
    && (w.status == Cancelled <==> command.resume.Result? && command.cancelRequested)
    && (w.status == Failed <==>
          command.resume.Result? && !command.cancelRequested && command.resume.exitCode != 0)
    && (w.status == TimedOut <==>
          command.resume.Timeout? || (Passes(command) && |turns| > 2 && turns[2].resume.Timeout?))
    && (w.status == InfrastructureError <==>
          command.resume.Raises? || InspectionFailed(turns)
          || (Passes(command) && |turns| > 2 && turns[2].resume.Raises?))
    && w.exitCode == (
         if w.status in {Cancelled, Failed} then Some(command.resume.exitCode)
         else if w.status == Succeeded then Some(0)
         else if InspectionFailed(turns) then Some(turns[2].resume.exitCode)
         else None)
    && (w.imageDigest.Some? <==> w.status == Succeeded)
    && (InspectionFound(turns) ==> w.imageDigest.Some? && IsLastLine(turns[2].resume.output, w.imageDigest.value))
    && w.summary.None? && w.reportStatus.None?
    && w.message == (
         if w.status == TimedOut then Some("Image operation timed out")
         else if command.resume.Raises? then Some(command.resume.message)
         else if InspectionFailed(turns) then Some("The prepared image could not be inspected")
         else if w.status == InfrastructureError && |turns| > 2 && turns[2].resume.Raises? then
           Some(turns[2].resume.message)
         else Announcement(w.operationType))
  }

  // ----- Test runs -----

  /** The turn with which the reports are looked at: behind the lookup in ReportPortal, if there is one. */
  function ReportsTurn(settings: Settings): nat { if settings.reportPortal then 2 else 1 }

  /** The Allure results of this turn are handed to a publisher. */
  predicate Publishes(settings: Settings, turn: Turn) {
    && !turn.cancelRequested && turn.facts.directory && !PathEscapes(settings, turn.facts)
    && settings.allure && settings.allureResultsPath && turn.facts.allure.AllurePresent? && settings.allureToken
  }

  /** The turns up to the end of a test run. */
  predicate TestOver(settings: Settings, turns: seq<Turn>) {
    var n := ReportsTurn(settings);
    && |turns| > 1
    && match turns[1].resume
       case Result(_, _) =>
         |turns| > n
         && (Publishes(settings, turns[n]) ==>
               |turns| > n + 1 && (turns[n + 1].resume.Timeout? ==> |turns| > n + 2))
       case Timeout => |turns| > n + 1
       case _ => true
  }

  /** The command ended and the paths of its reports are fine, so there is a verdict. */
  predicate HasVerdict(settings: Settings, turns: seq<Turn>) {
    var n := ReportsTurn(settings);
    |turns| > n && turns[1].resume.Result?
    && (turns[n].cancelRequested || !PathEscapes(settings, turns[n].facts))
  }

  /** The JUnit report was read, in a session directory that is there, before any cancellation. */
  predicate SummaryRead(settings: Settings, turn: Turn) {
    !turn.cancelRequested && turn.facts.directory && settings.junitPath && turn.facts.junit.JunitRead?
  }

  /** The Allure publisher ended with code 0. */
  predicate Published(settings: Settings, turns: seq<Turn>) {
    var n := ReportsTurn(settings);
    && |turns| > n + 1 && turns[1].resume.Result? && Publishes(settings, turns[n])
    && turns[n + 1].resume.Result? && turns[n + 1].resume.exitCode == 0
  }

  /** What a test run records. */
  predicate TestRecords(settings: Settings, turns: seq<Turn>, w: OperationState)
    requires |turns| > 1
  {
    var command, n := turns[1], ReportsTurn(settings);
    var cancelled := turns[|turns| - 1].cancelRequested;
    var verdict := HasVerdict(settings, turns);
    && w.imageDigest.None?
    && (w.status == TimedOut <==> command.resume.Timeout?)
    && (w.status == InfrastructureError <==> !command.resume.Timeout? && !verdict)
    && (w.status == Cancelled <==> verdict && cancelled)
    && (w.status == Passed <==> verdict && !cancelled && command.resume.exitCode == 0)
    && (w.status == Failed <==> verdict && !cancelled && command.resume.exitCode != 0)
    && w.exitCode == (if verdict then Some(command.resume.exitCode) else None)
    && (w.reportStatus == Some(ReportPublished) <==> Published(settings, turns))
    && (w.reportStatus == Some(ReportFailed) <==>
          verdict && !turns[n].cancelRequested && turns[n].facts.directory && settings.allure
          && !Published(settings, turns))
    && (w.summary.Some? <==> verdict && SummaryRead(settings, turns[n]))
    && (w.summary.Some? ==> turns[n].facts.junit == JunitRead(w.summary.value))
    && w.message == (
         if command.resume.Timeout? then Some("Hardware test run timed out")
         else if command.resume.Raises? then Some(command.resume.message)
         else if !verdict then Some("report path escapes the session directory")
         else None)
  }

  // ----- Both -----

  /** The turns decide the outcome. */
  predicate Over(settings: Settings, operationType: OperationType, turns: seq<Turn>) {
    if operationType.RunTests? then TestOver(settings, turns) else ImageOver(turns)
  }

  /** This is the state that these turns of the operation leave behind. */
  ghost predicate Records(
    settings: Settings, id: string, operationType: OperationType, turns: seq<Turn>, w: OperationState
  ) {
    && |turns| > 1
    && w.operationId == id && w.operationType == operationType && w.containerName.None?
    && if operationType.RunTests? then TestRecords(settings, turns, w) else ImageRecords(turns, w)
  }

  /** The command of a test run ended, and a publisher was started for its results. */
  predicate PublisherStarted(settings: Settings, operationType: OperationType, turns: seq<Turn>) {
    var n := ReportsTurn(settings);
    operationType.RunTests? && |turns| > n && turns[1].resume.Result? && Publishes(settings, turns[n])
  }

  /** The state of an operation that goes on: its status, its announcement and the container that runs for it. */
  predicate IsActiveState(id: string, operationType: OperationType, publishing: bool, w: OperationState) {
    && w.operationId == id && w.operationType == operationType
    && w.status == (match operationType
                    case BuildImage(_) => Building
                    case PullImage => Pulling
                    case RunTests => Running)
    && w.containerName == (
         if publishing then Some("allure-publish-" + id)
         else if operationType.RunTests? then Some("hardware-test-run-" + id)
         else None)
    && w.exitCode.None? && w.imageDigest.None? && w.summary.None? && w.reportStatus.None?
    && w.message == Announcement(operationType)
  }

  // ----- Where a task is after these turns -----

  predicate CommandGave(turns: seq<Turn>, exitCode: int) {
    |turns| > 1 && turns[1].resume.Result? && turns[1].resume.exitCode == exitCode
  }

  /** The publisher was started, with this exit code of the command and this summary. */
  predicate Publishing(settings: Settings, turns: seq<Turn>, exitCode: int, summary: Option<TestSummary>) {
    var n := ReportsTurn(settings);
    && |turns| > n && CommandGave(turns, exitCode) && Publishes(settings, turns[n])
    && (summary.Some? <==> SummaryRead(settings, turns[n]))
    && (summary.Some? ==> turns[n].facts.junit == JunitRead(summary.value))
  }

  /** The point of a task of this operation that went through these turns. */
  predicate At(settings: Settings, operationType: OperationType, point: Point, turns: seq<Turn>) {
    var tests := operationType.RunTests?;
    match point
    case NotStarted => turns == []
    case ImageCommand => !tests && |turns| == 1
    case ImageInspect => !tests && |turns| == 2 && Passes(turns[1])
    case ImageTimeoutCancel =>
      && !tests
      && if |turns| == 2 then turns[1].resume.Timeout?
         else |turns| == 3 && Passes(turns[1]) && turns[2].resume.Timeout?
    case TestCommand => tests && |turns| == 1
    case ReportPortalLookup(exitCode) =>
      tests && settings.reportPortal && |turns| == 2 && CommandGave(turns, exitCode)
    case AllurePublish(exitCode, summary) =>
      tests && |turns| == ReportsTurn(settings) + 1 && Publishing(settings, turns, exitCode, summary)
    case AllureTimeoutCancel(exitCode, summary) =>
      && tests && |turns| == ReportsTurn(settings) + 2 && Publishing(settings, turns, exitCode, summary)
      && turns[|turns| - 1].resume.Timeout?
    case TestTimeoutCancel => tests && |turns| == 2 && turns[1].resume.Timeout?
    case TestTimeoutLookup => tests && settings.reportPortal && |turns| == 3 && turns[1].resume.Timeout?
    case Returned => Over(settings, operationType, turns)
    case CancelledByShutdown => !Over(settings, operationType, turns)
  }

  lemma AtIsOver(settings: Settings, operationType: OperationType, point: Point, turns: seq<Turn>)
    requires At(settings, operationType, point, turns)
    ensures point.Returned? <==> Over(settings, operationType, turns)
    ensures InspectionFound(turns) && !operationType.RunTests? ==> point.Returned?
  {
  }

  // ----- Stretches -----

  lemma BlankGrows(s: string, a: nat, b: nat)
    requires a <= b <= |s|
    ensures a == b ==> BlankIn(s, a, b)
    ensures a < b && IsSpace(s[a]) && BlankIn(s, a + 1, b) ==> BlankIn(s, a, b)
    ensures a < b && IsSpace(s[b - 1]) && BlankIn(s, a, b - 1) ==> BlankIn(s, a, b)
  {
  }

  lemma StripStep(s: string)
    ensures Strip(s) ==
      if s != "" && IsSpace(s[0]) then Strip(s[1..])
      else if s != "" && IsSpace(s[|s| - 1]) then Strip(s[..|s| - 1])
      else s
  {
  }

  /** Stripping takes the white space off both ends and nothing else. */
  lemma {:induction false} StripIs(s: string, a: nat, b: nat) returns (i: nat, j: nat)
    requires a <= b <= |s|
    ensures a <= i <= j <= b && Strip(s[a..b]) == s[i..j] && BlankIn(s, a, i) && BlankIn(s, j, b)
    ensures i < j ==> !IsSpace(s[i]) && !IsSpace(s[j - 1])
    decreases b - a
  {
    hide IsSpace, BlankIn, Strip;
    StripStep(s[a..b]);
    if a < b && IsSpace(s[a]) {
      assert s[a..b][1..] == s[a + 1..b];
      i, j := StripIs(s, a + 1, b);
      BlankGrows(s, a, i);
    } else if a < b && IsSpace(s[b - 1]) {
      assert s[a..b][..b - a - 1] == s[a..b - 1];
      i, j := StripIs(s, a, b - 1);
      BlankGrows(s, j, b);
    } else {
      i, j := a, b;
      BlankGrows(s, a, a);
      BlankGrows(s, b, b);
    }
  }

  lemma DigestIsLastLine(output: string)
    ensures (Strip(output) == "" <==> Blank(output)) && IsLastLine(output, Digest(output))
  {
    hide Strip, LastLine, Digest, IsSpace, IsLineBreak, IsLastLine, Blank, BlankIn;
    assert output[0..|output|] == output;
    var i, j := StripIs(output, 0, |output|);
    DigestIs(output);
    LastLineOfPart(output, i, j);
    BlankWhen(output, i, j);
  }

  lemma BlankWhen(s: string, i: nat, j: nat)
    requires i <= j <= |s| && BlankIn(s, 0, i) && BlankIn(s, j, |s|)
    requires i < j ==> !IsSpace(s[i])
    ensures Blank(s) <==> s[i..j] == ""
  {
    hide IsSpace;
  }

  lemma LastLineOfPart(s: string, i: nat, j: nat)
    requires i <= j <= |s| && BlankIn(s, 0, i) && BlankIn(s, j, |s|)
    requires i < j ==> !IsSpace(s[i]) && !IsSpace(s[j - 1])
    ensures IsLastLine(s, LastLine(s[i..j]))
  {
    hide LastLine, IsLineBreak, IsSpace, BlankIn;
    var part, line := s[i..j], LastLine(s[i..j]);
    var m := j - |line|;
    PartFrom(s, i, m, j);
    assert LastLineAt(s, i, m, j, line);
  }

  lemma PartFrom(s: string, i: nat, m: nat, j: nat)
    requires i <= m <= j <= |s|
    ensures s[i..j][m - i..] == s[m..j] && (i < m ==> s[i..j][m - i - 1] == s[m - 1])
  {
  }

  lemma DigestIs(output: string)
    ensures Digest(output) == LastLine(Strip(output))
  {
  }

  /** The stretch that this turn makes stops where the turns say, and what it concludes is on record. */
  ghost predicate Leaves(
    settings: Settings, id: string, operationType: OperationType, turns: seq<Turn>, stretch: Stretch
  ) {
    && At(settings, operationType, stretch.point, turns)
    && (forall w :: w in stretch.writes && w.status.IsTerminal() ==> Records(settings, id, operationType, turns, w))
    && (forall w :: w in stretch.writes && !w.status.IsTerminal() ==>
          operationType.RunTests? && IsActiveState(id, operationType, true, w))
    && (InspectionFound(turns) && !operationType.RunTests? ==>
          |stretch.writes| == 1 && stretch.writes[0].status == Succeeded)
    && (!stretch.point.Returned? ==> (stretch.writes != [] <==> StartsPublisher(settings, operationType, turns)))
  }

  /** The last of these turns starts the publisher. */
  predicate StartsPublisher(settings: Settings, operationType: OperationType, turns: seq<Turn>) {
    |turns| == ReportsTurn(settings) + 1 && PublisherStarted(settings, operationType, turns)
  }

  lemma SilentLeaves(settings: Settings, id: string, operationType: OperationType, turns: seq<Turn>, point: Point)
    requires At(settings, operationType, point, turns) && !point.Done() && !point.AllurePublish?
    ensures Leaves(settings, id, operationType, turns, Stretch([], point))
  {
    hide At, Over, InspectionFound, StartsPublisher;
    AtIsOver(settings, operationType, point, turns);
    NoPublisherYet(settings, operationType, point, turns);
  }

  lemma NoPublisherYet(settings: Settings, operationType: OperationType, point: Point, turns: seq<Turn>)
    requires At(settings, operationType, point, turns) && !point.Done() && !point.AllurePublish?
    ensures !StartsPublisher(settings, operationType, turns)
  {
    hide Publishing, Publishes;
  }

  lemma FinishedLeaves(
    settings: Settings, id: string, operationType: OperationType, turns: seq<Turn>, w: OperationState
  )
    requires Over(settings, operationType, turns) && Records(settings, id, operationType, turns, w)
    requires operationType.RunTests? || w.status.IsTerminal()
    ensures Leaves(settings, id, operationType, turns, Finished(w))
  {
    hide Over, InspectionFound, IsLastLine, TestRecords;
    if operationType.RunTests? {
      RecordsTerminal(settings, id, turns, w);
    }
  }

  lemma ImageCommandRecords(
    settings: Settings, id: string, operationType: OperationType, point: Point, turns: seq<Turn>, turn: Turn
  )
    requires !operationType.RunTests? && At(settings, operationType, point, turns) && Enabled(point, turn.resume)
    requires point.ImageCommand?
    ensures
      var stretch := ImageStretch(Started(id, operationType), point, turn.cancelRequested, turn.resume);
      stretch.point.Returned? ==>
        |stretch.writes| == 1 && stretch.writes[0].status.IsTerminal()
        && Records(settings, id, operationType, turns + [turn], stretch.writes[0])
  {
    hide Blank, IsLastLine, Digest, Strip;
    assert (turns + [turn])[1] == turn;
  }

  lemma FoundRecords(settings: Settings, id: string, operationType: OperationType, turns: seq<Turn>)
    requires !operationType.RunTests? && |turns| == 3 && InspectionFound(turns)
    ensures Records(settings, id, operationType, turns,
      Finish(Started(id, operationType), Succeeded, Some(0)).(imageDigest := Some(Digest(turns[2].resume.output))))
  {
    hide Blank, IsLastLine, Digest, Strip;
    DigestIsLastLine(turns[2].resume.output);
  }

  lemma UnfitRecords(settings: Settings, id: string, operationType: OperationType, turns: seq<Turn>)
    requires !operationType.RunTests? && |turns| == 3 && InspectionFailed(turns)
    ensures Records(settings, id, operationType, turns,
      Finish(Started(id, operationType), InfrastructureError, Some(turns[2].resume.exitCode)).(
        message := Some("The prepared image could not be inspected")))
  {
    hide Blank, IsLastLine;
  }

  lemma InspectionRecords(
    settings: Settings, id: string, operationType: OperationType, point: Point, turns: seq<Turn>, turn: Turn
  )
    requires !operationType.RunTests? && At(settings, operationType, point, turns) && Enabled(point, turn.resume)
    requires point.ImageInspect?
    ensures
      var stretch := ImageStretch(Started(id, operationType), point, turn.cancelRequested, turn.resume);
      stretch.point.Returned? ==>
        |stretch.writes| == 1 && stretch.writes[0].status.IsTerminal()
        && Records(settings, id, operationType, turns + [turn], stretch.writes[0])
  {
    hide Blank, IsLastLine, Digest, Strip;
    var all := turns + [turn];
    assert all[1] == turns[1] && all[2] == turn;
    if turn.resume.Result? {
      hide Records;
      DigestIsLastLine(turn.resume.output);
      if InspectionFound(all) {
        FoundRecords(settings, id, operationType, all);
      } else {
        UnfitRecords(settings, id, operationType, all);
      }
    }
  }

  /** The last stretch of an image operation. */
  lemma ImageStretchRecords(
    settings: Settings, id: string, operationType: OperationType, point: Point, turns: seq<Turn>, turn: Turn
  )
    requires !operationType.RunTests? && At(settings, operationType, point, turns) && Enabled(point, turn.resume)
    requires point.ImageCommand? || point.ImageInspect? || point.ImageTimeoutCancel?
    ensures
      var stretch := ImageStretch(Started(id, operationType), point, turn.cancelRequested, turn.resume);
      stretch.point.Returned? ==>
        |stretch.writes| == 1 && stretch.writes[0].status.IsTerminal()
        && Records(settings, id, operationType, turns + [turn], stretch.writes[0])
  {
    hide Blank, IsLastLine, Digest, Strip;
    if point.ImageCommand? {
      ImageCommandRecords(settings, id, operationType, point, turns, turn);
    } else if point.ImageInspect? {
      InspectionRecords(settings, id, operationType, point, turns, turn);
    } else {
      assert forall i :: 0 <= i < |turns| ==> (turns + [turn])[i] == turns[i];
    }
  }

  lemma ImageStretchLeaves(
    settings: Settings, id: string, operationType: OperationType, point: Point, turns: seq<Turn>, turn: Turn
  )
    requires !operationType.RunTests? && At(settings, operationType, point, turns) && Enabled(point, turn.resume)
    requires point.ImageCommand? || point.ImageInspect? || point.ImageTimeoutCancel?
    ensures Leaves(settings, id, operationType, turns + [turn],
      ImageStretch(Started(id, operationType), point, turn.cancelRequested, turn.resume))
  {
    hide Digest, Strip, Blank, Leaves, Records;
    var all, stretch :=
      turns + [turn], ImageStretch(Started(id, operationType), point, turn.cancelRequested, turn.resume);
    assert all[|turns|] == turn && forall i :: 0 <= i < |turns| ==> all[i] == turns[i];
    ImageStretchRecords(settings, id, operationType, point, turns, turn);
    if stretch.point.Returned? {
      FinishedLeaves(settings, id, operationType, all, stretch.writes[0]);
    } else {
      SilentLeaves(settings, id, operationType, all, stretch.point);
    }
  }

  lemma PublishingLeaves(settings: Settings, id: string, turns: seq<Turn>, stretch: Stretch)
    requires At(settings, RunTests, stretch.point, turns)
    requires 1 <= |stretch.writes| <= 2 && IsActiveState(id, RunTests, true, stretch.writes[0])
    requires stretch.point.Returned? || stretch.point.AllurePublish?
    requires |stretch.writes| == 2 ==> Records(settings, id, RunTests, turns, stretch.writes[1])
    ensures Leaves(settings, id, RunTests, turns, stretch)
  {
    hide Records, InspectionFound, Publishes, SummaryRead, Over;
    if |stretch.writes| == 2 {
      RecordsTerminal(settings, id, turns, stretch.writes[1]);
    }
  }

  lemma RecordsTerminal(settings: Settings, id: string, turns: seq<Turn>, w: OperationState)
    requires Records(settings, id, RunTests, turns, w)
    ensures w.status.IsTerminal()
  {
    hide HasVerdict, Published, SummaryRead, Publishes, PathEscapes;
  }

  /** A verdict with the summary and the report status that these turns call for. */
  lemma VerdictRecords(settings: Settings, id: string, turns: seq<Turn>, exitCode: int, cancelled: bool,
                       summary: Option<TestSummary>, report: Option<ReportStatus>)
    requires HasVerdict(settings, turns) && CommandGave(turns, exitCode)
    requires cancelled == turns[|turns| - 1].cancelRequested
    requires var turn := turns[ReportsTurn(settings)];
      && (summary.Some? <==> SummaryRead(settings, turn))
      && (summary.Some? ==> turn.facts.junit == JunitRead(summary.value))
      && (report == Some(ReportPublished) <==> Published(settings, turns))
      && (report == Some(ReportFailed) <==>
            !turn.cancelRequested && turn.facts.directory && settings.allure && !Published(settings, turns))
    ensures Records(settings, id, RunTests, turns,
      Conclude(Started(id, RunTests), cancelled, exitCode, summary, report))
  {
    hide Published, SummaryRead, PathEscapes;
  }

  lemma CancelledRecords(settings: Settings, id: string, turns: seq<Turn>, exitCode: int)
    requires |turns| == ReportsTurn(settings) + 1 && CommandGave(turns, exitCode)
    requires turns[|turns| - 1].cancelRequested
    ensures Records(settings, id, RunTests, turns, Finish(Started(id, RunTests), Cancelled, Some(exitCode)))
  {
    VerdictRecords(settings, id, turns, exitCode, true, None, None);
  }

  lemma EscapeRecords(settings: Settings, id: string, turns: seq<Turn>, exitCode: int)
    requires |turns| == ReportsTurn(settings) + 1 && CommandGave(turns, exitCode)
    requires !turns[|turns| - 1].cancelRequested && PathEscapes(settings, turns[|turns| - 1].facts)
    ensures Records(settings, id, RunTests, turns,
      Infrastructure(Started(id, RunTests), "report path escapes the session directory"))
  {
    hide PathEscapes;
  }

  lemma TimeoutRecords(settings: Settings, id: string, turns: seq<Turn>)
    requires |turns| > 1 && turns[1].resume.Timeout?
    ensures Records(settings, id, RunTests, turns, TestTimedOut(Started(id, RunTests)))
  {
  }

  lemma RaiseRecords(settings: Settings, id: string, turns: seq<Turn>, message: string)
    requires |turns| > 1 && turns[1].resume == Raises(message)
    ensures Records(settings, id, RunTests, turns, Infrastructure(Started(id, RunTests), message))
  {
  }

  lemma AfterCommandLeaves(settings: Settings, id: string, turns: seq<Turn>, exitCode: int)
    requires |turns| == ReportsTurn(settings) + 1 && CommandGave(turns, exitCode)
    ensures var turn := turns[|turns| - 1];
      Leaves(settings, id, RunTests, turns,
        AfterCommand(settings, Started(id, RunTests), turn.cancelRequested, exitCode, turn.facts))
  {
    hide Leaves, Records, Conclude, Infrastructure, Finish, TestOver;
    var turn := turns[|turns| - 1];
    var facts := turn.facts;
    var stretch := AfterCommand(settings, Started(id, RunTests), turn.cancelRequested, exitCode, facts);
    var summary := if SummaryRead(settings, turn) then Some(facts.junit.summary) else None;
    AfterCommandOver(settings, turns, exitCode);
    if turn.cancelRequested {
      CancelledRecords(settings, id, turns, exitCode);
      FinishedLeaves(settings, id, RunTests, turns, stretch.writes[0]);
    } else if PathEscapes(settings, facts) {
      EscapeRecords(settings, id, turns, exitCode);
      FinishedLeaves(settings, id, RunTests, turns, stretch.writes[0]);
    } else {
      var report := if facts.directory && settings.allure then Some(ReportFailed) else None;
      VerdictRecords(settings, id, turns, exitCode, false, summary, report);
      if |stretch.writes| == 1 && stretch.point.Returned? {
        FinishedLeaves(settings, id, RunTests, turns, stretch.writes[0]);
      } else {
        PublishingLeaves(settings, id, turns, stretch);
      }
    }
  }

  lemma AfterCommandOver(settings: Settings, turns: seq<Turn>, exitCode: int)
    requires |turns| == ReportsTurn(settings) + 1 && CommandGave(turns, exitCode)
    ensures TestOver(settings, turns) <==> !Publishes(settings, turns[|turns| - 1])
  {
  }

  lemma PublishingGrows(
    settings: Settings, turns: seq<Turn>, turn: Turn, exitCode: int, summary: Option<TestSummary>
  )
    requires Publishing(settings, turns, exitCode, summary)
    ensures Publishing(settings, turns + [turn], exitCode, summary)
  {
    hide Publishes, SummaryRead;
    var n := ReportsTurn(settings);
    assert (turns + [turn])[n] == turns[n] && (turns + [turn])[1] == turns[1];
  }

  /** The publisher has ended, with a success or not: the verdict is recorded with that report status. */
  lemma PublisherLeaves(settings: Settings, id: string, turns: seq<Turn>, exitCode: int, summary: Option<TestSummary>)
    requires Publishing(settings, turns, exitCode, summary) && TestOver(settings, turns)
    ensures var report := Some(if Published(settings, turns) then ReportPublished else ReportFailed);
      Leaves(settings, id, RunTests, turns,
        Finished(Conclude(Started(id, RunTests), turns[|turns| - 1].cancelRequested, exitCode, summary, report)))
  {
    hide Leaves, Records, SummaryRead, PathEscapes, Conclude;
    var report := Some(if Published(settings, turns) then ReportPublished else ReportFailed);
    var cancelled := turns[|turns| - 1].cancelRequested;
    VerdictRecords(settings, id, turns, exitCode, cancelled, summary, report);
    FinishedLeaves(settings, id, RunTests, turns,
      Conclude(Started(id, RunTests), cancelled, exitCode, summary, report));
  }

  lemma TestStretchLeaves(settings: Settings, id: string, point: Point, turns: seq<Turn>, turn: Turn)
    requires At(settings, RunTests, point, turns) && Enabled(point, turn.resume) && !point.NotStarted?
    requires !point.ImageCommand? && !point.ImageInspect? && !point.ImageTimeoutCancel?
    ensures Leaves(settings, id, RunTests, turns + [turn],
      TestStretch(settings, Started(id, RunTests), point, turn.cancelRequested, turn.resume, turn.facts))
  {
    hide Leaves, Records, AfterCommand, Conclude, Publishing, Infrastructure, TestTimedOut, Started, Publishes;
    var all := turns + [turn];
    assert all[|turns|] == turn && forall i :: 0 <= i < |turns| ==> all[i] == turns[i];
    match point
    case TestCommand =>
      if turn.resume.Raises? {
        RaiseRecords(settings, id, all, turn.resume.message);
        FinishedLeaves(settings, id, RunTests, all, Infrastructure(Started(id, RunTests), turn.resume.message));
      } else if turn.resume.Timeout? {
        SilentLeaves(settings, id, RunTests, all, TestTimeoutCancel);
      } else if settings.reportPortal {
        SilentLeaves(settings, id, RunTests, all, ReportPortalLookup(turn.resume.exitCode));
      } else {
        AfterCommandLeaves(settings, id, all, turn.resume.exitCode);
      }
    case ReportPortalLookup(exitCode) => AfterCommandLeaves(settings, id, all, exitCode);
    case AllurePublish(exitCode, summary) =>
      PublishingGrows(settings, turns, turn, exitCode, summary);
      PublishingMeans(settings, all, exitCode, summary);
      if turn.resume.Timeout? {
        SilentLeaves(settings, id, RunTests, all, AllureTimeoutCancel(exitCode, summary));
      } else {
        PublisherLeaves(settings, id, all, exitCode, summary);
      }
    case AllureTimeoutCancel(exitCode, summary) =>
      PublishingGrows(settings, turns, turn, exitCode, summary);
      PublishingMeans(settings, all, exitCode, summary);
      PublisherLeaves(settings, id, all, exitCode, summary);
    case TestTimeoutCancel =>
      if settings.reportPortal {
        SilentLeaves(settings, id, RunTests, all, TestTimeoutLookup);
      } else {
        TimeoutRecords(settings, id, all);
        FinishedLeaves(settings, id, RunTests, all, TestTimedOut(Started(id, RunTests)));
      }
    case TestTimeoutLookup =>
      TimeoutRecords(settings, id, all);
      FinishedLeaves(settings, id, RunTests, all, TestTimedOut(Started(id, RunTests)));
  }

  lemma PublishingMeans(settings: Settings, turns: seq<Turn>, exitCode: int, summary: Option<TestSummary>)
    requires Publishing(settings, turns, exitCode, summary)
    ensures |turns| > ReportsTurn(settings) && turns[1].resume.Result?
    ensures Publishes(settings, turns[ReportsTurn(settings)])
  {
    hide Publishes, SummaryRead;
  }

  /** A task of this operation that makes a stretch, other than to raise a cancellation by shutdown. */
  lemma ContinueLeaves(
    settings: Settings, id: string, operationType: OperationType, task: Task, turns: seq<Turn>, turn: Turn
  )
    requires task.state == Started(id, operationType) && !task.cancelPending
    requires At(settings, operationType, task.point, turns) && Enabled(task.point, turn.resume)
    ensures Leaves(settings, id, operationType, turns + [turn],
      Continue(settings, task, turn.cancelRequested, turn.resume, turn.facts))
  {
    hide Leaves, ImageStretch, TestStretch, Over, Publishing;
    if task.point.NotStarted? {
      var point := if operationType.RunTests? then TestCommand else ImageCommand;
      SilentLeaves(settings, id, operationType, turns + [turn], point);
    } else if operationType.RunTests? {
      TestStretchLeaves(settings, id, task.point, turns, turn);
    } else {
      ImageStretchLeaves(settings, id, operationType, task.point, turns, turn);
    }
  }

  // ----- Runs -----

  /** The coordinator's task is that of this operation. */
  predicate Current(s: System, id: string) { s.task.Some? && s.task.value.state.operationId == id }

  /** Every outcome written for this operation, other than an interruption, is the one that these turns call for. */
  ghost predicate Recorded(
    settings: Settings, writes: seq<OperationState>, id: string, operationType: OperationType, turns: seq<Turn>
  ) {
    forall w :: w in writes && w.operationId == id && w.status.IsTerminal() && w.status != Interrupted ==>
      Records(settings, id, operationType, turns, w)
  }

  /** The task of this operation and what is written about it agree with its turns. */
  ghost predicate Follows(
    settings: Settings, s: System, id: string, operationType: OperationType, turns: seq<Turn>
  ) {
    && id in s.accepted
    && (Current(s, id) ==>
          && s.task.value.state == Started(id, operationType)
          && At(settings, operationType, s.task.value.point, turns)
          && (s.task.value.point.Returned? ==>
                s.stored.Some? && Records(settings, id, operationType, turns, s.stored.value)))
    && Recorded(settings, s.writes, id, operationType, turns)
    && (InspectionFound(turns) && !operationType.RunTests? ==> HasSucceeded(s, id))
    && StoresActive(settings, s, id, operationType, turns)
  }

  /** While the task goes on, its active state is stored, with the publisher's container once that runs. */
  predicate StoresActive(
    settings: Settings, s: System, id: string, operationType: OperationType, turns: seq<Turn>
  ) {
    Current(s, id) && !s.task.value.point.Returned? ==>
      && s.stored.Some?
      && IsActiveState(id, operationType, PublisherStarted(settings, operationType, turns), s.stored.value)
  }

  lemma NothingRecorded(writes: seq<OperationState>, id: string)
    requires TerminalWrites(writes, id) == 0
    ensures forall w :: w in writes && w.operationId == id ==> !w.status.IsTerminal()
  {
    forall w | w in writes && w.operationId == id
      ensures !w.status.IsTerminal()
    {
      if w.status.IsTerminal() {
        TerminalIsCounted(writes, w);
      }
    }
  }

  /** More writes that are not about this operation, or not about its outcome. */
  lemma RecordedGrows(
    settings: Settings, s: System, states: seq<OperationState>, id: string, operationType: OperationType,
    turns: seq<Turn>
  )
    requires Recorded(settings, s.writes, id, operationType, turns)
    requires forall w :: w in states ==> w.operationId != id || !w.status.IsTerminal() || w.status == Interrupted
    ensures Recorded(settings, Save(s, states).writes, id, operationType, turns)
    ensures HasSucceeded(s, id) ==> HasSucceeded(Save(s, states), id)
  {
    hide Records;
    StaysSucceeded(s, states, id);
  }

  lemma StaysSucceeded(s: System, states: seq<OperationState>, id: string)
    ensures HasSucceeded(s, id) ==> HasSucceeded(Save(s, states), id)
  {
    if HasSucceeded(s, id) {
      var i :| 0 <= i < |s.writes| && s.writes[i].operationId == id && s.writes[i].status == Succeeded;
      assert Save(s, states).writes[i] == s.writes[i];
    }
  }

  /** A restart ends the task and records at most an interruption. */
  lemma RestartFollows(
    settings: Settings, s: System, id: string, operationType: OperationType, turns: seq<Turn>
  )
    requires id in s.accepted && Recorded(settings, s.writes, id, operationType, turns)
    requires InspectionFound(turns) && !operationType.RunTests? ==> HasSucceeded(s, id)
    ensures Follows(settings, AfterRestart(s), id, operationType, turns)
  {
    hide Records, Recorded, HasSucceeded, InspectionFound, At;
    var blank := s.(task := None, unfinished := {}, cancelRequested := false, locked := false);
    SameWrites(s, blank, id);
    if s.stored.Some? && !s.stored.value.status.IsTerminal() {
      RecordedGrows(settings, blank, [MarkInterrupted(s.stored.value)], id, operationType, turns);
    }
  }

  lemma SameWrites(s: System, t: System, id: string)
    requires s.writes == t.writes
    ensures HasSucceeded(s, id) <==> HasSucceeded(t, id)
  {
  }

  /** A task that goes on, or a process that stops in the middle of it, adds this turn. */
  lemma ResumeFollows(
    settings: Settings, s: System, a: Action, id: string, operationType: OperationType, turns: seq<Turn>
  )
    requires Inv(s) && CanAct(s, a) && Follows(settings, s, id, operationType, turns) && Resumes(s, a, id)
    ensures Follows(settings, Next(s, settings, a), id, operationType, turns + [TurnAt(s, a)])
  {
    hide Continue, Records, Recorded, HasSucceeded, InspectionFound, At, TerminalWrites, HistoryAgrees;
    hide AfterRestart, Save, Leaves, OwnWrites, StoresActive;
    var task, turn := s.task.value, TurnAt(s, a);
    var stretch := Continue(settings, task, s.cancelRequested, a.resume, a.facts);
    ContinueLeaves(settings, id, operationType, task, turns, turn);
    StretchWrites(settings, task, s.cancelRequested, a.resume, a.facts);
    NotYetReturned(s, a.resume);
    var states := if a.ResumeTask? then stretch.writes else Begun(stretch.writes, a.written);
    TurnRecorded(settings, s, id, operationType, turns + [turn], stretch, states);
    if a.ResumeTask? {
      SameWrites(Save(s, states), Next(s, settings, a), id);
      AdvanceIs(s, stretch);
      ActiveGoesOn(settings, s, id, operationType, turns, turn, stretch);
    } else {
      RestartDuringStep(s, settings, a.resume, a.facts, a.written);
      SaveKeepsAccepted(s, states);
      RestartFollows(settings, Save(s, states), id, operationType, turns + [turn]);
    }
  }

  /** The stored state of a task that goes on changes only when this turn starts the publisher. */
  lemma ActiveGoesOn(
    settings: Settings, s: System, id: string, operationType: OperationType, turns: seq<Turn>, turn: Turn,
    stretch: Stretch
  )
    requires Current(s, id) && !s.task.value.point.Returned? && StoresActive(settings, s, id, operationType, turns)
    requires Leaves(settings, id, operationType, turns + [turn], stretch)
    requires OwnWrites(s.task.value.state, s.cancelRequested, stretch)
    ensures StoresActive(settings, Advance(s, stretch), id, operationType, turns + [turn])
  {
    hide At, Records, InspectionFound, Publishes;
    var all := turns + [turn];
    assert forall i :: 0 <= i < |turns| ==> all[i] == turns[i];
    assert PublisherStarted(settings, operationType, all) <==>
      PublisherStarted(settings, operationType, turns) || StartsPublisher(settings, operationType, all);
  }

  lemma SaveKeepsAccepted(s: System, states: seq<OperationState>)
    ensures Save(s, states).accepted == s.accepted
  {
  }

  lemma AdvanceIs(s: System, stretch: Stretch)
    requires s.task.Some?
    ensures var t := Advance(s, stretch);
      && t.accepted == s.accepted && t.writes == Save(s, stretch.writes).writes
      && t.task == Some(s.task.value.(point := stretch.point))
      && t.stored == if stretch.writes == [] then s.stored else Some(stretch.writes[|stretch.writes| - 1])
  {
  }

  /** What a stretch of an operation without an outcome so far writes, all of it or some. */
  lemma TurnRecorded(
    settings: Settings, s: System, id: string, operationType: OperationType, turns: seq<Turn>, stretch: Stretch,
    states: seq<OperationState>
  )
    requires TerminalWrites(s.writes, id) == 0 && Leaves(settings, id, operationType, turns, stretch)
    requires s.task.Some? && OwnWrites(s.task.value.state, s.cancelRequested, stretch)
    requires s.task.value.state.operationId == id
    requires states <= stretch.writes && (|states| > 0 || stretch.writes == [])
    ensures Recorded(settings, Save(s, states).writes, id, operationType, turns)
    ensures InspectionFound(turns) && !operationType.RunTests? ==> HasSucceeded(Save(s, states), id)
    ensures At(settings, operationType, stretch.point, turns)
    ensures stretch.point.Returned? ==>
      stretch.writes != []
      && Records(settings, id, operationType, turns, stretch.writes[|stretch.writes| - 1])
  {
    hide Records, InspectionFound, At, TerminalWrites;
    NothingRecorded(s.writes, id);
    forall w | w in Save(s, states).writes && w.operationId == id && w.status.IsTerminal()
      ensures Records(settings, id, operationType, turns, w)
    {
      assert w in states;
      assert w in stretch.writes;
    }
    if InspectionFound(turns) && !operationType.RunTests? {
      var t := Save(s, states);
      assert OwnWrite(s.task.value.state, s.cancelRequested, stretch.writes[0]);
      assert t.writes[|s.writes|] == stretch.writes[0];
    }
  }

  /** A task of another operation, or one that is told to stop, adds no turn. */
  lemma OtherFollows(
    settings: Settings, s: System, resume: Resume, facts: Facts, written: nat, id: string,
    operationType: OperationType, turns: seq<Turn>
  )
    requires Inv(s) && Follows(settings, s, id, operationType, turns)
    requires s.task.Some? && Enabled(s.task.value.point, resume)
    requires !Current(s, id) || s.task.value.cancelPending || written == 0
    ensures !Current(s, id) || s.task.value.cancelPending ==>
      Follows(settings, Next(s, settings, ResumeTask(resume, facts)), id, operationType, turns)
    ensures Follows(settings, Next(s, settings, RestartDuring(resume, facts, written)), id, operationType, turns)
  {
    hide Continue, Records, Recorded, HasSucceeded, InspectionFound, At, Over, TerminalWrites, HistoryAgrees;
    hide AfterRestart, Save, OwnWrites, PublisherStarted, IsActiveState;
    var task := s.task.value;
    var stretch := Continue(settings, task, s.cancelRequested, resume, facts);
    StretchWrites(settings, task, s.cancelRequested, resume, facts);
    NotYetReturned(s, resume);
    if !Current(s, id) {
      ForeignWrites(task.state, s.cancelRequested, stretch, id);
    }
    if !Current(s, id) || task.cancelPending {
      RecordedGrows(settings, s, stretch.writes, id, operationType, turns);
      SameWrites(Save(s, stretch.writes), Next(s, settings, ResumeTask(resume, facts)), id);
      AdvanceIs(s, stretch);
      if Current(s, id) {
        AtIsOver(settings, operationType, task.point, turns);
        ShutdownAt(settings, operationType, turns);
      }
    }
    var begun := Begun(stretch.writes, written);
    RecordedGrows(settings, s, begun, id, operationType, turns);
    RestartDuringStep(s, settings, resume, facts, written);
    SaveKeepsAccepted(s, begun);
    RestartFollows(settings, Save(s, begun), id, operationType, turns);
  }

  lemma ShutdownAt(settings: Settings, operationType: OperationType, turns: seq<Turn>)
    requires !Over(settings, operationType, turns)
    ensures At(settings, operationType, CancelledByShutdown, turns)
  {
  }

  lemma ForeignWrites(state: OperationState, cancelRequested: bool, stretch: Stretch, id: string)
    requires OwnWrites(state, cancelRequested, stretch) && state.operationId != id
    ensures forall w :: w in stretch.writes ==> w.operationId != id
  {
    forall w | w in stretch.writes
      ensures w.operationId != id
    {
      var i :| 0 <= i < |stretch.writes| && stretch.writes[i] == w;
      assert OwnWrite(state, cancelRequested, stretch.writes[i]);
    }
  }

  lemma StartFollows(
    settings: Settings, s: System, other: string, otherType: OperationType, id: string,
    operationType: OperationType, turns: seq<Turn>
  )
    requires CanAct(s, Start(other, otherType)) && Follows(settings, s, id, operationType, turns)
    ensures Follows(settings, Next(s, settings, Start(other, otherType)), id, operationType, turns)
    ensures !Busy(s) ==>
      Follows(settings, Next(s, settings, RestartDuringStart(other, otherType)), id, operationType, turns)
  {
    hide Records, Recorded, HasSucceeded, InspectionFound, At, AfterRestart;
    if !Busy(s) {
      var state := Started(other, otherType);
      RecordedGrows(settings, s, [state], id, operationType, turns);
      SameWrites(Save(s, [state]), StartBody(s, other, otherType), id);
      var begun := Save(s, [state]).(accepted := s.accepted + {other});
      SameWrites(Save(s, [state]), begun, id);
      RestartFollows(settings, begun, id, operationType, turns);
    }
  }

  lemma CancelFollows(
    settings: Settings, s: System, a: Action, id: string, operationType: OperationType, turns: seq<Turn>
  )
    requires CanAct(s, a) && Follows(settings, s, id, operationType, turns)
    requires a.CancelBegin? || a.CancelEnd? || a.ShutdownCancel?
    ensures Follows(settings, Next(s, settings, a), id, operationType, turns)
  {
    hide Records, Recorded, HasSucceeded, InspectionFound, At;
    SameWrites(s, Next(s, settings, a), id);
  }

  lemma NextFollows(
    settings: Settings, s: System, a: Action, id: string, operationType: OperationType, turns: seq<Turn>
  )
    requires Inv(s) && CanAct(s, a) && Follows(settings, s, id, operationType, turns)
    ensures Follows(settings, Next(s, settings, a), id, operationType,
      turns + if Resumes(s, a, id) then [TurnAt(s, a)] else [])
  {
    hide Follows, Inv, AfterRestart, Continue;
    assert turns + [] == turns;
    if Resumes(s, a, id) {
      ResumeFollows(settings, s, a, id, operationType, turns);
    } else {
      match a
      case Start(other, otherType) => StartFollows(settings, s, other, otherType, id, operationType, turns);
      case CancelBegin => CancelFollows(settings, s, a, id, operationType, turns);
      case CancelEnd => CancelFollows(settings, s, a, id, operationType, turns);
      case ShutdownCancel(_) => CancelFollows(settings, s, a, id, operationType, turns);
      case ResumeTask(resume, facts) => OtherFollows(settings, s, resume, facts, 0, id, operationType, turns);
      case Restart => PlainRestart(settings, s, id, operationType, turns);
      case RestartDuringStart(other, otherType) =>
        StartFollows(settings, s, other, otherType, id, operationType, turns);
      case RestartDuring(resume, facts, written) =>
        OtherFollows(settings, s, resume, facts, written, id, operationType, turns);
    }
  }

  lemma PlainRestart(
    settings: Settings, s: System, id: string, operationType: OperationType, turns: seq<Turn>
  )
    requires Follows(settings, s, id, operationType, turns)
    ensures Follows(settings, AfterRestart(s), id, operationType, turns)
  {
    hide Records, Recorded, HasSucceeded, InspectionFound, At, AfterRestart;
    RestartFollows(settings, s, id, operationType, turns);
  }

  /** An operation that was not started so far had no turns. */
  lemma {:induction false} NoTurnsBefore(
    settings: Settings, states: seq<System>, actions: seq<Action>, i: nat, id: string
  )
    requires Run(settings, states, actions) && i <= |actions| && id !in states[i].accepted
    ensures TurnsOf(states, actions, i, id) == []
  {
    hide Initial, CanAct, Next, Inv;
    if i > 0 {
      RunKeepsInv(settings, states, actions, i - 1);
      RunStep(settings, states, actions, i - 1);
      AcceptedGrows(states[i - 1], settings, actions[i - 1]);
      NoTurnsBefore(settings, states, actions, i - 1, id);
      TaskIsAccepted(states[i - 1]);
    }
  }

  lemma AcceptedGrows(s: System, settings: Settings, a: Action)
    requires CanAct(s, a)
    ensures s.accepted <= Next(s, settings, a).accepted
  {
    hide Continue, AfterRestart;
    match a
    case Restart => RestartKeepsAccepted(s);
    case RestartDuringStart(id, operationType) =>
      RestartKeepsAccepted(Save(s, [Started(id, operationType)]).(accepted := s.accepted + {id}));
    case RestartDuring(resume, facts, written) =>
      var states := Continue(settings, s.task.value, s.cancelRequested, resume, facts).writes;
      RestartKeepsAccepted(Save(s, Begun(states, written)));
    case _ =>
  }

  lemma RestartKeepsAccepted(s: System)
    ensures AfterRestart(s).accepted == s.accepted
  {
  }

  lemma TaskIsAccepted(s: System)
    requires Inv(s)
    ensures s.task.Some? ==> s.task.value.state.operationId in s.accepted
  {
    hide HistoryAgrees, TerminalWrites;
  }

  /** A start that finds no unfinished task records an active state without any result, and starts its task. */
  lemma StartInRun(settings: Settings, states: seq<System>, actions: seq<Action>, k: nat)
    requires Run(settings, states, actions) && k < |actions| && actions[k].Start? && !Busy(states[k])
    ensures var s, id, operationType := states[k + 1], actions[k].operationId, actions[k].operationType;
      && s.stored.Some? && var w := s.stored.value;
        && IsActiveState(id, operationType, false, w)
        && s.writes == states[k].writes + [w]
        && s.task == Some(Task(w, NotStarted, false)) && !s.cancelRequested && s.unfinished == {id}
  {
    RunStep(settings, states, actions, k);
    RunKeepsInv(settings, states, actions, k);
    hide Inv;
    IdleHasNothing(states[k]);
  }

  lemma IdleHasNothing(s: System)
    requires Inv(s) && !Busy(s)
    ensures s.unfinished == {}
  {
    hide HistoryAgrees, TerminalWrites;
  }

  lemma FollowsAfterStart(settings: Settings, states: seq<System>, actions: seq<Action>, k: nat)
    requires Run(settings, states, actions) && k < |actions| && actions[k].Start? && !Busy(states[k])
    ensures TurnsOf(states, actions, k + 1, actions[k].operationId) == []
    ensures Follows(settings, states[k + 1], actions[k].operationId, actions[k].operationType, [])
  {
    var id := actions[k].operationId;
    RunKeepsInv(settings, states, actions, k);
    RunStep(settings, states, actions, k);
    NoTurnsBefore(settings, states, actions, k, id);
    hide Continue, TerminalWrites, AfterRestart, Records, At;
    assert forall w :: w in states[k + 1].writes && w.operationId == id ==> !w.status.IsTerminal();
    AtStart(settings, actions[k].operationType);
  }

  lemma AtStart(settings: Settings, operationType: OperationType)
    ensures At(settings, operationType, NotStarted, [])
  {
  }

  lemma {:induction false} RunFollows(settings: Settings, states: seq<System>, actions: seq<Action>, k: nat, i: nat)
    requires Run(settings, states, actions) && k < i < |states| && |states| == |actions| + 1
    requires actions[k].Start? && !Busy(states[k])
    ensures Inv(states[i])
    ensures Follows(settings, states[i], actions[k].operationId, actions[k].operationType,
      TurnsOf(states, actions, i, actions[k].operationId))
  {
    hide Initial, CanAct, Next, Inv, Follows, Resumes;
    RunKeepsInv(settings, states, actions, i);
    if i == k + 1 {
      FollowsAfterStart(settings, states, actions, k);
    } else {
      var id := actions[k].operationId;
      RunFollows(settings, states, actions, k, i - 1);
      RunStep(settings, states, actions, i - 1);
      NextFollows(settings, states[i - 1], actions[i - 1], id, actions[k].operationType,
        TurnsOf(states, actions, i - 1, id));
    }
  }

  /**
  In every run, from the start of an operation on: its task has returned exactly when its turns decide
  the outcome; until then its active state is stored, naming the container that runs for it, and then that
  outcome; and no other outcome is ever written for it, except the interruption that a restart records.
  */
  lemma OutcomeInRun(settings: Settings, states: seq<System>, actions: seq<Action>, k: nat, i: nat)
    requires Run(settings, states, actions) && k < i < |states| && |states| == |actions| + 1
    requires actions[k].Start? && !Busy(states[k])
    ensures
      var s, id, operationType := states[i], actions[k].operationId, actions[k].operationType;
      var turns := TurnsOf(states, actions, i, id);
      && (Current(s, id) ==> (s.task.value.point.Returned? <==> Over(settings, operationType, turns)))
      && (Current(s, id) && s.task.value.point.Returned? ==>
            s.stored.Some? && Records(settings, id, operationType, turns, s.stored.value))
      && StoresActive(settings, s, id, operationType, turns)
      && forall w :: w in s.writes && w.operationId == id && w.status.IsTerminal() ==>
          w.status == Interrupted || Records(settings, id, operationType, turns, w)
  {
    hide Initial, CanAct, Next, Inv, Records, At, Over, InspectionFound, HasSucceeded, StoresActive;
    var id, operationType := actions[k].operationId, actions[k].operationType;
    RunFollows(settings, states, actions, k, i);
    if Current(states[i], id) {
      AtIsOver(settings, operationType, states[i].task.value.point, TurnsOf(states, actions, i, id));
    }
  }

  /**
  SUCCEEDED is written for an operation if and only if it prepares an image, its command ended with 0 and
  was not cancelled by then, and the inspection ended with 0 and printed something.
  */
  lemma SucceededExactly(settings: Settings, states: seq<System>, actions: seq<Action>, k: nat, i: nat)
    requires Run(settings, states, actions) && k < i < |states| && |states| == |actions| + 1
    requires actions[k].Start? && !Busy(states[k])
    ensures var id := actions[k].operationId;
      HasSucceeded(states[i], id) <==>
        !actions[k].operationType.RunTests? && InspectionFound(TurnsOf(states, actions, i, id))
  {
    hide Initial, CanAct, Next, Inv, At, InspectionFound, IsLastLine;
    var id, operationType := actions[k].operationId, actions[k].operationType;
    var turns := TurnsOf(states, actions, i, id);
    RunFollows(settings, states, actions, k, i);
    if HasSucceeded(states[i], id) {
      var n :| 0 <= n < |states[i].writes| && states[i].writes[n].operationId == id
        && states[i].writes[n].status == Succeeded;
      assert Records(settings, id, operationType, turns, states[i].writes[n]);
    }
  }

  // ----- Cancellation and shutdown -----

  lemma CancelsGrow(s: System, settings: Settings, a: Action)
    requires CanAct(s, a)
    ensures s.cancelAccepted <= Next(s, settings, a).cancelAccepted
  {
    hide Continue, AfterRestart;
    match a
    case Restart => RestartKeepsCancels(s);
    case RestartDuringStart(id, operationType) =>
      RestartKeepsCancels(Save(s, [Started(id, operationType)]).(accepted := s.accepted + {id}));
    case RestartDuring(resume, facts, written) =>
      var states := Continue(settings, s.task.value, s.cancelRequested, resume, facts).writes;
      RestartKeepsCancels(Save(s, Begun(states, written)));
    case _ =>
  }

  lemma RestartKeepsCancels(s: System)
    ensures AfterRestart(s).cancelAccepted == s.cancelAccepted
  {
  }

  lemma {:induction false} CancelsStay(
    settings: Settings, states: seq<System>, actions: seq<Action>, k: nat, j: nat
  )
    requires Run(settings, states, actions) && k <= j < |states| && |states| == |actions| + 1
    ensures states[k].cancelAccepted <= states[j].cancelAccepted
  {
    hide Initial, CanAct, Next;
    if k < j {
      CancelsStay(settings, states, actions, k, j - 1);
      RunStep(settings, states, actions, j - 1);
      CancelsGrow(states[j - 1], settings, actions[j - 1]);
    }
  }

  /**
  A cancellation while an active state is stored and there is a task reaches every later turn of that
  operation; any other one changes nothing.
  */
  lemma CancelInRun(settings: Settings, states: seq<System>, actions: seq<Action>, k: nat, j: nat)
    requires Run(settings, states, actions) && k < j < |states| && |states| == |actions| + 1
    requires actions[k].CancelBegin?
    ensures var s := states[k];
      if s.stored.Some? && IsActive(s.stored.value) && s.task.Some? then
        Current(states[j], s.stored.value.operationId) ==> states[j].cancelRequested
      else
        states[k + 1] == s
  {
    hide Initial, Inv;
    RunKeepsInv(settings, states, actions, k);
    RunKeepsInv(settings, states, actions, j);
    RunStep(settings, states, actions, k);
    CancelsStay(settings, states, actions, k + 1, j);
    hide CanAct, Next;
    if states[j].task.Some? {
      FlagIsOwn(states[j]);
    }
  }

  lemma FlagIsOwn(s: System)
    requires Inv(s) && s.task.Some?
    ensures s.cancelRequested <==> s.task.value.state.operationId in s.cancelAccepted
  {
    hide HistoryAgrees, TerminalWrites;
  }

  /** A shutdown has cancelled the task of this operation, for which this state was stored then. */
  predicate ShutDown(s: System, id: string, stored: Option<OperationState>) {
    && id in s.accepted
    && (Current(s, id) ==>
          && s.stored == stored
          && (s.task.value.point.CancelledByShutdown?
              || (s.task.value.cancelPending && !s.task.value.point.Done())))
    && NoOutcome(s.writes, id)
  }

  predicate NoOutcome(writes: seq<OperationState>, id: string) {
    forall w :: w in writes && w.operationId == id ==> !w.status.IsTerminal() || w.status == Interrupted
  }

  lemma NoOutcomeYet(s: System, states: seq<OperationState>, id: string)
    requires NoOutcome(s.writes, id) && NoOutcome(states, id)
    ensures NoOutcome(Save(s, states).writes, id)
  {
  }

  lemma RestartShutDown(s: System, id: string, stored: Option<OperationState>)
    requires id in s.accepted && NoOutcome(s.writes, id)
    ensures ShutDown(AfterRestart(s), id, stored)
  {
  }

  lemma NextShutDown(s: System, settings: Settings, a: Action, id: string, stored: Option<OperationState>)
    requires Inv(s) && CanAct(s, a) && ShutDown(s, id, stored)
    ensures ShutDown(Next(s, settings, a), id, stored)
  {
    hide Continue, Inv, AfterRestart;
    match a
    case ResumeTask(resume, facts) =>
      var stretch := Continue(settings, s.task.value, s.cancelRequested, resume, facts);
      TaskShutDown(s, settings, resume, facts, id, stored);
      NoOutcomeYet(s, stretch.writes, id);
    case Restart => RestartShutDown(s, id, stored);
    case RestartDuringStart(other, operationType) =>
      var t := Save(s, [Started(other, operationType)]).(accepted := s.accepted + {other});
      NoOutcomeYet(s, [Started(other, operationType)], id);
      RestartShutDown(t, id, stored);
    case RestartDuring(resume, facts, written) =>
      var stretch := Continue(settings, s.task.value, s.cancelRequested, resume, facts);
      TaskShutDown(s, settings, resume, facts, id, stored);
      NoOutcomeYet(s, Begun(stretch.writes, written), id);
      RestartShutDown(Save(s, Begun(stretch.writes, written)), id, stored);
    case _ =>
  }

  lemma TaskShutDown(
    s: System, settings: Settings, resume: Resume, facts: Facts, id: string, stored: Option<OperationState>
  )
    requires Inv(s) && ShutDown(s, id, stored) && s.task.Some? && Enabled(s.task.value.point, resume)
    ensures var stretch := Continue(settings, s.task.value, s.cancelRequested, resume, facts);
      && NoOutcome(stretch.writes, id)
      && (Current(s, id) ==> stretch == Stretch([], CancelledByShutdown))
  {
    hide Continue, HistoryAgrees, TerminalWrites, OwnWrites;
    var stretch := Continue(settings, s.task.value, s.cancelRequested, resume, facts);
    StretchWrites(settings, s.task.value, s.cancelRequested, resume, facts);
    NotYetReturned(s, resume);
    if !Current(s, id) {
      ForeignWrites(s.task.value.state, s.cancelRequested, stretch, id);
    }
  }

  lemma {:induction false} StepsShutDown(
    settings: Settings, states: seq<System>, actions: seq<Action>, i: nat, id: string, stored: Option<OperationState>
  )
    requires Steps(settings, states, actions) && i < |states|
    requires Inv(states[0]) && ShutDown(states[0], id, stored)
    ensures Inv(states[i]) && ShutDown(states[i], id, stored)
  {
    hide Inv, CanAct, Next, ShutDown;
    if i > 0 {
      StepsShutDown(settings, states, actions, i - 1, id, stored);
      NextKeepsInv(states[i - 1], settings, actions[i - 1]);
      NextShutDown(states[i - 1], settings, actions[i - 1], id, stored);
    }
  }

  /**
  A task that a shutdown cancels ends without a write: as long as it is the current one, what was stored
  stays stored, and no outcome is ever written for its operation but the interruption at a restart.
  */
  lemma ShutdownInRun(settings: Settings, states: seq<System>, actions: seq<Action>, k: nat, j: nat, id: string)
    requires Run(settings, states, actions) && k < j < |states| && |states| == |actions| + 1
    requires actions[k] == ShutdownCancel(id) && Busy(states[k]) && Current(states[k], id)
    ensures Current(states[j], id) ==>
      && states[j].stored == states[k].stored && states[j].stored.Some? && IsActive(states[j].stored.value)
      && !states[j].task.value.point.Returned?
    ensures NoOutcome(states[j].writes, id)
  {
    hide Initial, Inv, Next, ShutDown, NoOutcome;
    RunKeepsInv(settings, states, actions, k);
    RunKeepsInv(settings, states, actions, k + 1);
    RunKeepsInv(settings, states, actions, j);
    RunStep(settings, states, actions, k);
    ShutdownStarts(states[k], settings, id);
    StepsFrom(settings, states, actions, k + 1);
    StepsShutDown(settings, states[k + 1..], actions[k + 1..], j - k - 1, id, states[k].stored);
    assert states[k + 1..][j - k - 1] == states[j];
    ShutDownMeans(states[j], id, states[k].stored);
  }

  lemma ShutdownStarts(s: System, settings: Settings, id: string)
    requires Inv(s) && Busy(s) && Current(s, id)
    ensures ShutDown(Next(s, settings, ShutdownCancel(id)), id, s.stored)
  {
    hide HistoryAgrees;
    NothingRecorded(s.writes, id);
  }

  lemma ShutDownMeans(s: System, id: string, stored: Option<OperationState>)
    requires Inv(s) && ShutDown(s, id, stored)
    ensures NoOutcome(s.writes, id)
    ensures Current(s, id) ==>
      s.stored == stored && stored.Some? && IsActive(stored.value) && !s.task.value.point.Returned?
  {
    hide HistoryAgrees, NoOutcome, TerminalWrites;
  }
}
