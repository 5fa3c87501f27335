/**
One persistent console shell: a command is submitted with a marker to print after it, and its output
and exit status are recovered from whatever the console sends, however that is cut into chunks. The
console's bytes and the characters they stand for are identified.
*/
module Console {
  import opened Sequences
  import opened ShellQuoting
  import Shell

  // ----- Line ends -----

  /** value.replace("\r\n", "\n") */
  function ReplaceCrLf(s: string): string {
    if |s| < 2 then s
    else if s[0] == '\r' && s[1] == '\n' then "\n" + ReplaceCrLf(s[2..])
    else [s[0]] + ReplaceCrLf(s[1..])
  }

  /** value.replace("\r", "\n") */
  function ReplaceCr(s: string): (r: string)
    ensures |r| == |s|
    ensures forall i :: 0 <= i < |s| ==> r[i] == if s[i] == '\r' then '\n' else s[i]
  {
    seq(|s|, i requires 0 <= i < |s| => if s[i] == '\r' then '\n' else s[i])
  }

  function Normalize(s: string): string { ReplaceCr(ReplaceCrLf(s)) }

  /** Both replacements in one pass. */
  function NormalizeOnce(s: string): string {
    if s == "" then ""
    else if s[0] == '\r' then "\n" + NormalizeOnce(if |s| > 1 && s[1] == '\n' then s[2..] else s[1..])
    else [s[0]] + NormalizeOnce(s[1..])
  }

  lemma {:induction false} NormalizeInOnePass(s: string)
    ensures Normalize(s) == NormalizeOnce(s)
  {
    if |s| >= 2 {
      var rest := if s[0] == '\r' && s[1] == '\n' then s[2..] else s[1..];
      NormalizeInOnePass(rest);
      assert ReplaceCr(ReplaceCrLf(s))[1..] == ReplaceCr(ReplaceCrLf(rest));
    } else if |s| == 1 {
      assert s[1..] == "";
    }
  }

  lemma {:induction false} NormalizeOncePrefix(p: string, q: string)
    ensures NormalizeOnce(p) <= NormalizeOnce(p + q)
  {
    if p != "" {
      var n := if p[0] == '\r' && |p| > 1 && p[1] == '\n' then 2 else 1;
      if n == |p| && p == "\r" {
        assert NormalizeOnce(p) == "\n";
      } else {
        assert (p + q)[n..] == p[n..] + q;
        NormalizeOncePrefix(p[n..], q);
      }
    }
  }

  /** More input only extends the normalized text, even when a CRLF is split between chunks. */
  lemma NormalizePrefix(p: string, q: string)
    ensures Normalize(p) <= Normalize(p + q)
  {
    NormalizeInOnePass(p);
    NormalizeInOnePass(p + q);
    NormalizeOncePrefix(p, q);
  }

  /** What a terminal makes of its output: CRLF for every newline. */
  function ToTerminal(s: string): string {
    if s == "" then "" else (if s[0] == '\n' then "\r\n" else [s[0]]) + ToTerminal(s[1..])
  }

  lemma NormalizeFirst(first: string, rest: string)
    requires first == "\r\n" || (|first| == 1 && first[0] != '\r')
    ensures NormalizeOnce(first + rest) == (if first == "\r\n" then "\n" else first) + NormalizeOnce(rest)
  {
    assert (first + rest)[|first|..] == rest;
  }

  lemma {:induction false} TerminalRoundTripOnce(s: string)
    requires '\r' !in s
    ensures NormalizeOnce(ToTerminal(s)) == s
  {
    hide NormalizeOnce;
    if s == "" {
      NothingNormalized();
    } else {
      var rest := s[1..];
      TerminalRoundTripOnce(rest);
      NormalizeFirst(if s[0] == '\n' then "\r\n" else [s[0]], ToTerminal(rest));
      assert s == [s[0]] + rest;
    }
  }

  lemma NothingNormalized()
    ensures NormalizeOnce("") == ""
  {
  }

  lemma TerminalRoundTrip(s: string)
    requires '\r' !in s
    ensures Normalize(ToTerminal(s)) == s
  {
    NormalizeInOnePass(ToTerminal(s));
    TerminalRoundTripOnce(s);
  }

  // ----- The marker -----

  predicate IsDigit(c: char) { '0' <= c <= '9' }

  predicate AllDigits(s: string) { s != "" && forall i :: 0 <= i < |s| ==> IsDigit(s[i]) }

  /** -?\d+ */
  predicate IsNumber(s: string) { AllDigits(s) || (s != "" && s[0] == '-' && AllDigits(s[1..])) }

  function DigitsValue(s: string): nat
    requires forall i :: 0 <= i < |s| ==> IsDigit(s[i])
  {
    if s == "" then 0
    else
      assert IsDigit(s[|s| - 1]);
      DigitsValue(s[..|s| - 1]) * 10 + (s[|s| - 1] as int - '0' as int)
  }

  function NumberValue(s: string): int
    requires IsNumber(s)
  {
    if s[0] == '-' then 0 - (DigitsValue(s[1..]) as int) else DigitsValue(s)
  }

  /** newline, token, number, newline: from the newline at i to the newline at j. */
  predicate MarkerAt(token: string, s: string, i: nat, j: nat) {
    && i + 1 + |token| <= j < |s|
    && s[i] == '\n' && s[j] == '\n'
    && s[i + 1..i + 1 + |token|] == token
    && IsNumber(s[i + 1 + |token|..j])
  }

  datatype Match = Match(start: nat, stop: nat)

  /** The scan of re.search from position i. */
  function Search(token: string, s: string, i: nat): Option<Match>
    requires i <= |s|
    decreases |s| - i
  {
    if i == |s| then None
    else
      var j := i + 1 + IndexOf(s[i + 1..], '\n');
      if MarkerAt(token, s, i, j) then Some(Match(i, j)) else Search(token, s, i + 1)
  }

  /** Where a marker starts there is only one place where it can end: the next newline. */
  lemma MarkerEnd(token: string, s: string, i: nat, j: nat)
    requires '\n' !in token && MarkerAt(token, s, i, j)
    ensures i < j < |s| && s[i] == '\n' && j == i + 1 + IndexOf(s[i + 1..], '\n')
    ensures forall k :: i < k < j ==> s[k] != '\n'
  {
    var a := i + 1 + |token|;
    forall k | i < k < j ensures s[k] != '\n' {
      if k < a {
        assert s[k] == s[i + 1..a][k - i - 1];
      } else {
        NumberHasNoNewline(s[a..j]);
        assert s[k] == s[a..j][k - a];
      }
    }
    IndexOfIs(s[i + 1..], '\n', j - i - 1);
  }

  lemma NumberHasNoNewline(t: string)
    requires IsNumber(t)
    ensures '\n' !in t
  {
    forall k | 0 <= k < |t| ensures t[k] != '\n' {
      if !AllDigits(t) && k > 0 {
        assert t[k] == t[1..][k - 1];
      }
    }
  }

  /** What Search returns is a marker. */
  lemma {:induction false} SearchFindsMarker(token: string, s: string, i: nat)
    requires i <= |s| && Search(token, s, i).Some?
    ensures var m := Search(token, s, i).value;
      i <= m.start && m.start + 1 + |token| <= m.stop < |s| && MarkerAt(token, s, m.start, m.stop)
    decreases |s| - i
  {
    hide IsNumber;
    var j := i + 1 + IndexOf(s[i + 1..], '\n');
    if !MarkerAt(token, s, i, j) {
      SearchFindsMarker(token, s, i + 1);
    }
  }

  lemma SearchStep(token: string, s: string, i: nat, j: nat)
    requires i < |s| && j == i + 1 + IndexOf(s[i + 1..], '\n')
    ensures Search(token, s, i) == if MarkerAt(token, s, i, j) then Some(Match(i, j)) else Search(token, s, i + 1)
  {
  }

  /** No marker starts before the one that Search returns; with None there is no marker at all. */
  lemma {:induction false} SearchIsLeftmost(token: string, s: string, i: nat, a: nat, b: nat)
    requires '\n' !in token && i <= a && MarkerAt(token, s, a, b)
    ensures i <= a < |s| && Search(token, s, i).Some? && Search(token, s, i).value.start <= a
    decreases a - i
  {
    hide *;
    MarkerEnd(token, s, a, b);
    SearchStep(token, s, i, i + 1 + IndexOf(s[i + 1..], '\n'));
    if i < a {
      SearchIsLeftmost(token, s, i + 1, a, b);
    }
  }

  /** A marker in a prefix is a marker in the whole, and the other way round when it fits. */
  lemma MarkerInPrefix(token: string, p: string, s: string, i: nat, j: nat)
    requires p <= s && j < |p|
    ensures MarkerAt(token, p, i, j) == MarkerAt(token, s, i, j)
  {
    hide IsNumber;
    if i + 1 + |token| <= j {
      assert p[i + 1..i + 1 + |token|] == s[i + 1..i + 1 + |token|];
      assert p[i + 1 + |token|..j] == s[i + 1 + |token|..j];
    }
  }

  /**
  Once the leftmost marker of a prefix is complete, no later input can create an earlier one: an
  earlier marker would have to contain the newline with which this one starts.
  */
  lemma SearchIsStable(token: string, p: string, s: string)
    requires '\n' !in token && p <= s && Search(token, p, 0).Some?
    ensures Search(token, s, 0) == Search(token, p, 0)
  {
    hide IsNumber, Search, MarkerAt, IndexOf;
    var m := Search(token, p, 0).value;
    SearchFindsMarker(token, p, 0);
    MarkerInPrefix(token, p, s, m.start, m.stop);
    SearchIsLeftmost(token, s, 0, m.start, m.stop);
    var found := Search(token, s, 0).value;
    SearchFindsMarker(token, s, 0);
    MarkerEnd(token, s, found.start, found.stop);
    MarkerEnd(token, s, m.start, m.stop);
    if found.start < m.start {
      MarkerInPrefix(token, p, s, found.start, found.stop);
      SearchIsLeftmost(token, p, 0, found.start, found.stop);
    }
  }

  // ----- Reading a response -----

  /** One pass of the polling loop before the deadline. */
  datatype Event = Chunk(data: string) | Idle | ChannelClosed

  function Received(events: seq<Event>): string {
    if events == [] then ""
    else
      var last := events[|events| - 1];
      Received(events[..|events| - 1]) + if last.Chunk? then last.data else ""
  }

  predicate EndsWith(s: string, suffix: string) {
    |suffix| <= |s| && s[|s| - |suffix|..] == suffix
  }

  /** The marker is there and what follows it ends with the prompt. */
  predicate Complete(token: string, prompt: string, data: string) {
    var text := Normalize(data);
    var m := Search(token, text, 0);
    m.Some? && m.value.stop < |text| && EndsWith(text[m.value.stop + 1..], prompt)
  }

  datatype Response = Returned(text: string, exitCode: int) | Closed | TimedOut(partial: string)

  /** Text and exit status of the leftmost marker in what was received. */
  predicate IsAnswer(token: string, data: string, text: string, exitCode: int) {
    var s := Normalize(data);
    var m := Search(token, s, 0);
    && m.Some? && m.value.start + 1 + |token| <= m.value.stop < |s|
    && text == s[..m.value.start]
    && var number := s[m.value.start + 1 + |token|..m.value.stop];
      IsNumber(number) && exitCode == NumberValue(number)
  }

  lemma MatchFits(token: string, text: string)
    requires '\n' !in token
    ensures
      var m := Search(token, text, 0);
      m.Some? ==>
        && m.value.start + 1 + |token| <= m.value.stop < |text|
        && IsNumber(text[m.value.start + 1 + |token|..m.value.stop])
  {
    hide Search, IsNumber;
    if Search(token, text, 0).Some? {
      SearchFindsMarker(token, text, 0);
    }
  }

  /** What the code looks for after each chunk: the marker, and the prompt at the end of what follows it. */
  function Found(token: string, prompt: string, data: string): (r: Option<(string, int)>)
    requires '\n' !in token
  {
    hide Search, Normalize, IsNumber, NumberValue, EndsWith;
    var text := Normalize(data);
    var m := Search(token, text, 0);
    MatchFits(token, text);
    if m.Some? && EndsWith(text[m.value.stop + 1..], prompt) then
      Some((text[..m.value.start], NumberValue(text[m.value.start + 1 + |token|..m.value.stop])))
    else None
  }

  lemma FoundWhen(token: string, prompt: string, data: string)
    requires '\n' !in token
    ensures Found(token, prompt, data).Some? <==> Complete(token, prompt, data)
    ensures Found(token, prompt, data).Some? ==>
      IsAnswer(token, data, Found(token, prompt, data).value.0, Found(token, prompt, data).value.1)
  {
    hide Search, Normalize, IsNumber, NumberValue, EndsWith, IsAnswer, Complete;
    CompleteWhen(token, prompt, data);
  }

  /** No poll of these was the last: neither a complete response nor a closed channel. */
  ghost predicate Undecided(token: string, prompt: string, events: seq<Event>) {
    && ChannelClosed !in events
    && forall k :: 0 <= k <= |events| ==> !Complete(token, prompt, Received(events[..k]))
  }

  /** A read that ends with this response after these polls, and not before. */
  ghost predicate ReadsTo(token: string, prompt: string, events: seq<Event>, r: Response, polls: nat) {
    && polls <= |events|
    && match r
    case Returned(text, exitCode) =>
      && polls > 0 && Undecided(token, prompt, events[..polls - 1])
      && ChannelClosed !in events[..polls]
      && Complete(token, prompt, Received(events[..polls]))
      && IsAnswer(token, Received(events[..polls]), text, exitCode)
    case Closed =>
      && polls > 0 && Undecided(token, prompt, events[..polls - 1])
      && events[polls - 1] == ChannelClosed
    case TimedOut(partial) =>
      Undecided(token, prompt, events) && partial == Normalize(Received(events))
  }

  lemma ReturnedReads(token: string, prompt: string, events: seq<Event>, i: nat, text: string, exitCode: int)
    requires i < |events| && Undecided(token, prompt, events[..i]) && ChannelClosed !in events[..i + 1]
    requires Complete(token, prompt, Received(events[..i + 1]))
    requires IsAnswer(token, Received(events[..i + 1]), text, exitCode)
    ensures ReadsTo(token, prompt, events, Returned(text, exitCode), i + 1)
  {
    hide Undecided, Complete, IsAnswer, Received;
  }

  lemma ClosedReads(token: string, prompt: string, events: seq<Event>, i: nat)
    requires i < |events| && Undecided(token, prompt, events[..i]) && events[i] == ChannelClosed
    ensures ReadsTo(token, prompt, events, Closed, i + 1)
  {
    hide Undecided;
  }

  lemma TimedOutReads(token: string, prompt: string, events: seq<Event>)
    requires Undecided(token, prompt, events)
    ensures ReadsTo(token, prompt, events, TimedOut(Normalize(Received(events))), |events|)
  {
    hide Undecided, Normalize, Received;
  }

  predicate DecidedAt(token: string, prompt: string, events: seq<Event>, k: nat) {
    0 < k <= |events| && (events[k - 1] == ChannelClosed || Complete(token, prompt, Received(events[..k])))
  }

  lemma DecidedStays(token: string, prompt: string, events: seq<Event>, k: nat, n: nat)
    ensures DecidedAt(token, prompt, events, k) && k <= n <= |events| ==> !Undecided(token, prompt, events[..n])
  {
    hide Complete, Received;
    if 0 < k <= n <= |events| {
      assert events[..n][..k] == events[..k] && events[..n][k - 1] == events[k - 1];
    }
  }

  /** The polls determine the response. */
  lemma ReadIsDetermined(token: string, prompt: string, events: seq<Event>,
                         r1: Response, polls1: nat, r2: Response, polls2: nat)
    requires ReadsTo(token, prompt, events, r1, polls1) && ReadsTo(token, prompt, events, r2, polls2)
    ensures r1 == r2
  {
    hide Complete, Received, Undecided, Search, Normalize, IsNumber, NumberValue;
    assert events[..|events|] == events;
    DecidedStays(token, prompt, events, polls1, |events|);
    DecidedStays(token, prompt, events, polls2, |events|);
    if polls1 > 0 && polls2 > 0 {
      DecidedStays(token, prompt, events, polls1, polls2 - 1);
      DecidedStays(token, prompt, events, polls2, polls1 - 1);
    }
  }

  /** The loop that accumulates chunks until the response is complete, or the channel or time ends. */
  method ReadCommandResponse(token: string, prompt: string, events: seq<Event>) returns (r: Response)
    requires '\n' !in token
    ensures exists polls :: ReadsTo(token, prompt, events, r, polls)
  {
    hide *;
    var buffer := "";
    UndecidedStarts(token, prompt);
    for i := 0 to |events|
      invariant buffer == Received(events[..i])
      invariant Undecided(token, prompt, events[..i])
    {
      ReceivedSnoc(events, i);
      match events[i] {
        case Chunk(data) =>
          buffer := buffer + data;
          FoundWhen(token, prompt, buffer);
          var found := Found(token, prompt, buffer);
          if found.Some? {
            NoneClosed(token, prompt, events, i);
            r := Returned(found.value.0, found.value.1);
            ReturnedReads(token, prompt, events, i, r.text, r.exitCode);
            return;
          }
        case ChannelClosed =>
          ClosedReads(token, prompt, events, i);
          return Closed;
        case Idle =>
          NotComplete(token, prompt, events[..i]);
          assert buffer + "" == buffer;
      }
      UndecidedGrows(token, prompt, events[..i], events[..i + 1]);
    }
    assert events[..|events|] == events;
    TimedOutReads(token, prompt, events);
    return TimedOut(Normalize(buffer));
  }

  lemma UndecidedStarts(token: string, prompt: string)
    ensures Received([]) == "" && Undecided(token, prompt, [])
  {
  }

  lemma ReceivedSnoc(events: seq<Event>, i: nat)
    requires i < |events|
    ensures events[..i + 1] == events[..i] + [events[i]]
    ensures Received(events[..i + 1])
      == Received(events[..i]) + if events[i].Chunk? then events[i].data else ""
  {
    assert events[..i + 1][..i] == events[..i];
  }

  /** What the code tests after a chunk is whether the response is complete. */
  lemma CompleteWhen(token: string, prompt: string, data: string)
    requires '\n' !in token
    ensures var s := Normalize(data);
      var m := Search(token, s, 0);
      && (m.Some? ==>
            && m.value.start + 1 + |token| <= m.value.stop < |s|
            && IsNumber(s[m.value.start + 1 + |token|..m.value.stop]))
      && (Complete(token, prompt, data) <==>
            m.Some? && m.value.stop < |s| && EndsWith(s[m.value.stop + 1..], prompt))
      && (m.Some? ==> IsAnswer(token, data, s[..m.value.start],
            NumberValue(s[m.value.start + 1 + |token|..m.value.stop])))
  {
    hide Search, Normalize, IsNumber, NumberValue, EndsWith;
    if Search(token, Normalize(data), 0).Some? {
      SearchFindsMarker(token, Normalize(data), 0);
    }
  }

  lemma NoneClosed(token: string, prompt: string, events: seq<Event>, i: nat)
    requires i < |events| && events[i].Chunk? && Undecided(token, prompt, events[..i])
    ensures ChannelClosed !in events[..i + 1]
  {
    assert events[..i + 1] == events[..i] + [events[i]];
  }

  lemma NotComplete(token: string, prompt: string, events: seq<Event>)
    requires Undecided(token, prompt, events)
    ensures !Complete(token, prompt, Received(events))
  {
    assert events[..|events|] == events;
  }

  lemma UndecidedGrows(token: string, prompt: string, before: seq<Event>, now: seq<Event>)
    requires Undecided(token, prompt, before)
    requires |now| == |before| + 1 && now[..|before|] == before && now[|before|] != ChannelClosed
    requires !Complete(token, prompt, Received(now))
    ensures Undecided(token, prompt, now)
  {
    hide Complete, Received;
    forall k | 0 <= k <= |now| ensures !Complete(token, prompt, Received(now[..k])) {
      if k < |now| {
        assert now[..k] == before[..k];
      } else {
        assert now[..k] == now;
      }
    }
    assert now == before + [now[|before|]];
  }

  /**
  Chunking independence: whatever two prefixes of one byte stream have been received when two reads
  return, however each was cut, both give the same text and the same exit status.
  */
  lemma ChunkingIndependence(token: string, stream: string, p1: string, p2: string,
                             text1: string, code1: int, text2: string, code2: int)
    requires '\n' !in token && p1 <= stream && p2 <= stream
    requires IsAnswer(token, p1, text1, code1) && IsAnswer(token, p2, text2, code2)
    ensures text1 == text2 && code1 == code2
    ensures IsAnswer(token, stream, text1, code1)
  {
    AnswerIsStable(token, p1, stream, text1, code1);
    AnswerIsStable(token, p2, stream, text2, code2);
  }

  lemma AnswerIsStable(token: string, p: string, stream: string, text: string, code: int)
    requires '\n' !in token && p <= stream && IsAnswer(token, p, text, code)
    ensures IsAnswer(token, stream, text, code)
  {
    hide Search, Normalize, IsNumber;
    assert stream == p + stream[|p|..];
    NormalizePrefix(p, stream[|p|..]);
    var s, whole := Normalize(p), Normalize(stream);
    SearchIsStable(token, s, whole);
    var m := Search(token, s, 0).value;
    assert s[..m.start] == whole[..m.start];
    assert s[m.start + 1 + |token|..m.stop] == whole[m.start + 1 + |token|..m.stop];
  }

  // ----- Executing a command -----

  predicate IsHex(s: string) { forall i :: 0 <= i < |s| ==> IsDigit(s[i]) || 'a' <= s[i] <= 'f' }

  function Token(hex: string): string { "__HARDWARE_TEST_EXIT_" + hex + "__" }
  function StatusName(hex: string): string { "__hardware_test_status_" + hex }

  /** The line that runs the command and prints the marker with its exit status. */
  function Submitted(text: string, prompt: string, token: string, statusName: string): string {
    "eval " + Quote(text) + "; " + statusName + "=$?; "
    + "PS1=" + Quote(prompt) + "; "
    + "printf '\\n" + token + "%s\\n' \"$" + statusName + "\""
  }

  /** What the submitted line leaves behind besides the variables of the command itself. */
  function VariablesAfter(e: Shell.Effect, prompt: string, statusName: string): map<string, string> {
    e.variables[statusName := Digits(e.status)]["PS1" := prompt]
  }

  /**
  A shell that runs the submitted line prints what the command prints, and then the marker with the status
  that the command, and no later part of the line, ended with; and the prompt is the configured one.
  */
  lemma SubmittedRuns(text: string, prompt: string, token: string, statusName: string, s: Shell.State, e: Shell.Effect)
    requires IsWordText(token) && IsName(statusName) && statusName != "PS1"
    ensures Shell.Run(Shell.Known(text, e), s, Submitted(text, prompt, token, statusName)) == Shell.Ran(Shell.State(
      Params(0, VariablesAfter(e, prompt, statusName)),
      s.output + e.output + ("\n" + token + Digits(e.status) + "\n")))
  {
    hide Quote, Shell.Run, Shell.Simple, IsName, IsWordText, Digits, VariablesAfter;
    var known := Shell.Known(text, e);
    var r3 := " printf '\\n" + token + "%s\\n' \"$" + statusName + "\"";
    var r2 := " PS1=" + Quote(prompt) + ";" + r3;
    var r1 := " " + statusName + "=$?;" + r2;
    var line := Submitted(text, prompt, token, statusName);
    assert line == "eval " + Quote(text) + ";" + r1;
    Shell.EvalRuns(known, s, r1);
    var s1 := Shell.State(Params(e.status, e.variables), s.output + e.output);
    Shell.RunStep(known, s, line, s1, r1);
    Shell.StatusIsSaved(known, s1, statusName, r2);
    var s2 := Shell.Assign(s1, statusName, Digits(e.status));
    Shell.RunStep(known, s1, r1, s2, r2);
    EndRuns(known, s2, prompt, token, statusName, Digits(e.status));
    VariablesAre(e, prompt, statusName);
  }

  lemma VariablesAre(e: Shell.Effect, prompt: string, statusName: string)
    ensures VariablesAfter(e, prompt, statusName) == e.variables[statusName := Digits(e.status)]["PS1" := prompt]
  {
  }

  /** The end of the line: the prompt is set and the saved status printed. */
  lemma EndRuns(known: Shell.Known, s: Shell.State, prompt: string, token: string, statusName: string, saved: string)
    requires IsWordText(token) && IsName(statusName) && statusName != "PS1"
    requires ValueOf(s.params, statusName) == saved
    ensures
      var end := " printf '\\n" + token + "%s\\n' \"$" + statusName + "\"";
      Shell.Run(known, s, " PS1=" + Quote(prompt) + ";" + end) == Shell.Ran(Shell.State(
        Params(0, s.params.variables["PS1" := prompt]), s.output + ("\n" + token + saved + "\n")))
  {
    hide Quote, Shell.Run, Shell.Simple, IsName, IsWordText;
    var end := " printf '\\n" + token + "%s\\n' \"$" + statusName + "\"";
    PromptIsName();
    Shell.QuotedAssignmentRuns(known, s, "PS1", prompt, end);
    assert " " + "PS1" + "=" == " PS1=";
    var after := Shell.Assign(s, "PS1", prompt);
    Shell.RunStep(known, s, " PS1=" + Quote(prompt) + ";" + end, after, end);
    WordIsPlain(token);
    Shell.PrintfRuns(known, after, token, statusName);
    assert ValueOf(after.params, statusName) == saved;
  }

  lemma PromptIsName()
    ensures IsName("PS1")
  {
  }

  lemma WordIsPlain(s: string)
    requires IsWordText(s)
    ensures Shell.IsPlain(s)
  {
  }

  lemma StatusNameIsName(hex: string)
    requires IsHex(hex)
    ensures IsName(StatusName(hex)) && StatusName(hex) != "PS1"
  {
  }

  function RemoveEcho(response: string, submitted: string): string {
    var normalized := LStrip(response, '\n');
    if submitted <= normalized then LStrip(normalized[|submitted|..], '\n') else normalized
  }

  datatype CommandResult = CommandResult(stdout: string, stderr: string, exitCode: int)

  datatype Execution = Finished(result: CommandResult) | NotFinished(response: Response) | NotOpen

  lemma {:induction false} DigitsRoundTrip(n: nat)
    ensures AllDigits(Digits(n)) && DigitsValue(Digits(n)) == n
    ensures IsNumber(Digits(n)) && NumberValue(Digits(n)) == n
  {
    var d := Digits(n);
    if n >= 10 {
      DigitsRoundTrip(n / 10);
      assert d[..|d| - 1] == Digits(n / 10);
    } else {
      assert d[..0] == "";
    }
    assert IsDigit(d[0]);
  }

  /** What the console sends: an optional echo, the output, the printed marker and the next prompt. */
  function ConsoleText(echo: string, output: string, token: string, status: nat, prompt: string): string {
    echo + output + ("\n" + token + Digits(status) + "\n" + prompt)
  }

  function Echo(submitted: string, echoed: bool): string { if echoed then submitted + "\n" else "" }

  /** No line of s but the first begins with the token. */
  ghost predicate Hidden(s: string, token: string) {
    forall a: nat :: a < |s| && s[a] == '\n' ==> !OccursAt(token, s, a + 1)
  }

  lemma CharacterOfOccurrence(t: string, s: string, k: nat, x: nat)
    requires OccursAt(t, s, k) && k <= x < k + |t|
    ensures s[x] in t
  {
    assert s[k..k + |t|][x - k] == s[x];
  }

  /** An occurrence behind a newline lies on one side of a space that the token does not have. */
  lemma OccurrenceOnOneSide(p: string, r: string, token: string, a: nat)
    requires p != "" && p[|p| - 1] == ' ' && ' ' !in token
    requires a < |p + r| && (p + r)[a] == '\n' && OccursAt(token, p + r, a + 1)
    ensures a < |p| ==> OccursAt(token, p, a + 1)
    ensures a >= |p| ==> OccursAt(token, r, a + 1 - |p|)
  {
    if a >= |p| {
      assert p + r == p + r + "";
      OccurrenceInPart(token, p, r, "", a + 1);
    } else {
      if a + 1 + |token| > |p| {
        CharacterOfOccurrence(token, p + r, a + 1, |p| - 1);
      }
      assert p + r == "" + p + r;
      OccurrenceInPart(token, "", p, r, a + 1);
    }
  }

  lemma HiddenConcat(p: string, r: string, token: string)
    requires p != "" && p[|p| - 1] == ' ' && ' ' !in token
    requires Hidden(p, token) && Hidden(r, token)
    ensures Hidden(p + r, token)
  {
    hide OccursAt;
    forall a: nat | a < |p + r| && (p + r)[a] == '\n' ensures !OccursAt(token, p + r, a + 1) {
      if OccursAt(token, p + r, a + 1) {
        OccurrenceOnOneSide(p, r, token, a);
      }
    }
  }

  /** A quoted text hides every token without quotes that the text itself does not contain. */
  lemma HiddenQuoted(before: string, text: string, token: string)
    requires '\n' !in before && token != "" && '\'' !in token && '"' !in token
    requires !Contains(text, token)
    ensures Hidden(before + Quote(text) + "; ", token)
  {
    if AllSafe(text) {
      SafeHasNoNewline(text);
    } else {
      var head, body, tail := before + "'", Escape(text), "'; ";
      assert before + Quote(text) + "; " == head + body + tail;
      HiddenEscaped(head, text, tail, token);
    }
  }

  lemma SafeHasNoNewline(text: string)
    requires AllSafe(text)
    ensures '\n' !in text && '\n' !in Quote(text)
  {
    forall i | 0 <= i < |text| ensures text[i] != '\n' {
      assert IsSafe(text[i]);
    }
  }

  lemma HiddenEscaped(head: string, text: string, tail: string, token: string)
    requires '\n' !in head && '\n' !in tail && tail != "" && tail[0] == '\''
    requires token != "" && '\'' !in token && '"' !in token && !Contains(text, token)
    ensures Hidden(head + Escape(text) + tail, token)
  {
    hide Contains, Escape;
    var body := Escape(text);
    var s := head + body + tail;
    forall a: nat | a < |s| && s[a] == '\n' ensures !OccursAt(token, s, a + 1) {
      if OccursAt(token, s, a + 1) {
        if a + 1 + |token| > |head + body| {
          CharacterOfOccurrence(token, s, a + 1, |head + body|);
        } else {
          OccurrenceInPart(token, head, body, tail, a + 1);
          EscapedOccurrence(text, token, a + 1 - |head|);
        }
      }
    }
  }

  predicate IsWordText(s: string) {
    forall i :: 0 <= i < |s| ==> IsDigit(s[i]) || 'a' <= s[i] <= 'z' || 'A' <= s[i] <= 'Z' || s[i] == '_'
  }

  lemma WordText(s: string)
    requires IsWordText(s)
    ensures '\n' !in s && '\'' !in s && '"' !in s && ' ' !in s && '\r' !in s
  {
  }

  lemma NamesAreWords(hex: string)
    requires IsHex(hex)
    ensures IsWordText(Token(hex)) && IsWordText(StatusName(hex)) && Token(hex) != ""
  {
  }

  /** The echoed printf is never taken for the marker: no line of the submitted text begins with it. */
  lemma SubmittedHidesMarker(text: string, prompt: string, token: string, statusName: string)
    requires IsWordText(token) && token != "" && IsWordText(statusName)
    requires !Contains(text, token) && !Contains(prompt, token)
    ensures Hidden(Submitted(text, prompt, token, statusName), token)
  {
    hide Quote, Contains, IsWordText, OccursAt;
    WordText(token);
    WordText(statusName);
    var p1 := "eval " + Quote(text) + "; ";
    var p2 := statusName + "=$?; ";
    var p3 := "PS1=" + Quote(prompt) + "; ";
    var p4 := "printf '\\n" + token + "%s\\n' \"$" + statusName + "\"";
    HiddenQuoted("eval ", text, token);
    HiddenQuoted("PS1=", prompt, token);
    HiddenConcat(p3, p4, token);
    HiddenConcat(p2, p3 + p4, token);
    HiddenConcat(p1, p2 + (p3 + p4), token);
    assert Submitted(text, prompt, token, statusName) == p1 + (p2 + (p3 + p4));
  }

  /** In what the console sends, the only marker is the printed one, right behind echo and output. */
  lemma FirstMarker(submitted: string, echoed: bool, output: string, token: string, status: nat, prompt: string)
    requires IsWordText(token) && token != "" && Hidden(submitted, token) && !Contains(output, token)
    ensures var before := Echo(submitted, echoed) + output;
      Search(token, ConsoleText(Echo(submitted, echoed), output, token, status, prompt), 0)
        == Some(Match(|before|, |before| + 1 + |token| + |Digits(status)|))
  {
    hide Search, IsNumber, IsWordText, Digits, IndexOf;
    WordText(token);
    DigitsRoundTrip(status);
    var echo := Echo(submitted, echoed);
    var s := ConsoleText(echo, output, token, status, prompt);
    var start := |echo + output|;
    var stop := start + 1 + |token| + |Digits(status)|;
    PrintedMarker(echo + output, token, status, prompt);
    SearchIsLeftmost(token, s, 0, start, stop);
    SearchFindsMarker(token, s, 0);
    var found := Search(token, s, 0).value;
    MarkerEnd(token, s, start, stop);
    MarkerEnd(token, s, found.start, found.stop);
    if found.start < start {
      EarlierMarker(submitted, echoed, output, token, s, found.start, found.stop);
      assert false;
    }
  }

  lemma PrintedMarker(before: string, token: string, status: nat, prompt: string)
    ensures MarkerAt(token, before + ("\n" + token + Digits(status) + "\n" + prompt),
      |before|, |before| + 1 + |token| + |Digits(status)|)
  {
    hide Digits, IsNumber;
    DigitsRoundTrip(status);
    var d := Digits(status);
    var s := before + ("\n" + token + d + "\n" + prompt);
    var i := |before|;
    assert s[i + 1..i + 1 + |token|] == token;
    assert s[i + 1 + |token|..i + 1 + |token| + |d|] == d;
  }

  lemma EchoCases(submitted: string, echoed: bool)
    ensures Echo(submitted, echoed) == if echoed then submitted + "\n" else ""
  {
  }

  lemma MarkerStarts(token: string, s: string, i: nat, j: nat)
    requires MarkerAt(token, s, i, j)
    ensures OccursAt(token, s, i + 1) && i < |s| && s[i] == '\n' && i + 1 + |token| <= j
  {
    hide IsNumber;
  }

  /** A marker before the printed one would put the token on a line of the echo or of the output. */
  lemma EarlierMarker(submitted: string, echoed: bool, output: string, token: string, s: string, i: nat, j: nat)
    requires '\n' !in token
    requires var before := Echo(submitted, echoed) + output;
      before <= s && i < |before| && |before| < |s| && s[|before|] == '\n'
    requires MarkerAt(token, s, i, j)
    ensures
      || (exists k: nat :: k <= |output| && OccursAt(token, output, k))
      || (i < |submitted| && submitted[i] == '\n' && OccursAt(token, submitted, i + 1))
  {
    hide *;
    var echo := Echo(submitted, echoed);
    EchoCases(submitted, echoed);
    MarkerStarts(token, s, i, j);
    MarkerEnd(token, s, i, j);
    var before := echo + output;
    var rest := s[|before|..];
    assert s == before + rest;
    if i + 1 >= |echo| {
      OccurrenceInPart(token, echo, output, rest, i + 1);
    } else {
      assert s[|submitted|] == '\n';
      assert s == "" + submitted + ("\n" + output + rest);
      OccurrenceInPart(token, "", submitted, "\n" + output + rest, i + 1);
    }
  }

  /** Everything the console sent, normalized, with its first marker complete and the prompt behind it. */
  lemma ConsoleAnswer(submitted: string, echoed: bool, output: string, token: string, status: nat, prompt: string)
    requires IsWordText(token) && token != "" && Hidden(submitted, token) && !Contains(output, token)
    requires '\r' !in output && '\r' !in prompt && (echoed ==> '\r' !in submitted)
    ensures var sent := ToTerminal(ConsoleText(Echo(submitted, echoed), output, token, status, prompt));
      && IsAnswer(token, sent, Echo(submitted, echoed) + output, status)
      && Complete(token, prompt, sent)
  {
    hide Search, IsNumber, IsWordText, Digits, Contains, Hidden, Normalize, ToTerminal;
    var before := Echo(submitted, echoed) + output;
    var text := ConsoleText(Echo(submitted, echoed), output, token, status, prompt);
    var d := Digits(status);
    WordText(token);
    DigitsRoundTrip(status);
    assert '\r' !in d by {
      DigitsHaveNoReturn(status);
    }
    assert '\r' !in text;
    TerminalRoundTrip(text);
    FirstMarker(submitted, echoed, output, token, status, prompt);
    assert text == before + "\n" + token + d + "\n" + prompt;
    assert text[..|before|] == before;
    assert text[|before| + 1 + |token|..|before| + 1 + |token| + |d|] == d;
    assert text[|before| + 1 + |token| + |d| + 1..] == prompt;
  }

  lemma DigitsHaveNoReturn(n: nat)
    ensures '\r' !in Digits(n)
  {
    DigitsRoundTrip(n);
  }

  lemma LStripFixed(s: string, x: char)
    requires s != "" && s[0] != x
    ensures LStrip(s, x) == s
  {
  }

  lemma LStripOnce(s: string, x: char)
    ensures LStrip([x] + s, x) == LStrip(s, x)
  {
    assert ([x] + s)[1..] == s;
  }

  lemma OccurrenceShifts(token: string, part: string, s: string, start: nat, k: nat)
    requires start <= |s| && part <= s[start..] && OccursAt(token, part, k)
    ensures OccursAt(token, s, start + k) && start + k <= |s|
  {
    assert s[start + k..start + k + |token|] == s[start..][k..k + |token|] == part[k..k + |token|];
  }

  /** Output without the token is not mistaken for an echo. */
  lemma NotAnEcho(submitted: string, output: string, token: string)
    requires !Contains(output, token) && Contains(submitted, token)
    ensures !(submitted <= LStrip(output, '\n'))
  {
    hide LStrip, OccursAt;
    var stripped := LStrip(output, '\n');
    var skipped := |output| - |stripped|;
    if submitted <= stripped {
      var k: nat :| k <= |submitted| && OccursAt(token, submitted, k);
      OccurrenceShifts(token, submitted, output, skipped, k);
    }
  }

  /** Removing the echo, where there is one, leaves the output without its leading newlines. */
  lemma EchoRemoved(submitted: string, echoed: bool, output: string, token: string)
    requires submitted != "" && submitted[0] != '\n'
    requires !Contains(output, token) && Contains(submitted, token)
    ensures RemoveEcho(Echo(submitted, echoed) + output, submitted) == LStrip(output, '\n')
  {
    hide LStrip, Contains;
    var response := Echo(submitted, echoed) + output;
    if echoed {
      LStripFixed(response, '\n');
      assert response[|submitted|..] == ['\n'] + output;
      LStripOnce(output, '\n');
    } else {
      assert response == output;
      NotAnEcho(submitted, output, token);
    }
  }

  lemma SubmittedShape(text: string, prompt: string, token: string, statusName: string)
    ensures var s := Submitted(text, prompt, token, statusName);
      s != "" && s[0] == 'e' && Contains(s, token)
  {
    hide Quote;
    var p := "eval " + Quote(text) + "; " + statusName + "=$?; " + "PS1=" + Quote(prompt) + "; " + "printf '\\n";
    var r := "%s\\n' \"$" + statusName + "\"";
    var s := Submitted(text, prompt, token, statusName);
    assert s == p + token + r;
    assert s[|p|..|p| + |token|] == token;
    assert OccursAt(token, s, |p|);
  }

  /**
  This is what the console sends for the submitted line: perhaps an echo of it, all that a shell prints
  that runs it, whatever state the shell is in, and the prompt that it is left with.
  */
  predicate Answers(command: UnixCommand, prompt: string, tokenHex: string, statusHex: string,
                    echoed: bool, s: Shell.State, e: Shell.Effect, sent: string)
  {
    var submitted := Submitted(command.Text(), prompt, Token(tokenHex), StatusName(statusHex));
    var ran := Shell.Run(Shell.Known(command.Text(), e), s.(output := ""), submitted);
    && ran.Ran?
    && sent == ToTerminal(Echo(submitted, echoed) + ran.state.output + ValueOf(ran.state.params, "PS1"))
  }

  /** So what it sends is the echo, the command's output, the marker with its status, and the prompt. */
  lemma AnswersAre(command: UnixCommand, prompt: string, tokenHex: string, statusHex: string,
                   echoed: bool, s: Shell.State, e: Shell.Effect, sent: string)
    requires IsHex(tokenHex) && IsHex(statusHex)
    requires Answers(command, prompt, tokenHex, statusHex, echoed, s, e, sent)
    ensures
      var token := Token(tokenHex);
      var submitted := Submitted(command.Text(), prompt, token, StatusName(statusHex));
      sent == ToTerminal(ConsoleText(Echo(submitted, echoed), e.output, token, e.status, prompt))
  {
    hide Submitted, Token, StatusName, IsHex, IsWordText, IsName, Shell.Run, Digits, ToTerminal, VariablesAfter;
    var token, name := Token(tokenHex), StatusName(statusHex);
    NamesAreWords(tokenHex);
    StatusNameIsName(statusHex);
    SubmittedRuns(command.Text(), prompt, token, name, s.(output := ""), e);
    VariablesAre(e, prompt, name);
    var echo := Echo(Submitted(command.Text(), prompt, token, name), echoed);
    var marker := "\n" + token + Digits(e.status) + "\n";
    SameText(echo, e.output, marker, prompt);
  }

  lemma SameText(echo: string, output: string, marker: string, prompt: string)
    ensures echo + ("" + output + marker) + prompt == echo + output + (marker + prompt)
  {
    assert "" + output == output;
  }

  /** No clash with the fresh token, and no carriage return where line ends are translated. */
  ghost predicate Separable(command: UnixCommand, prompt: string, token: string, echoed: bool, output: string) {
    && !Contains(command.Text(), token) && !Contains(prompt, token) && !Contains(output, token)
    && '\r' !in output && '\r' !in prompt && (echoed ==> '\r' !in Quote(command.Text()))
  }

  /** The round trip of one command, as a statement about what the console sent. */
  lemma CommandRoundTrip(command: UnixCommand, prompt: string, tokenHex: string, statusHex: string,
                         echoed: bool, s: Shell.State, e: Shell.Effect, sent: string)
    requires IsHex(tokenHex) && IsHex(statusHex)
    requires Separable(command, prompt, Token(tokenHex), echoed, e.output)
    requires Answers(command, prompt, tokenHex, statusHex, echoed, s, e, sent)
    ensures var token := Token(tokenHex);
      var submitted := Submitted(command.Text(), prompt, token, StatusName(statusHex));
      && Complete(token, prompt, sent)
      && IsAnswer(token, sent, Echo(submitted, echoed) + e.output, e.status)
      && RemoveEcho(Echo(submitted, echoed) + e.output, submitted) == LStrip(e.output, '\n')
  {
    var token, name := Token(tokenHex), StatusName(statusHex);
    var submitted := Submitted(command.Text(), prompt, token, name);
    NamesAreWords(tokenHex);
    NamesAreWords(statusHex);
    if echoed {
      NoReturns(command.Text(), prompt, token, name);
    }
    AnswersAre(command, prompt, tokenHex, statusHex, echoed, s, e, sent);
    hide IsHex, Token, StatusName, Submitted, Contains, Complete, IsAnswer, RemoveEcho, ToTerminal, IsWordText;
    hide Answers;
    SubmittedHidesMarker(command.Text(), prompt, token, name);
    ConsoleAnswer(submitted, echoed, e.output, token, e.status, prompt);
    SubmittedShape(command.Text(), prompt, token, name);
    EchoRemoved(submitted, echoed, e.output, token);
  }

  lemma NoReturns(text: string, prompt: string, token: string, name: string)
    requires IsWordText(token) && IsWordText(name) && '\r' !in Quote(text) && '\r' !in prompt
    ensures '\r' !in Submitted(text, prompt, token, name)
  {
    hide Quote, IsWordText;
    WordText(token);
    WordText(name);
    QuoteKeepsOut(prompt);
    assert '\r' !in "eval " + Quote(text) + "; " + name + "=$?; ";
    assert '\r' !in "PS1=" + Quote(prompt) + "; ";
    assert '\r' !in "printf '\\n" + token + "%s\\n' \"$" + name + "\"";
  }

  lemma {:induction false} EscapeKeepsOut(s: string)
    requires '\r' !in s
    ensures '\r' !in Escape(s)
  {
    if s != "" {
      EscapeKeepsOut(s[1..]);
    }
  }

  lemma QuoteKeepsOut(s: string)
    requires '\r' !in s
    ensures '\r' !in Quote(s)
  {
    EscapeKeepsOut(s);
  }

  function ExecutionOf(response: Response, submitted: string): Execution {
    if response.Returned? then Finished(CommandResult(RemoveEcho(response.text, submitted), "", response.exitCode))
    else NotFinished(response)
  }

  /** These polls, and no fewer, determine this execution. */
  ghost predicate ExecutesTo(
    token: string, prompt: string, submitted: string, events: seq<Event>, e: Execution, polls: nat
  ) {
    match e
    case Finished(result) =>
      result.stderr == "" && exists text ::
        && ReadsTo(token, prompt, events, Returned(text, result.exitCode), polls)
        && result.stdout == RemoveEcho(text, submitted)
    case NotFinished(response) => !response.Returned? && ReadsTo(token, prompt, events, response, polls)
    case NotOpen => false
  }

  lemma ReadExecutes(
    token: string, prompt: string, submitted: string, events: seq<Event>, response: Response, polls: nat
  )
    requires ReadsTo(token, prompt, events, response, polls)
    ensures ExecutesTo(token, prompt, submitted, events, ExecutionOf(response, submitted), polls)
  {
    hide ReadsTo, RemoveEcho;
    if response.Returned? {
      assert ReadsTo(token, prompt, events, Returned(response.text, response.exitCode), polls);
    }
  }

  /**
  Execute one command. When everything that a terminal with a shell sends for it has arrived before the
  deadline, with or without an echo and in whatever chunks, the result is the status with which the
  command's evaluation ended and its output without leading newlines.
  */
  method Execute(command: UnixCommand, prompt: string, tokenHex: string, statusHex: string,
                 closed: bool, events: seq<Event>)
    returns (sent: string, r: Execution)
    requires IsHex(tokenHex) && IsHex(statusHex)
    ensures closed <==> r.NotOpen?
    ensures closed ==> sent == ""
    ensures !closed ==>
      sent == Submitted(command.Text(), prompt, Token(tokenHex), StatusName(statusHex)) + "\r"
    ensures !closed ==> exists polls: nat ::
      ExecutesTo(Token(tokenHex), prompt,
        Submitted(command.Text(), prompt, Token(tokenHex), StatusName(statusHex)), events, r, polls)
    ensures forall echoed: bool, s: Shell.State, e: Shell.Effect ::
      && !closed && ChannelClosed !in events
      && Separable(command, prompt, Token(tokenHex), echoed, e.output)
      && Answers(command, prompt, tokenHex, statusHex, echoed, s, e, Received(events))
      ==> r == Finished(CommandResult(LStrip(e.output, '\n'), "", e.status))
  {
    if closed {
      return "", NotOpen;
    }
    var token := Token(tokenHex);
    var submitted := Submitted(command.Text(), prompt, token, StatusName(statusHex));
    NamesAreWords(tokenHex);
    WordText(token);
    hide *;
    sent := submitted + "\r";
    var response := ReadCommandResponse(token, prompt, events);
    ghost var polls: nat :| ReadsTo(token, prompt, events, response, polls);
    forall echoed: bool, s: Shell.State, e: Shell.Effect |
      && ChannelClosed !in events
      && Separable(command, prompt, token, echoed, e.output)
      && Answers(command, prompt, tokenHex, statusHex, echoed, s, e, Received(events))
      ensures response.Returned? && response.exitCode == e.status
        && RemoveEcho(response.text, submitted) == LStrip(e.output, '\n')
    {
      CommandRoundTrip(command, prompt, tokenHex, statusHex, echoed, s, e, Received(events));
      WholeReadReturns(token, prompt, events, response, polls, Echo(submitted, echoed) + e.output, e.status);
    }
    ReadExecutes(token, prompt, submitted, events, response, polls);
    ExecutionIs(response, submitted);
    match response
    case Returned(text, exitCode) =>
      r := Finished(CommandResult(RemoveEcho(text, submitted), "", exitCode));
    case _ =>
      r := NotFinished(response);
  }

  lemma ExecutionIs(response: Response, submitted: string)
    ensures ExecutionOf(response, submitted) ==
      if response.Returned? then
        Finished(CommandResult(RemoveEcho(response.text, submitted), "", response.exitCode))
      else
        NotFinished(response)
  {
  }

  /** Once everything received is a complete answer, the read has returned, and with that answer. */
  lemma WholeReadReturns(token: string, prompt: string, events: seq<Event>, r: Response, polls: nat,
                         text: string, status: int)
    requires '\n' !in token && ChannelClosed !in events && ReadsTo(token, prompt, events, r, polls)
    requires Complete(token, prompt, Received(events)) && IsAnswer(token, Received(events), text, status)
    ensures r == Returned(text, status)
  {
    hide Complete, IsAnswer;
    if r.Returned? {
      ReceivedPrefix(events, polls);
      ChunkingIndependence(token, Received(events), Received(events[..polls]), Received(events),
        r.text, r.exitCode, text, status);
    } else if r.TimedOut? {
      NotComplete(token, prompt, events);
    }
  }

  lemma {:induction false} ReceivedPrefix(events: seq<Event>, k: nat)
    requires k <= |events|
    ensures Received(events[..k]) <= Received(events)
  {
    if k < |events| {
      ReceivedPrefix(events[..|events| - 1], k);
      assert events[..|events| - 1][..k] == events[..k];
    } else {
      assert events[..k] == events;
    }
  }

  // ----- What a read means for the command -----

  /**
  The execution agrees with what the console said: for every effect of the command whose terminal text
  begins with the received data, a result is its output and status, and there is one once all arrived.
  */
  ghost predicate Agrees(command: UnixCommand, prompt: string, tokenHex: string, statusHex: string,
                         data: string, e: Execution)
  {
    forall echoed: bool, s: Shell.State, effect: Shell.Effect, sent: string ::
      && Separable(command, prompt, Token(tokenHex), echoed, effect.output)
      && Answers(command, prompt, tokenHex, statusHex, echoed, s, effect, sent)
      && data <= sent
      ==>
        && (e.Finished? ==> e.result == CommandResult(LStrip(effect.output, '\n'), "", effect.status))
        && (data == sent ==> e.Finished?)
  }

  lemma NotReturnedIsIncomplete(token: string, prompt: string, events: seq<Event>, r: Response)
    requires ReadsTo(token, prompt, events, r, |events|) && !r.Returned?
    ensures !Complete(token, prompt, Received(events))
  {
    hide Complete;
    assert events[..|events|] == events;
    if r.Closed? {
      ReceivedSnoc(events, |events| - 1);
      NotComplete(token, prompt, events[..|events| - 1]);
      assert Received(events[..|events| - 1]) + "" == Received(events[..|events| - 1]);
    } else {
      NotComplete(token, prompt, events);
    }
  }

  /** Whatever the polls were, the execution agrees with what the console said. */
  lemma ReadAgrees(command: UnixCommand, prompt: string, tokenHex: string, statusHex: string,
                   events: seq<Event>, r: Response)
    requires IsHex(tokenHex) && IsHex(statusHex)
    requires ReadsTo(Token(tokenHex), prompt, events, r, |events|)
    ensures
      var submitted := Submitted(command.Text(), prompt, Token(tokenHex), StatusName(statusHex));
      Agrees(command, prompt, tokenHex, statusHex, Received(events), ExecutionOf(r, submitted))
  {
    var token, data := Token(tokenHex), Received(events);
    var submitted := Submitted(command.Text(), prompt, token, StatusName(statusHex));
    NamesAreWords(tokenHex);
    WordText(token);
    assert r.Returned? ==> IsAnswer(token, data, r.text, r.exitCode) by {
      assert events[..|events|] == events;
    }
    hide Complete, IsAnswer, Answers, Separable, Received, RemoveEcho, LStrip, Submitted, Token, IsHex, ReadsTo;
    forall echoed: bool, s: Shell.State, effect: Shell.Effect, sent: string |
      && Separable(command, prompt, token, echoed, effect.output)
      && Answers(command, prompt, tokenHex, statusHex, echoed, s, effect, sent)
      && data <= sent
      ensures
        var e := ExecutionOf(r, submitted);
        && (e.Finished? ==> e.result == CommandResult(LStrip(effect.output, '\n'), "", effect.status))
        && (data == sent ==> e.Finished?)
    {
      CommandRoundTrip(command, prompt, tokenHex, statusHex, echoed, s, effect, sent);
      if r.Returned? {
        ChunkingIndependence(token, sent, data, sent, r.text, r.exitCode, Echo(submitted, echoed) + effect.output,
          effect.status);
      } else {
        NotReturnedIsIncomplete(token, prompt, events, r);
      }
    }
  }
}
